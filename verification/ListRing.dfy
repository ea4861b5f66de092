/** The intrusive circular doubly linked list of include/list.h.

    A ring is described by the sequence of its list heads in `next` order,
    starting at the head the program holds.  `entry` is the structure a list
    head is embedded in, so `list_entry(p)` is `p.entry`. */
module ListRing {
  import opened Sequences

  class ListHead<E> {
    var next: ListHead?<E>
    var prev: ListHead?<E>
    const entry: E

    constructor (entry: E)
      ensures this.entry == entry
    {
      this.entry := entry;
    }

    /** `INIT_LIST_HEAD` */
    method Init()
      modifies this`next, this`prev
      ensures Ring([this])
    {
      next := this;
      prev := this;
    }
  }

  /** `next` and `prev` are mutual inverses on one cycle through `r[0]`. */
  ghost predicate Ring<E>(r: seq<ListHead<E>>)
    reads r`next, r`prev
  {
    && |r| > 0
    && Distinct(r)
    && (forall i {:trigger r[i].next} | 0 <= i < |r| :: r[i].next == if i + 1 < |r| then r[i + 1] else r[0])
    && (forall i {:trigger r[i].prev} | 0 <= i < |r| :: r[i].prev == if i > 0 then r[i - 1] else r[|r| - 1])
  }

  /** The heap determines the sequence: a head lies on one ring only. */
  lemma {:induction false} RingIsUnique<E>(r: seq<ListHead<E>>, s: seq<ListHead<E>>)
    requires Ring(r) && Ring(s) && r[0] == s[0]
    ensures r == s
  {
    if |r| <= |s| {
      RingPrefix(r, s, |r|);
    } else {
      RingPrefix(s, r, |s|);
    }
  }

  lemma {:induction false} RingPrefix<E>(r: seq<ListHead<E>>, s: seq<ListHead<E>>, n: nat)
    requires Ring(r) && Ring(s) && r[0] == s[0] && 0 < n <= |r| <= |s|
    ensures r[..n] == s[..n]
    ensures n == |r| ==> |s| == |r|
  {
    if n > 1 {
      RingPrefix(r, s, n - 1);
      assert r[n - 2] == r[..n - 1][n - 2] == s[..n - 1][n - 2] == s[n - 2];
      assert r[n - 2].next == r[n - 1] && s[n - 2].next == s[n - 1];
    }
    assert r[n - 1] == s[n - 1] && r[n - 1].next == s[n - 1].next;
  }

  /** `__list_add`: link `n` between two neighbours of a ring. */
  method AddBetween<E>(n: ListHead<E>, prev: ListHead<E>, next: ListHead<E>, ghost r: seq<ListHead<E>>, ghost k: nat)
    requires Ring(r) && n !in r
    requires 0 < k <= |r| && prev == r[k - 1] && next == (if k < |r| then r[k] else r[0])
    modifies n`next, n`prev, prev`next, next`prev
    ensures Ring(r[..k] + [n] + r[k..])
  {
    next.prev := n;
    n.next := next;
    n.prev := prev;
    prev.next := n;
  }

  /** `list_add` */
  method Add<E>(n: ListHead<E>, head: ListHead<E>, ghost r: seq<ListHead<E>>)
    requires Ring(r) && r[0] == head && n !in r
    modifies n`next, n`prev, head`next, head.next`prev
    ensures Ring([head, n] + r[1..])
  {
    AddBetween(n, head, head.next, r, 1);
    assert [head, n] + r[1..] == r[..1] + [n] + r[1..];
  }

  /** `list_add_tail` */
  method AddTail<E>(n: ListHead<E>, head: ListHead<E>, ghost r: seq<ListHead<E>>)
    requires Ring(r) && r[0] == head && n !in r
    modifies n`next, n`prev, head`prev, head.prev`next
    ensures Ring(r + [n])
  {
    AddBetween(n, head.prev, head, r, |r|);
    assert r + [n] == r[..|r|] + [n] + r[|r|..];
  }

  /** `__list_del`: make the neighbours of the unlinked `r[k]` point to each other. */
  method DelBetween<E>(prev: ListHead<E>, next: ListHead<E>, ghost r: seq<ListHead<E>>, ghost k: nat)
    requires Ring(r) && 0 < k < |r|
    requires prev == r[k].prev && next == r[k].next
    modifies prev`next, next`prev
    ensures Ring(Without(r, k))
  {
    next.prev := prev;
    prev.next := next;
  }

  /** `list_del` */
  method Del<E>(entry: ListHead<E>, ghost r: seq<ListHead<E>>, ghost k: nat)
    requires Ring(r) && 0 < k < |r| && r[k] == entry
    modifies entry`next, entry`prev, entry.prev`next, entry.next`prev
    ensures Ring(Without(r, k))
    ensures entry.next == null && entry.prev == null
  {
    DelBetween(entry.prev, entry.next, r, k);
    entry.next := null;
    entry.prev := null;
  }

  /** `list_del_init` */
  method DelInit<E>(entry: ListHead<E>, ghost r: seq<ListHead<E>>, ghost k: nat)
    requires Ring(r) && 0 < k < |r| && r[k] == entry
    modifies entry`next, entry`prev, entry.prev`next, entry.next`prev
    ensures Ring(Without(r, k)) && Ring([entry])
  {
    DelBetween(entry.prev, entry.next, r, k);
    entry.Init();
  }

  /** The ring `entry` is moved into: the one it leaves, or one that shares nothing with it. */
  ghost predicate Target<E>(h: seq<ListHead<E>>, r: seq<ListHead<E>>, k: nat)
    requires k < |r|
  {
    h == Without(r, k) || Disjoint(h, r)
  }

  /** `list_move`: `h` is the target ring once `entry` has left the ring `r`. */
  method Move<E>(entry: ListHead<E>, head: ListHead<E>, ghost r: seq<ListHead<E>>, ghost k: nat, ghost h: seq<ListHead<E>>)
    requires Ring(r) && 0 < k < |r| && r[k] == entry
    requires Target(h, r, k) && (h != Without(r, k) ==> Ring(h)) && |h| > 0 && h[0] == head
    modifies entry`next, entry`prev, entry.prev`next, entry.next`prev, head`next, head.next`prev
    ensures Ring([head, entry] + h[1..])
    ensures h != Without(r, k) ==> Ring(Without(r, k))
  {
    DelBetween(entry.prev, entry.next, r, k);
    Add(entry, head, h);
  }

  /** `list_move_tail` */
  method MoveTail<E>(entry: ListHead<E>, head: ListHead<E>, ghost r: seq<ListHead<E>>, ghost k: nat, ghost h: seq<ListHead<E>>)
    requires Ring(r) && 0 < k < |r| && r[k] == entry
    requires Target(h, r, k) && (h != Without(r, k) ==> Ring(h)) && |h| > 0 && h[0] == head
    modifies entry`next, entry`prev, entry.prev`next, entry.next`prev, head`prev, head.prev`next
    ensures Ring(h + [entry])
    ensures h != Without(r, k) ==> Ring(Without(r, k))
  {
    DelBetween(entry.prev, entry.next, r, k);
    AddTail(entry, head, h);
  }

  /** `list_empty` */
  method IsEmpty<E>(head: ListHead<E>, ghost r: seq<ListHead<E>>) returns (empty: bool)
    requires Ring(r) && r[0] == head
    ensures empty <==> r == [head]
  {
    empty := head.next == head;
    assert |r| > 1 ==> head.next == r[1];
    assert |r| == 1 ==> r == [head];
  }

  /** `__list_splice`: `list` itself keeps its stale links and drops out of the ring. */
  method SpliceNonEmpty<E>(list: ListHead<E>, head: ListHead<E>, ghost l: seq<ListHead<E>>, ghost r: seq<ListHead<E>>)
    requires Ring(l) && |l| > 1 && l[0] == list
    requires Ring(r) && r[0] == head
    requires Disjoint(l, r)
    modifies list.next`prev, list.prev`next, head`next, head.next`prev
    ensures Ring([head] + l[1..] + r[1..])
  {
    var first, last, at := list.next, list.prev, head.next;
    ghost var s := [head] + l[1..] + r[1..];
    assert first == l[1] && last == l[|l| - 1];
    first.prev := head;
    head.next := first;
    last.next := at;
    at.prev := last;
    assert Distinct(s);
  }

  /** `list_splice` */
  method Splice<E>(list: ListHead<E>, head: ListHead<E>, ghost l: seq<ListHead<E>>, ghost r: seq<ListHead<E>>)
    requires Ring(l) && l[0] == list && Ring(r) && r[0] == head
    requires Disjoint(l, r)
    modifies list.next`prev, list.prev`next, head`next, head.next`prev
    ensures Ring([head] + l[1..] + r[1..])
  {
    var empty := IsEmpty(list, l);
    if !empty {
      SpliceNonEmpty(list, head, l, r);
    } else {
      assert [head] + l[1..] + r[1..] == r;
    }
  }

  /** `list_splice_init` */
  method SpliceInit<E>(list: ListHead<E>, head: ListHead<E>, ghost l: seq<ListHead<E>>, ghost r: seq<ListHead<E>>)
    requires Ring(l) && l[0] == list && Ring(r) && r[0] == head
    requires Disjoint(l, r)
    modifies list`next, list`prev, list.next`prev, list.prev`next, head`next, head.next`prev
    ensures Ring([head] + l[1..] + r[1..]) && Ring([list])
  {
    var empty := IsEmpty(list, l);
    if !empty {
      SpliceNonEmpty(list, head, l, r);
      list.Init();
    } else {
      assert [head] + l[1..] + r[1..] == r;
    }
  }
}
