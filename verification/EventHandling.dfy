/** The event engine of event_handling.c as it runs: static state, entries on an
    intrusive ring, and loops over pointers.  Each operation is tied to the value
    model of `EventModel`. */
module EventHandling {
  import opened CStrings
  import opened ListRing
  import opened Sequences
  import Model = EventModel
  import StrReplace

  /** A `FILE_LIST` and its `FILE_EVENT`, which are allocated and freed together. */
  class FileEntry {
    var id: int
    var name: string
    var openTimestamp: nat
    var closeTimestamp: nat
    var isClosed: bool
    var hasFiredOpen: bool
    var hasFiredClosed: bool
    var remove: bool

    ghost function Value(): Model.File
      reads this
    {
      Model.File(id, name, openTimestamp, closeTimestamp, isClosed, hasFiredOpen, hasFiredClosed, remove)
    }

    /** `allocate_file`, `init_file` and `allocate_file_list` */
    constructor (id: int, name: string, timestamp: nat)
      ensures Value() == Model.NewFile(id, name, timestamp)
    {
      this.id := id;
      this.name := name;
      openTimestamp := timestamp;
      closeTimestamp := Model.SENTINEL;
      isClosed := false;
      hasFiredOpen := false;
      hasFiredClosed := false;
      remove := false;
    }

    /** `close_file` */
    method Close(timestamp: nat)
      modifies this
      ensures Value() == Model.CloseFile(old(Value()), timestamp)
    {
      isClosed := true;
      closeTimestamp := timestamp;
    }

    method ResetToOpen(timestamp: nat)
      modifies this
      ensures Value() == Model.ResetToOpen(old(Value()), timestamp)
    {
      isClosed := false;
      closeTimestamp := Model.SENTINEL;
      openTimestamp := timestamp;
    }
  }

  /** `list_entry` of each list head behind the first. */
  ghost predicate Embeds(ring: seq<ListHead<FileEntry>>, entries: seq<FileEntry>) {
    |ring| == |entries| + 1 && forall i | 0 <= i < |entries| :: ring[i + 1].entry == entries[i]
  }

  /** Separate entries that hold `files` in order. */
  ghost predicate Holds(entries: seq<FileEntry>, files: seq<Model.File>)
    reads entries
  {
    && |entries| == |files|
    && Distinct(entries)
    && forall i | 0 <= i < |entries| :: entries[i].Value() == files[i]
  }

  lemma EmbedsMore(ring: seq<ListHead<FileEntry>>, entries: seq<FileEntry>, n: ListHead<FileEntry>)
    requires Embeds(ring, entries)
    ensures Embeds(ring + [n], entries + [n.entry])
  {
  }

  lemma HoldsMore(entries: seq<FileEntry>, files: seq<Model.File>, e: FileEntry)
    requires Holds(entries, files) && e !in entries
    ensures Holds(entries + [e], files + [e.Value()])
  {
  }

  lemma EmbedsWithout(ring: seq<ListHead<FileEntry>>, entries: seq<FileEntry>, k: nat)
    requires Embeds(ring, entries) && k < |entries|
    ensures Embeds(Without(ring, k + 1), Without(entries, k))
  {
  }

  lemma HoldsWithout(entries: seq<FileEntry>, files: seq<Model.File>, k: nat)
    requires Holds(entries, files) && k < |entries|
    ensures Holds(Without(entries, k), Without(files, k))
  {
  }

  class EventHandler {
    const cfg: Model.Config
    const clock: Model.Clock           // what `clock_gettime` delivers
    const head: ListHead<FileEntry>    // `file_event_list`
    var signaled: bool
    var lastTick: nat
    var clockCalls: nat

    ghost var ring: seq<ListHead<FileEntry>>
    ghost var entries: seq<FileEntry>
    ghost var files: seq<Model.File>
    ghost var fired: seq<Model.Command>

    ghost predicate Valid()
      reads `ring, `entries, `files, ring, entries
    {
      Ring(ring) && ring[0] == head && Embeds(ring, entries) && Holds(entries, files)
    }

    /** The part of `Valid` that a traversal needs at position `k`. */
    lemma Layout(k: nat)
      requires Valid() && k <= |files|
      ensures |ring| == |entries| + 1 == |files| + 1 && ring[0] == head
      ensures ring[k].next == if k < |files| then ring[k + 1] else head
      ensures k < |files| ==> ring[k + 1] != head && ring[k + 1].entry == entries[k] && entries[k].Value() == files[k]
    {
    }

    lemma RingOf()
      requires Valid()
      ensures Ring(ring) && ring[0] == head
    {
    }

    ghost function Ticks(): Model.Ticker
      reads this
    {
      Model.Ticker(lastTick, clockCalls)
    }

    ghost function Abs(): Model.Engine
      reads this
    {
      Model.Engine(files, Ticks(), signaled, fired)
    }

    /** `event_handling_init` */
    constructor (cfg: Model.Config, clock: Model.Clock)
      ensures Valid() && fresh(ring) && entries == []
      ensures this.cfg == cfg && this.clock == clock
      ensures Abs() == Model.Engine([], Model.Ticker(0, 0), false, [])
    {
      this.cfg := cfg;
      this.clock := clock;
      var unused := new FileEntry(0, "", 0);
      var h := new ListHead(unused);
      h.Init();
      head := h;
      signaled := false;
      lastTick := 0;
      clockCalls := 0;
      ring := [h];
      entries := [];
      files := [];
      fired := [];
    }

    // ---- Time --------------------------------------------------------------

    /** `event_handling_get_tick` */
    method GetTick() returns (tick: nat)
      modifies this`lastTick, this`clockCalls
      ensures (tick, Ticks()) == Model.GetTick(clock, old(Ticks()))
    {
      var reading := clock(clockCalls);
      clockCalls := clockCalls + 1;
      if reading.Failed? {
        return 0;
      }
      var cur := reading.sec * 1000000 + reading.nsec / 1000000;
      if lastTick > cur {
        return lastTick;
      }
      lastTick := cur;
      return lastTick;
    }

    /** `calc_open_delta` */
    method CalcOpenDelta(orig: FileEntry) returns (delta: nat)
      modifies this`lastTick, this`clockCalls
      ensures (delta, Ticks()) == Model.OpenDelta(clock, old(Ticks()), orig.Value())
    {
      var cur := GetTick();
      if cur < orig.openTimestamp {
        return 0;
      }
      return cur - orig.openTimestamp;
    }

    /** `has_open_past_delay` */
    method HasOpenPastDelay(orig: FileEntry) returns (past: bool)
      modifies this`lastTick, this`clockCalls
      ensures var (delta, t) := Model.OpenDelta(clock, old(Ticks()), orig.Value());
              past == (delta > Model.Threshold(cfg.delay)) && Ticks() == t
    {
      var delta := CalcOpenDelta(orig);
      past := delta > Model.Threshold(cfg.delay);
    }

    // ---- Commands ----------------------------------------------------------

    /** The text handed to `system`. */
    method Expand(cmd: string, name: string) returns (text: string)
      ensures text == Model.CommandText(cmd, name)
    {
      if StrStr(cmd, "@0").Some? {
        var buffer := StrReplace.StrReplace(Some(cmd), Some("@0"), Some(name));
        text := buffer[..buffer.Length - 1];
      } else {
        text := cmd;
      }
    }

    /** `execute_open_event` */
    method ExecuteOpenEvent(f: FileEntry)
      modifies f`hasFiredOpen, this`fired
      ensures (f.Value(), fired) == Model.ExecuteOpen(cfg, old(f.Value()), old(fired), lastTick)
    {
      if cfg.openCmd == "" || f.hasFiredOpen || f.hasFiredClosed {
        return;
      }
      var text := Expand(cfg.openCmd, f.name);
      fired := fired + [Model.Command(Model.OpenCommand, f.id, f.name, text, lastTick, f.openTimestamp)];
      f.hasFiredOpen := true;
    }

    /** `execute_close_event` */
    method ExecuteCloseEvent(f: FileEntry)
      modifies f`hasFiredClosed, this`fired
      ensures (f.Value(), fired) == Model.ExecuteClose(cfg, old(f.Value()), old(fired), lastTick)
    {
      if cfg.closeCmd == "" || !f.hasFiredOpen || f.hasFiredClosed {
        return;
      }
      var text := Expand(cfg.closeCmd, f.name);
      fired := fired + [Model.Command(Model.CloseCommand, f.id, f.name, text, lastTick, f.openTimestamp)];
      f.hasFiredClosed := true;
    }

    // ---- The producer ------------------------------------------------------

    /** `find_in_file_list`: the list head of the first match, or null. */
    method FindInFileList(id: int, name: string) returns (pos: ListHead?<FileEntry>)
      requires Valid()
      ensures var k := Model.FindFile(files, id, name);
              pos == if k < |files| then ring[k + 1] else null
    {
      pos := head.next;
      ghost var k := 0;
      while pos != head
        invariant 0 <= k <= |files| && pos == ring[if k < |files| then k + 1 else 0]
        invariant forall i | 0 <= i < k :: !Model.SameFile(files[i], id, name)
        decreases |files| - k
      {
        assert pos.entry == entries[k];
        if pos.entry.id == id && pos.entry.name == name {
          FindFileIs(files, id, name, k);
          return;
        }
        pos := pos.next;
        k := k + 1;
      }
      FindFileIs(files, id, name, |files|);
      pos := null;
    }

    /** `add_new_file`, when allocation succeeds. */
    method AddNewFile(id: int, name: string, timestamp: nat)
      requires Valid()
      modifies this`ring, this`entries, this`files, ring
      ensures Valid() && OnlyFresh(old(ring), old(entries))
      ensures files == old(files) + [Model.NewFile(id, name, timestamp)]
    {
      var entry := new FileEntry(id, name, timestamp);
      var node := new ListHead(entry);
      hide Valid;
      Link(node);
    }

    /** `list_add_tail` of the new entry. */
    method Link(node: ListHead<FileEntry>)
      requires Valid() && node !in ring && node.entry !in entries
      modifies this`ring, this`entries, this`files, ring, node
      ensures Valid() && ring == old(ring) + [node] && entries == old(entries) + [node.entry]
      ensures files == old(files) + [old(node.entry.Value())]
    {
      EmbedsMore(ring, entries, node);
      hide Ring, Embeds, Holds;
      AddTail(node, head, ring);
      HoldsMore(entries, files, node.entry);
      files := files + [node.entry.Value()];
      ring := ring + [node];
      entries := entries + [node.entry];
    }

    /** What is on the list and was not before has been allocated since. */
    twostate predicate OnlyFresh(ring0: seq<ListHead<FileEntry>>, entries0: seq<FileEntry>)
      reads this
    {
      (forall n | n in ring :: n in ring0 || fresh(n)) && forall e | e in entries :: e in entries0 || fresh(e)
    }

    /** `remove_from_list` */
    method RemoveFromList(pos: ListHead<FileEntry>, ghost k: nat)
      requires Valid() && k < |files| && ring[k + 1] == pos
      modifies this`ring, this`entries, this`files, ring
      ensures Valid() && ring == Without(old(ring), k + 1) && entries == Without(old(entries), k)
      ensures files == Without(old(files), k)
    {
      Layout(k);
      EmbedsWithout(ring, entries, k);
      hide Ring, Embeds, Holds;
      Del(pos, ring, k + 1);
      HoldsWithout(entries, files, k);
      ring := Without(ring, k + 1);
      entries := Without(entries, k);
      files := Without(files, k);
    }

    method CloseAt(pos: ListHead<FileEntry>, ghost k: nat, timestamp: nat)
      requires Valid() && k < |files| && ring[k + 1] == pos
      modifies this`files, entries[k]
      ensures Valid() && files == old(files)[k := Model.CloseFile(old(files)[k], timestamp)]
    {
      assert pos.entry == entries[k];
      pos.entry.Close(timestamp);
      files := files[k := pos.entry.Value()];
    }

    /** `close_file(tmp_file, event_handling_get_tick())` */
    method CloseNow(pos: ListHead<FileEntry>, ghost k: nat)
      requires Valid() && k < |files| && ring[k + 1] == pos
      modifies this`files, this`lastTick, this`clockCalls, entries[k]
      ensures var (tick, t) := Model.GetTick(clock, old(Ticks()));
              Valid() && Ticks() == t && files == old(files)[k := Model.CloseFile(old(files)[k], tick)]
    {
      hide Model.GetTick, Model.CloseFile;
      var tick := GetTick();
      CloseAt(pos, k, tick);
    }

    method ResetAt(pos: ListHead<FileEntry>, ghost k: nat, timestamp: nat)
      requires Valid() && k < |files| && ring[k + 1] == pos
      modifies this`files, entries[k]
      ensures Valid() && files == old(files)[k := Model.ResetToOpen(old(files)[k], timestamp)]
    {
      assert pos.entry == entries[k];
      pos.entry.ResetToOpen(timestamp);
      files := files[k := pos.entry.Value()];
    }

    /** The close branch, for an open file. */
    method HandleClose(pos: ListHead<FileEntry>, ghost k: nat)
      requires Valid() && k < |files| && ring[k + 1] == pos
      modifies this, ring, entries
      ensures Valid() && OnlyFresh(old(ring), old(entries))
      ensures Abs() == Model.HandleClose(cfg, clock, old(Abs()), k)
    {
      Layout(k);
      WithoutIn(ring, k + 1);
      WithoutIn(entries, k);
      hide Valid, Without, Model.OpenDelta, Model.GetTick, Model.CloseFile;
      var past := HasOpenPastDelay(pos.entry);
      if past {
        CloseNow(pos, k);
      } else if !pos.entry.hasFiredOpen {
        RemoveFromList(pos, k);
      }
    }

    /** The critical section of `event_handling_add_event`. */
    method AddEvent(ev: Model.Event) returns (res: int)
      requires Valid()
      modifies this, ring, entries
      ensures Valid() && OnlyFresh(old(ring), old(entries))
      ensures res == 0 && Abs() == Model.AddEvent(cfg, clock, old(Abs()), ev)
    {
      hide Valid;
      var pos := FindInFileList(ev.id, ev.name);
      ghost var k := Model.FindFile(files, ev.id, ev.name);
      Layout(k);
      if Model.IsCloseEvent(ev.mask) {
        if pos != null && !pos.entry.isClosed {
          HandleClose(pos, k);
        }
      } else if Model.IsOpenEvent(ev.mask) {
        if pos != null && pos.entry.isClosed {
          ResetAt(pos, k, ev.timestamp);
        } else if pos == null {
          AddNewFile(ev.id, ev.name, ev.timestamp);
        }
      }
      signaled := true;
      res := 0;
    }

    // ---- The consumer ------------------------------------------------------

    /** The body of the first loop. */
    method VisitEntry(cur: FileEntry, curWait: nat) returns (wait: nat)
      modifies this`lastTick, this`clockCalls, this`fired, cur
      ensures (Model.Pass(Ticks(), wait, fired), cur.Value()) ==
              Model.Visit(cfg, clock, Model.Pass(old(Ticks()), curWait, old(fired)), old(cur.Value()))
    {
      wait := curWait;
      if !cur.hasFiredOpen {
        var past := HasOpenPastDelay(cur);
        if past {
          ExecuteOpenEvent(cur);
        } else {
          var delta := CalcOpenDelta(cur);
          if wait > delta {
            wait := CalcOpenDelta(cur);
          }
        }
      }
      if !cur.hasFiredClosed && cur.closeTimestamp != Model.SENTINEL && cur.hasFiredOpen {
        ExecuteCloseEvent(cur);
        cur.remove := true;
      }
    }

    method VisitAt(pos: ListHead<FileEntry>, ghost k: nat, curWait: nat) returns (wait: nat)
      requires Valid() && k < |files| && ring[k + 1] == pos
      modifies this`lastTick, this`clockCalls, this`fired, this`files, entries[k]
      ensures Valid()
      ensures var (p, f) := Model.Visit(cfg, clock, Model.Pass(old(Ticks()), curWait, old(fired)), old(files)[k]);
              Model.Pass(Ticks(), wait, fired) == p && files == old(files)[k := f]
    {
      assert pos.entry == entries[k];
      wait := VisitEntry(pos.entry, curWait);
      files := files[k := pos.entry.Value()];
    }

    /** The first loop: `list_for_each`. */
    method VisitAll(curWait: nat) returns (wait: nat)
      requires Valid()
      modifies this`lastTick, this`clockCalls, this`fired, this`files, entries
      ensures Valid()
      ensures (Model.Pass(Ticks(), wait, fired), files) ==
              Model.VisitAll(cfg, clock, Model.Pass(old(Ticks()), curWait, old(fired)), old(files))
    {
      hide *;
      ghost var before, done := files, [];
      ghost var p := Model.Pass(Ticks(), curWait, fired);
      wait := curWait;
      Layout(0);
      VisitAllNone(cfg, clock, p);
      var pos := head.next;
      ghost var k := 0;
      while pos != head
        invariant Valid()
        invariant 0 <= k <= |files| == |before| && pos == ring[if k < |files| then k + 1 else 0]
        invariant |done| == k && (forall i | 0 <= i < k :: files[i] == done[i])
        invariant forall i | k <= i < |files| :: files[i] == before[i]
        invariant Model.VisitAll(cfg, clock, p, before[..k]) == (Model.Pass(Ticks(), wait, fired), done)
        decreases |files| - k
      {
        VisitAllSnoc(cfg, clock, p, before, k);
        Layout(k);
        wait := VisitAt(pos, k, wait);
        Layout(k + 1);
        done := done + [files[k]];
        pos := pos.next;
        k := k + 1;
      }
      Layout(k);
      assert before[..k] == before && files == done;
    }

    /** The body of the second loop; `m` files before `pos` have been kept. */
    method SweepAt(pos: ListHead<FileEntry>, n: ListHead<FileEntry>, ghost m: nat,
                   ghost nodes: seq<ListHead<FileEntry>>, ghost elements: seq<FileEntry>)
      returns (pos': ListHead<FileEntry>, n': ListHead<FileEntry>, ghost m': nat)
      requires Valid() && m < |files| && ring[m + 1] == pos && n == pos.next
      requires Within(ring, nodes) && Within(entries, elements)
      modifies this`ring, this`entries, this`files, nodes
      ensures Valid() && |ring| == |files| + 1
      ensures Within(ring, nodes) && Within(entries, elements)
      ensures if old(files)[m].remove then
                m' == m && ring == Without(old(ring), m + 1) && files == Without(old(files), m)
              else
                m' == m + 1 && ring == old(ring) && files == old(files)
      ensures m' <= |files| && pos' == (if m' < |files| then ring[m' + 1] else head) && n' == pos'.next
      ensures pos' == head <==> m' == |files|
    {
      Layout(m);
      Layout(m + 1);
      m' := m + 1;
      if pos.entry.remove {
        WithinWithout(ring, nodes, m + 1);
        WithinWithout(entries, elements, m);
        RemoveFromList(pos, m);
        m' := m;
      }
      Layout(0);
      Layout(m');
      pos' := n;
      if m' < |files| { Layout(m' + 1); }
      n' := pos'.next;
    }

    /** The second loop: `list_for_each_safe` with `list_del`.  `visited` is the
        list heads it goes over. */
    method SweepRemoved() returns (ghost visited: seq<ListHead<FileEntry>>)
      requires Valid()
      modifies this`ring, this`entries, this`files, ring
      ensures Valid() && Within(ring, old(ring)) && Within(entries, old(entries))
      ensures files == Model.Sweep(old(files))
      ensures visited == old(ring)[1..]
    {
      hide *;
      ghost var ring0, files0 := ring, files;
      Layout(0);
      if |files| > 0 { Layout(1); }
      WithinSelf(ring);
      WithinSelf(entries);
      SweptNone(ring, files);
      visited := [];
      var pos: ListHead<FileEntry> := head.next;
      var n: ListHead<FileEntry> := pos.next;
      ghost var k: nat, m: nat := 0, 0;
      while pos != head
        invariant Valid() && Within(ring, ring0) && Within(entries, old(entries))
        invariant Swept(ring0, files0, k, ring, files, m, visited)
        invariant m <= |files| < |ring| && (pos == head <==> m == |files|)
        invariant m < |files| ==> pos == ring[m + 1] && n == pos.next
        decreases |files0| - k
      {
        SweptBound(ring0, files0, k, ring, files, m, visited);
        ghost var ring1, files1, m1, at := ring, files, m, pos;
        pos, n, m := SweepAt(pos, n, m, ring0, old(entries));
        SweptNext(ring0, files0, k, ring1, files1, m1, visited, ring, files, m);
        visited := visited + [at];
        k := k + 1;
      }
      SweptAll(ring0, files0, k, ring, files, m, visited);
    }

    /** One turn of `consumer`, from wake-up to unlock. */
    method ConsumerPass(curWait: nat) returns (wait: nat)
      requires Valid()
      modifies this, ring, entries
      ensures Valid() && Within(ring, old(ring)) && Within(entries, old(entries))
      ensures (Abs(), wait) == Model.ConsumerPass(cfg, clock, old(Abs()), curWait)
    {
      hide Valid, Model.VisitAll, Model.Sweep;
      signaled := false;
      wait := VisitAll(curWait);
      ghost var _ := SweepRemoved();
      Layout(0);
      assert Ring(ring) by { RingOf(); }
      var empty := IsEmpty(head, ring);
      if empty {
        wait := 6000;
      }
      signaled := false;
    }
  }

  /** `k` files of the old list have been visited, of which `m` are kept. */
  ghost predicate Swept<H>(ring0: seq<H>, files0: seq<Model.File>, k: nat,
                           ring: seq<H>, files: seq<Model.File>, m: nat, visited: seq<H>) {
    && m <= k <= |files0| && |ring0| == |files0| + 1
    && |files| == |files0| - k + m && |ring| == |files| + 1
    && ring[m + 1..] == ring0[k + 1..] && files[m..] == files0[k..]
    && files[..m] == Model.Sweep(files0[..k]) && visited == ring0[1..k + 1]
  }

  lemma SweptNone<H>(ring: seq<H>, files: seq<Model.File>)
    requires |ring| == |files| + 1
    ensures Swept(ring, files, 0, ring, files, 0, [])
  {
    assert Model.Sweep(files[..0]) == [];
  }

  lemma SweptBound<H>(ring0: seq<H>, files0: seq<Model.File>, k: nat,
                      ring: seq<H>, files: seq<Model.File>, m: nat, visited: seq<H>)
    requires Swept(ring0, files0, k, ring, files, m, visited)
    ensures k <= |files0| && (m < |files| <==> k < |files0|)
  {
  }

  lemma SweptNext<H>(ring0: seq<H>, files0: seq<Model.File>, k: nat,
                     ring: seq<H>, files: seq<Model.File>, m: nat, visited: seq<H>,
                     ring': seq<H>, files': seq<Model.File>, m': nat)
    requires Swept(ring0, files0, k, ring, files, m, visited) && m < |files|
    requires if files[m].remove then m' == m && m + 1 < |ring| && ring' == Without(ring, m + 1) && files' == Without(files, m)
             else m' == m + 1 && ring' == ring && files' == files
    ensures m + 1 < |ring| && Swept(ring0, files0, k + 1, ring', files', m', visited + [ring[m + 1]])
  {
    hide Model.Sweep;
    SweepSnoc(files0, k);
    DropFirst(ring, ring0, m + 1, k + 1);
    DropFirst(files, files0, m, k);
    RangeNext(ring0, 1, k + 1);
  }

  lemma SweptAll<H>(ring0: seq<H>, files0: seq<Model.File>, k: nat,
                    ring: seq<H>, files: seq<Model.File>, m: nat, visited: seq<H>)
    requires Swept(ring0, files0, k, ring, files, m, visited) && m == |files|
    ensures files == Model.Sweep(files0) && visited == ring0[1..]
  {
    assert files0[..k] == files0 && files[..m] == files;
  }

  lemma SweepSnoc(files: seq<Model.File>, k: nat)
    requires k < |files|
    ensures Model.Sweep(files[..k + 1]) == Model.Sweep(files[..k]) + if files[k].remove then [] else [files[k]]
  {
    assert files[..k + 1][..k] == files[..k];
  }

  lemma VisitAllNone(cfg: Model.Config, clock: Model.Clock, p: Model.Pass)
    ensures Model.VisitAll(cfg, clock, p, []) == (p, [])
  {
  }

  lemma VisitAllSnoc(cfg: Model.Config, clock: Model.Clock, p: Model.Pass, files: seq<Model.File>, k: nat)
    requires k < |files|
    ensures var (q, done) := Model.VisitAll(cfg, clock, p, files[..k]);
            var (q', f) := Model.Visit(cfg, clock, q, files[k]);
            Model.VisitAll(cfg, clock, p, files[..k + 1]) == (q', done + [f])
  {
    assert files[..k + 1][..k] == files[..k];
  }

  /** The first match is the only match with none before it. */
  lemma {:induction false} FindFileIs(files: seq<Model.File>, id: int, name: string, i: nat)
    requires i <= |files| && forall j | 0 <= j < i :: !Model.SameFile(files[j], id, name)
    requires i < |files| ==> Model.SameFile(files[i], id, name)
    ensures Model.FindFile(files, id, name) == i
  {
    if i > 0 {
      FindFileIs(files[1..], id, name, i - 1);
    }
  }
}
