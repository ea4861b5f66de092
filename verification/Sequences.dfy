/** Sequence notions shared by the list and the engine. */
module Sequences {

  ghost predicate Distinct<T>(s: seq<T>) {
    forall i, j | 0 <= i < j < |s| :: s[i] != s[j]
  }

  ghost predicate Disjoint<T>(s: seq<T>, t: seq<T>) {
    forall i, j | 0 <= i < |s| && 0 <= j < |t| :: s[i] != t[j]
  }

  function Without<T>(s: seq<T>, k: nat): seq<T>
    requires k < |s|
  {
    s[..k] + s[k + 1..]
  }

  lemma WithoutIn<T>(s: seq<T>, k: nat)
    requires k < |s|
    ensures forall x | x in Without(s, k) :: x in s
  {
  }

  /** Taking one step in two sequences that agree from `i` and `j` on. */
  lemma DropFirst<T>(s: seq<T>, t: seq<T>, i: nat, j: nat)
    requires i < |s| && j < |t| && s[i..] == t[j..]
    ensures s[i] == t[j] && s[i + 1..] == t[j + 1..] && s[..i + 1] == s[..i] + [s[i]]
    ensures Without(s, i)[i..] == t[j + 1..] && Without(s, i)[..i] == s[..i]
  {
    assert s[i..][0] == t[j..][0];
    assert s[i + 1..] == s[i..][1..] && t[j + 1..] == t[j..][1..];
    assert Without(s, i)[i..] == s[i + 1..];
  }

  lemma RangeNext<T>(s: seq<T>, i: nat, j: nat)
    requires i <= j < |s|
    ensures s[i..j + 1] == s[i..j] + [s[j]]
  {
  }

  ghost predicate Within<T>(s: seq<T>, t: seq<T>) {
    forall i | 0 <= i < |s| :: s[i] in t
  }

  lemma WithinSelf<T>(s: seq<T>)
    ensures Within(s, s)
  {
  }

  lemma WithinWithout<T>(s: seq<T>, t: seq<T>, k: nat)
    requires Within(s, t) && k < |s|
    ensures Within(Without(s, k), t)
  {
  }

  lemma TakeNext<T>(s: seq<T>, m: nat, x: T, more: seq<T>)
    requires m <= |s| && s[m..] == [x] + more
    ensures m < |s| && s[m] == x && s[m + 1..] == more && s[..m + 1] == s[..m] + [x]
  {
    assert s[m..][0] == x && s[m..][1..] == more;
  }
}
