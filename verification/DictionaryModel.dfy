/** The string dictionary of dictionary.c on values: a sequence of slots, some of
    them holes, that stands for a finite map from keys to optional values. */
module DictionaryModel {
  import opened CStrings

  datatype Slot = Hole | Used(key: string, val: Option<string>)

  type Slots = seq<Slot>

  predicate HasKey(slot: Slot, key: string) {
    slot.Used? && slot.key == key
  }

  /** `n` */
  function Count(s: Slots): (n: nat)
    ensures n <= |s|
  {
    if s == [] then 0 else Count(s[..|s| - 1]) + if s[|s| - 1].Used? then 1 else 0
  }

  ghost predicate DistinctKeys(s: Slots) {
    forall i, j | 0 <= i < j < |s| && s[i].Used? && s[j].Used? :: s[i].key != s[j].key
  }

  /** The first slot with the key, or the size. */
  function Find(s: Slots, key: string): (i: nat)
    ensures i <= |s|
    ensures i < |s| ==> HasKey(s[i], key)
    ensures forall j | 0 <= j < i :: !HasKey(s[j], key)
  {
    FindFrom(s, key, 0)
  }

  function FindFrom(s: Slots, key: string, from: nat): (i: nat)
    requires from <= |s|
    ensures from <= i <= |s|
    ensures i < |s| ==> HasKey(s[i], key)
    ensures forall j | from <= j < i :: !HasKey(s[j], key)
    decreases |s| - from
  {
    if from == |s| || HasKey(s[from], key) then from else FindFrom(s, key, from + 1)
  }

  /** The first hole at or after `from`, or the size. */
  function HoleFrom(s: Slots, from: nat): (i: nat)
    requires from <= |s|
    ensures from <= i <= |s|
    ensures i < |s| ==> s[i].Hole?
    ensures forall j | from <= j < i :: s[j].Used?
    decreases |s| - from
  {
    if from == |s| || s[from].Hole? then from else HoleFrom(s, from + 1)
  }

  /** Pigeonhole: fewer entries than slots leave a hole. */
  lemma {:induction false} HoleExists(s: Slots)
    ensures Count(s) < |s| <==> HoleFrom(s, 0) < |s|
  {
    if s != [] {
      var init := s[..|s| - 1];
      HoleExists(init);
      if HoleFrom(init, 0) < |init| {
        assert s[HoleFrom(init, 0)].Hole?;
      }
      if HoleFrom(s, 0) < |init| {
        assert init[HoleFrom(s, 0)].Hole?;
      }
    }
  }

  /** Where the wrap-around probe from `start` stops. */
  function Probe(s: Slots, start: nat): (i: nat)
    requires start < |s| && Count(s) < |s|
    ensures i < |s| && s[i].Hole?
  {
    HoleExists(s);
    if HoleFrom(s, start) < |s| then HoleFrom(s, start) else HoleFrom(s, 0)
  }

  /** It is the first free slot, cyclically, from `start` on. */
  lemma ProbeIsFirst(s: Slots, start: nat)
    requires start < |s| && Count(s) < |s|
    ensures var i := Probe(s, start);
            if start <= i then forall j | start <= j < i :: s[j].Used?
            else (forall j | start <= j < |s| :: s[j].Used?) && forall j | 0 <= j < i :: s[j].Used?
  {
  }

  function Holes(n: nat): (s: Slots)
    ensures |s| == n && forall i | 0 <= i < n :: s[i] == Hole
  {
    seq(n, i => Hole)
  }

  /** `mem_double`, on all three arrays. */
  function Grown(s: Slots): Slots {
    if Count(s) == |s| then s + Holes(|s|) else s
  }

  lemma {:induction false} CountHoles(s: Slots, n: nat)
    ensures Count(s + Holes(n)) == Count(s)
  {
    if n == 0 {
      assert s + Holes(0) == s;
    } else {
      assert (s + Holes(n))[..|s| + n - 1] == s + Holes(n - 1);
      CountHoles(s, n - 1);
    }
  }

  lemma NothingIn(n: nat)
    ensures Count(Holes(n)) == 0
  {
    CountHoles([], n);
    assert [] + Holes(n) == Holes(n);
  }

  lemma {:induction false} CountUpdate(s: Slots, i: nat, slot: Slot)
    requires i < |s|
    ensures Count(s[i := slot]) == Count(s) + (if slot.Used? then 1 else 0) - (if s[i].Used? then 1 else 0)
  {
    var last := |s| - 1;
    if i < last {
      assert s[i := slot][..last] == s[..last][i := slot];
      CountUpdate(s[..last], i, slot);
    } else {
      assert s[i := slot][..last] == s[..last];
    }
  }

  /** `dictionary_set` of a key that is not NULL. */
  function Set(s: Slots, key: string, val: Option<string>): (r: Slots)
    requires |s| > 0
    ensures |r| >= |s|
  {
    var i := Find(s, key);
    if i < |s| then s[i := Used(key, val)]
    else
      CountHoles(s, |s|);
      var g := Grown(s);
      g[Probe(g, Count(s)) := Used(key, val)]
  }

  /** `dictionary_unset` of a key that is not NULL. */
  function Unset(s: Slots, key: string): (r: Slots)
    ensures |r| == |s|
  {
    var i := Find(s, key);
    if i < |s| then s[i := Hole] else s
  }

  /** `dictionary_get` */
  function Get(s: Slots, key: string, def: Option<string>): Option<string> {
    var i := Find(s, key);
    if i < |s| then s[i].val else def
  }

  // ---- The finite map ------------------------------------------------------

  function ToMap(s: Slots): (m: map<string, Option<string>>)
    ensures forall k :: k in m <==> exists i :: 0 <= i < |s| && HasKey(s[i], k)
  {
    if s == [] then map[]
    else
      var m, last := ToMap(s[..|s| - 1]), s[|s| - 1];
      if last.Used? then m[last.key := last.val] else m
  }

  /** With distinct keys, the map holds exactly what the slots hold. */
  lemma {:induction false} ToMapAt(s: Slots, i: nat)
    requires DistinctKeys(s) && i < |s| && s[i].Used?
    ensures s[i].key in ToMap(s) && ToMap(s)[s[i].key] == s[i].val
  {
    if i < |s| - 1 {
      ToMapAt(s[..|s| - 1], i);
    }
  }

  lemma MapIs(s: Slots, m: map<string, Option<string>>)
    requires DistinctKeys(s)
    requires forall k | k in m :: exists i :: 0 <= i < |s| && HasKey(s[i], k)
    requires forall i | 0 <= i < |s| && s[i].Used? :: s[i].key in m && m[s[i].key] == s[i].val
    ensures ToMap(s) == m
  {
    hide ToMap, DistinctKeys;
    forall k | k in m
      ensures k in ToMap(s) && ToMap(s)[k] == m[k]
    {
      var i :| 0 <= i < |s| && HasKey(s[i], k);
      ToMapAt(s, i);
    }
    forall k | k in ToMap(s)
      ensures k in m
    {
      var i :| 0 <= i < |s| && HasKey(s[i], k);
    }
  }

  lemma GetRefines(s: Slots, key: string, def: Option<string>)
    requires DistinctKeys(s)
    ensures Get(s, key, def) == if key in ToMap(s) then ToMap(s)[key] else def
  {
    var i := Find(s, key);
    if i < |s| {
      ToMapAt(s, i);
    }
  }

  /** `r` is `s`, perhaps with more holes, where slot `i` now holds the key. */
  ghost predicate PutAt(s: Slots, r: Slots, i: nat, key: string, val: Option<string>) {
    && i < |r| && |s| <= |r| && r[i] == Used(key, val)
    && (forall j | 0 <= j < |s| && j != i :: r[j] == s[j] && !HasKey(s[j], key))
    && (forall j | |s| <= j < |r| && j != i :: r[j].Hole?)
    && (i < |s| && s[i].Used? ==> s[i].key == key)
  }

  lemma SetPuts(s: Slots, key: string, val: Option<string>) returns (i: nat)
    requires |s| > 0 && DistinctKeys(s)
    ensures PutAt(s, Set(s, key, val), i, key, val)
  {
    CountHoles(s, |s|);
    i := if Find(s, key) < |s| then Find(s, key) else Probe(Grown(s), Count(s));
  }

  lemma PutRefines(s: Slots, r: Slots, i: nat, key: string, val: Option<string>)
    requires DistinctKeys(s) && PutAt(s, r, i, key, val)
    ensures DistinctKeys(r) && ToMap(r) == ToMap(s)[key := val]
  {
    var m := ToMap(s)[key := val];
    forall j | 0 <= j < |r| && r[j].Used?
      ensures r[j].key in m && m[r[j].key] == r[j].val
    {
      if j != i {
        ToMapAt(s, j);
      }
    }
    forall k | k in m
      ensures exists j :: 0 <= j < |r| && HasKey(r[j], k)
    {
      if k == key {
        assert HasKey(r[i], k);
      } else {
        var j :| 0 <= j < |s| && HasKey(s[j], k);
        assert HasKey(r[j], k);
      }
    }
    MapIs(r, m);
  }

  lemma SetRefines(s: Slots, key: string, val: Option<string>)
    requires |s| > 0 && DistinctKeys(s)
    ensures DistinctKeys(Set(s, key, val))
    ensures ToMap(Set(s, key, val)) == ToMap(s)[key := val]
  {
    var i := SetPuts(s, key, val);
    PutRefines(s, Set(s, key, val), i, key, val);
  }

  /** What the two exits of `dictionary_set` rely on. */
  lemma SetCases(s: Slots, key: string, val: Option<string>)
    requires |s| > 0 && DistinctKeys(s)
    ensures DistinctKeys(Set(s, key, val))
    ensures Find(s, key) < |s| ==>
              && HasKey(s[Find(s, key)], key)
              && Set(s, key, val) == s[Find(s, key) := Used(key, val)]
              && Count(Set(s, key, val)) == Count(s)
    ensures Find(s, key) == |s| ==>
              var g := if Count(s) == |s| then s + Holes(|s|) else s;
              && Count(g) == Count(s) < |g|
              && Set(s, key, val) == g[Probe(g, Count(g)) := Used(key, val)]
              && Count(Set(s, key, val)) == Count(s) + 1
  {
    SetRefines(s, key, val);
    CountHoles(s, |s|);
    if Find(s, key) < |s| {
      CountUpdate(s, Find(s, key), Used(key, val));
    } else {
      var g := Grown(s);
      CountUpdate(g, Probe(g, Count(g)), Used(key, val));
    }
  }

  lemma UnsetCases(s: Slots, key: string)
    requires DistinctKeys(s)
    ensures DistinctKeys(Unset(s, key))
    ensures Find(s, key) == |s| ==> Unset(s, key) == s
    ensures Find(s, key) < |s| ==>
              && Unset(s, key) == s[Find(s, key) := Hole]
              && Count(s) > 0 && Count(Unset(s, key)) == Count(s) - 1
  {
    UnsetRefines(s, key);
    if Find(s, key) < |s| {
      CountUpdate(s, Find(s, key), Hole);
    }
  }

  lemma UnsetRefines(s: Slots, key: string)
    requires DistinctKeys(s)
    ensures DistinctKeys(Unset(s, key))
    ensures ToMap(Unset(s, key)) == ToMap(s) - {key}
  {
    var r, m := Unset(s, key), ToMap(s) - {key};
    forall j | 0 <= j < |r| && r[j].Used?
      ensures r[j].key in m && m[r[j].key] == r[j].val
    {
      ToMapAt(s, j);
    }
    forall k | k in m
      ensures exists j :: 0 <= j < |r| && HasKey(r[j], k)
    {
      var j :| 0 <= j < |s| && HasKey(s[j], k);
      assert HasKey(r[j], k);
    }
    MapIs(r, m);
  }

  /** Where a new key goes: into the first hole, cyclically, from the number of entries on,
      after doubling if there is none; every other slot stays as it is. */
  lemma NewKeyPlace(s: Slots, key: string, val: Option<string>) returns (i: nat)
    requires |s| > 0 && DistinctKeys(s) && forall j | 0 <= j < |s| :: !HasKey(s[j], key)
    ensures var r, n := Set(s, key, val), Count(s);
            && |r| == (if n == |s| then 2 * |s| else |s|)
            && i < |r| && r[i] == Used(key, val) && (i < |s| ==> s[i].Hole?)
            && (forall j | 0 <= j < |r| && j != i :: r[j] == if j < |s| then s[j] else Hole)
            && if n <= i then forall j | n <= j < i :: r[j].Used?
               else (forall j | n <= j < |r| :: r[j].Used?) && forall j | 0 <= j < i :: r[j].Used?
  {
    SetCases(s, key, val);
    var g := if Count(s) == |s| then s + Holes(|s|) else s;
    i := Probe(g, Count(s));
    ProbeIsFirst(g, Count(s));
  }

  // ---- Whole histories -----------------------------------------------------

  datatype Op = DoSet(key: Option<string>, val: Option<string>) | DoUnset(key: Option<string>)

  /** A NULL key changes nothing. */
  function Apply(s: Slots, op: Op): (r: Slots)
    requires |s| > 0
    ensures |r| >= |s|
  {
    match op
    case DoSet(None, _) => s
    case DoSet(Some(key), val) => Set(s, key, val)
    case DoUnset(None) => s
    case DoUnset(Some(key)) => Unset(s, key)
  }

  /** `dictionary_new`, then the operations in order. */
  function History(size: int, ops: seq<Op>): (s: Slots)
    ensures |s| > 0
  {
    if ops == [] then Holes(if size < 128 then 128 else size)
    else Apply(History(size, ops[..|ops| - 1]), ops[|ops| - 1])
  }

  function MapHistory(ops: seq<Op>): map<string, Option<string>> {
    if ops == [] then map[]
    else
      var m := MapHistory(ops[..|ops| - 1]);
      match ops[|ops| - 1]
      case DoSet(None, _) => m
      case DoSet(Some(key), val) => m[key := val]
      case DoUnset(None) => m
      case DoUnset(Some(key)) => m - {key}
  }

  /** Through holes, overwrites and doublings, every history is a history of a finite map:
      every lookup answers as the map does, and `n` is the number of its keys. */
  lemma {:induction false} HistoryRefines(size: int, ops: seq<Op>, key: string, def: Option<string>)
    ensures var s, m := History(size, ops), MapHistory(ops);
            && DistinctKeys(s) && ToMap(s) == m
            && Get(s, key, def) == (if key in m then m[key] else def)
            && Count(s) == |m|
  {
    var s := History(size, ops);
    if ops == [] {
      assert ToMap(s) == map[] by { MapIs(s, map[]); }
    } else {
      var init, op := ops[..|ops| - 1], ops[|ops| - 1];
      HistoryRefines(size, init, key, def);
      var t := History(size, init);
      match op
      case DoSet(Some(k), val) => SetRefines(t, k, val);
      case DoUnset(Some(k)) => UnsetRefines(t, k);
      case _ =>
    }
    GetRefines(s, key, def);
    CountIsSize(s);
  }

  lemma {:induction false} CountIsSize(s: Slots)
    requires DistinctKeys(s)
    ensures Count(s) == |ToMap(s)|
  {
    if s != [] {
      CountIsSize(s[..|s| - 1]);
    }
  }
}
