/** The reading side of watch_it.c: variable-length event records in a byte buffer,
    filtered by the watch they came from, and handed on until one is rejected. */
module WatchIt {
  import opened CStrings
  import opened Sequences
  import EventModel

  // ---- Records -------------------------------------------------------------

  type Byte = b: nat | b < 256

  type Word = w: nat | w < 0x1_0000_0000

  /** `struct inotify_event`; the name is padded with NULs by the kernel. */
  datatype Record = Record(wd: EventModel.Int32, mask: Word, cookie: Word, name: seq<Byte>)

  /** A record the kernel can deliver. */
  predicate WellFormed(r: Record) {
    |r.name| < 0x1_0000_0000 && (r.name == [] || 0 in r.name)
  }

  predicate AllWellFormed(rs: seq<Record>) {
    forall r | r in rs :: WellFormed(r)
  }

  const HEADER_SIZE: nat := 16

  function WordBytes(w: Word): (b: seq<Byte>)
    ensures |b| == 4
  {
    [w % 256, w / 256 % 256, w / 65536 % 256, w / 16777216]
  }

  function ToUnsigned(x: EventModel.Int32): Word {
    if x < 0 then x + 0x1_0000_0000 else x
  }

  function ToSigned(w: Word): EventModel.Int32 {
    if w >= 0x8000_0000 then w - 0x1_0000_0000 else w
  }

  /** How the kernel lays a record out. */
  function Encode(r: Record): seq<Byte>
    requires WellFormed(r)
  {
    WordBytes(ToUnsigned(r.wd)) + WordBytes(r.mask) + WordBytes(r.cookie) + WordBytes(|r.name|) + r.name
  }

  function EncodeAll(rs: seq<Record>): seq<Byte>
    requires AllWellFormed(rs)
  {
    if rs == [] then [] else Encode(rs[0]) + EncodeAll(rs[1..])
  }

  function WordAt(buf: seq<Byte>, i: nat): Word
    requires i + 4 <= |buf|
  {
    var b0: nat, b1: nat, b2: nat, b3: nat := buf[i], buf[i + 1], buf[i + 2], buf[i + 3];
    b0 + 256 * b1 + 65536 * b2 + 16777216 * b3
  }

  lemma WordReturns(w: Word, buf: seq<Byte>, i: nat)
    requires i + 4 <= |buf| && buf[i..i + 4] == WordBytes(w)
    ensures WordAt(buf, i) == w
  {
    var four := buf[i..i + 4];
    assert buf[i] == four[0] && buf[i + 1] == four[1] && buf[i + 2] == four[2] && buf[i + 3] == four[3];
    assert buf[i] == w % 256 && buf[i + 1] == w / 256 % 256 && buf[i + 2] == w / 65536 % 256;
    assert w / 256 == 256 * (w / 65536) + w / 256 % 256;
    assert w / 65536 == 256 * (w / 16777216) + w / 65536 % 256;
  }

  /** What the cast of `&buff[i]` reads off a laid-out record. */
  lemma HeaderReturns(r: Record, rest: seq<Byte>)
    requires WellFormed(r)
    ensures var buf := Encode(r) + rest;
            && |Encode(r)| == HEADER_SIZE + |r.name|
            && ToSigned(WordAt(buf, 0)) == r.wd && WordAt(buf, 4) == r.mask
            && WordAt(buf, 8) == r.cookie && WordAt(buf, 12) == |r.name|
            && buf[HEADER_SIZE..HEADER_SIZE + |r.name|] == r.name
            && buf[HEADER_SIZE + |r.name|..] == rest
  {
    var buf := Encode(r) + rest;
    hide WordBytes, WordAt;
    assert buf[0..0 + 4] == WordBytes(ToUnsigned(r.wd));
    assert buf[4..4 + 4] == WordBytes(r.mask);
    assert buf[8..8 + 4] == WordBytes(r.cookie);
    assert buf[12..12 + 4] == WordBytes(|r.name|);
    WordReturns(ToUnsigned(r.wd), buf, 0);
    WordReturns(r.mask, buf, 4);
    WordReturns(r.cookie, buf, 8);
    WordReturns(|r.name|, buf, 12);
  }

  /** The bytes of a record: four little-endian words of four bytes, and the name. */
  lemma LayoutIs()
    ensures Encode(Record(-2, 0x4000_0020, 7, [97, 0])) ==
            [254, 255, 255, 255, 32, 0, 0, 64, 7, 0, 0, 0, 2, 0, 0, 0, 97, 0]
  {
    assert WordBytes(ToUnsigned(-2)) == [254, 255, 255, 255];
    assert WordBytes(0x4000_0020) == [32, 0, 0, 64];
    assert WordBytes(7) == [7, 0, 0, 0] && WordBytes(2) == [2, 0, 0, 0];
  }

  // ---- Watches -------------------------------------------------------------

  const MAX_WATCH: nat := 1024
  const WATCH_CONTENT: nat := 1
  const WATCH_DIR: nat := 2
  const IN_ISDIR: nat := 0x4000_0000

  datatype Watch = Watch(wd: int, name: string, kind: nat, minReadClose: int)

  /** `find_in_map`: the first watch with the descriptor. */
  function FindWatch(watches: seq<Watch>, wd: int): (r: Option<Watch>)
    ensures r.None? <==> forall w | w in watches :: w.wd != wd
    ensures r.Some? ==> r.value in watches && r.value.wd == wd
  {
    if watches == [] then None
    else if watches[0].wd == wd then Some(watches[0])
    else FindWatch(watches[1..], wd)
  }

  /** The name table: `name_map` and `name_map_len`. */
  class NameMap {
    var watches: array<Watch>
    var len: nat

    ghost predicate Valid()
      reads this
    {
      watches.Length == MAX_WATCH && len <= MAX_WATCH
    }

    ghost function Contents(): seq<Watch>
      requires Valid()
      reads this, watches
    {
      watches[..len]
    }

    /** `init_name_map` */
    constructor ()
      ensures Valid() && fresh(watches) && Contents() == []
    {
      watches := new Watch[MAX_WATCH](_ => Watch(-1, "", 0, 0));
      len := 0;
    }

    /** `add_to_map`; false stands for -1. */
    method Add(name: string, wd: int, kind: nat, minReadClose: int) returns (ok: bool)
      requires Valid()
      modifies this`len, watches
      ensures Valid() && ok == (|old(Contents())| < 1024)
      ensures Contents() == old(Contents()) + if ok then [Watch(wd, name, kind, minReadClose)] else []
    {
      if len >= MAX_WATCH {
        return false;
      }
      watches[len] := Watch(wd, name, kind, minReadClose);
      len := len + 1;
      ok := true;
    }

    /** `find_in_map` */
    method Find(wd: int) returns (r: Option<Watch>)
      requires Valid()
      ensures r == FindWatch(Contents(), wd)
    {
      assert Contents() == Contents()[0..];
      for i := 0 to len
        invariant FindWatch(Contents(), wd) == FindWatch(Contents()[i..], wd)
      {
        assert Contents()[i..][1..] == Contents()[i + 1..];
        if watches[i].wd == wd {
          return Some(watches[i]);
        }
      }
      r := None;
    }
  }

  // ---- What is handed on ---------------------------------------------------

  /** A NUL-terminated name. */
  function CString(bytes: seq<Byte>): string {
    if bytes == [] || bytes[0] == 0 then "" else [bytes[0] as char] + CString(bytes[1..])
  }

  /** The name the event goes by, if the watch lets the record through: entries of a
      directory that are no directories themselves when contents are watched, and the
      directory itself when it is. */
  function WantedName(watches: seq<Watch>, r: Record): Option<string> {
    var watch := FindWatch(watches, r.wd);
    if watch.None? then None
    else if r.name != [] then
      if EventModel.HasBit(watch.value.kind, WATCH_CONTENT) && !EventModel.HasBit(r.mask, IN_ISDIR)
      then Some(CString(r.name)) else None
    else if EventModel.HasBit(watch.value.kind, WATCH_DIR) then Some(watch.value.name) else None
  }

  /** The events of the wanted records, in order; the n-th one bears the n-th tick read. */
  function Wanted(watches: seq<Watch>, rs: seq<Record>, ticks: nat -> nat, n: nat): seq<EventModel.Event>
    decreases |rs|
  {
    if rs == [] then []
    else
      var name := WantedName(watches, rs[0]);
      if name.None? then Wanted(watches, rs[1..], ticks, n)
      else
        [EventModel.Event(rs[0].wd, name.value, rs[0].mask, ticks(n))] + Wanted(watches, rs[1..], ticks, n + 1)
  }

  /** How many of the next events are offered: up to the first that is not accepted.
      The answer to the n-th call may depend on n, as the state it meets does. */
  function Offered(events: seq<EventModel.Event>, accepts: (nat, EventModel.Event) -> bool, n: nat): (k: nat)
    ensures k <= |events|
    ensures forall i | 0 <= i < k - 1 :: accepts(n + i, events[i])
    ensures k < |events| ==> k > 0 && !accepts(n + k - 1, events[k - 1])
    decreases |events|
  {
    if events == [] then 0
    else if !accepts(n, events[0]) then 1
    else 1 + Offered(events[1..], accepts, n + 1)
  }

  // ---- Which records are handed on, and under what name --------------------

  /** The name is the bytes before the first NUL. */
  ghost predicate UpToNul(bytes: seq<Byte>, name: string) {
    && |name| <= |bytes| && (|name| < |bytes| ==> bytes[|name|] == 0)
    && forall i | 0 <= i < |name| :: bytes[i] != 0 && name[i] as int == bytes[i]
  }

  /** The first watch with the record's descriptor wants it under this name: for its
      contents (bit 0) a named record that is no directory (bit 30), for itself (bit 1) a
      record without a name. */
  ghost predicate HandsOn(watches: seq<Watch>, r: Record, name: string) {
    exists k :: 0 <= k < |watches| && watches[k].wd == r.wd
                && (forall j | 0 <= j < k :: watches[j].wd != r.wd) && HandsOnBy(watches[k], r, name)
  }

  ghost predicate HandsOnBy(watch: Watch, r: Record, name: string) {
    if r.name != [] then watch.kind % 2 == 1 && r.mask / 0x4000_0000 % 2 == 0 && UpToNul(r.name, name)
    else watch.kind / 2 % 2 == 1 && name == watch.name
  }

  /** The events are those of exactly the records handed on; `at` says where each was. */
  ghost predicate Matches(watches: seq<Watch>, rs: seq<Record>, ticks: nat -> nat,
                          events: seq<EventModel.Event>, at: seq<nat>) {
    && |at| == |events|
    && (forall k, l | 0 <= k < l < |at| :: at[k] < at[l])
    && (forall k | 0 <= k < |at| :: at[k] < |rs| && MatchesOne(watches, rs[at[k]], events[k], ticks(k)))
    && (forall i: nat, name | i < |rs| && HandsOn(watches, rs[i], name) :: i in at)
  }

  ghost predicate MatchesOne(watches: seq<Watch>, r: Record, ev: EventModel.Event, tick: nat) {
    HandsOn(watches, r, ev.name) && ev.id == r.wd && ev.mask == r.mask && ev.timestamp == tick
  }

  lemma {:induction false} CStringIs(bytes: seq<Byte>, name: string)
    ensures CString(bytes) == name <==> UpToNul(bytes, name)
  {
    if bytes != [] && bytes[0] != 0 {
      if name != "" {
        CStringIs(bytes[1..], name[1..]);
        assert name == [name[0]] + name[1..];
        assert UpToNul(bytes[1..], name[1..]) && name[0] as int == bytes[0] ==> UpToNul(bytes, name);
      }
    }
  }

  lemma {:induction false} FindWatchIsFirst(watches: seq<Watch>, wd: int, k: nat)
    requires k < |watches| && watches[k].wd == wd && forall j | 0 <= j < k :: watches[j].wd != wd
    ensures FindWatch(watches, wd) == Some(watches[k])
  {
    if k > 0 {
      FindWatchIsFirst(watches[1..], wd, k - 1);
    }
  }

  lemma {:induction false} FirstWatch(watches: seq<Watch>, wd: int) returns (k: nat)
    requires FindWatch(watches, wd).Some?
    ensures k < |watches| && watches[k].wd == wd && forall j | 0 <= j < k :: watches[j].wd != wd
  {
    if watches[0].wd == wd {
      k := 0;
    } else {
      k := FirstWatch(watches[1..], wd);
      k := k + 1;
    }
  }

  /** The name a record is handed on under, when it is. */
  lemma WantedNameIs(watches: seq<Watch>, r: Record, name: string)
    ensures WantedName(watches, r) == Some(name) <==> HandsOn(watches, r, name)
  {
    CStringIs(r.name, name);
    hide CString, UpToNul;
    if FindWatch(watches, r.wd).Some? {
      var k := FirstWatch(watches, r.wd);
      FindWatchIsFirst(watches, r.wd, k);
    }
    forall k: nat | k < |watches| && watches[k].wd == r.wd && forall j | 0 <= j < k :: watches[j].wd != r.wd
      ensures FindWatch(watches, r.wd) == Some(watches[k])
    {
      FindWatchIsFirst(watches, r.wd, k);
    }
  }

  /** What one record adds, as the n-th event. */
  function OwnEvent(watches: seq<Watch>, r: Record, ticks: nat -> nat, n: nat): seq<EventModel.Event> {
    var name := WantedName(watches, r);
    if name.None? then [] else [EventModel.Event(r.wd, name.value, r.mask, ticks(n))]
  }

  lemma WantedCons(watches: seq<Watch>, rs: seq<Record>, ticks: nat -> nat, n: nat)
    requires rs != []
    ensures var own := OwnEvent(watches, rs[0], ticks, n);
            Wanted(watches, rs, ticks, n) == own + Wanted(watches, rs[1..], ticks, n + |own|)
  {
    hide WantedName;
  }

  lemma WantedNone(watches: seq<Watch>, ticks: nat -> nat, n: nat)
    ensures Wanted(watches, [], ticks, n) == []
    ensures Matches(watches, [], ticks, [], [])
  {
  }

  lemma {:induction false} WantedSnoc(watches: seq<Watch>, rs: seq<Record>, r: Record, ticks: nat -> nat, n: nat)
    ensures var all := Wanted(watches, rs, ticks, n);
            Wanted(watches, rs + [r], ticks, n) == all + OwnEvent(watches, r, ticks, n + |all|)
    decreases |rs|
  {
    hide *;
    WantedCons(watches, rs + [r], ticks, n);
    if rs == [] {
      WantedNone(watches, ticks, n);
      WantedNone(watches, ticks, n + |OwnEvent(watches, r, ticks, n)|);
      assert ([r])[1..] == [] && [] + [r] == [r];
      assert OwnEvent(watches, r, ticks, n) + [] == [] + OwnEvent(watches, r, ticks, n);
    } else {
      var own := OwnEvent(watches, rs[0], ticks, n);
      var rest := Wanted(watches, rs[1..], ticks, n + |own|);
      WantedCons(watches, rs, ticks, n);
      WantedSnoc(watches, rs[1..], r, ticks, n + |own|);
      assert (rs + [r])[0] == rs[0] && (rs + [r])[1..] == rs[1..] + [r];
      var last := OwnEvent(watches, r, ticks, n + |own| + |rest|);
      assert own + (rest + last) == (own + rest) + last;
      assert n + |own + rest| == n + |own| + |rest|;
    }
  }

  /** The wanted events are those of exactly the records a watch hands on, in order. */
  lemma {:induction false} WantedMatches(watches: seq<Watch>, rs: seq<Record>, ticks: nat -> nat) returns (at: seq<nat>)
    ensures Matches(watches, rs, ticks, Wanted(watches, rs, ticks, 0), at)
  {
    hide *;
    at := [];
    WantedNone(watches, ticks, 0);
    if rs != [] {
      var init, r := rs[..|rs| - 1], rs[|rs| - 1];
      at := WantedMatches(watches, init, ticks);
      at := MatchesNext(watches, init, r, ticks, Wanted(watches, init, ticks, 0), at);
      WantedSnoc(watches, init, r, ticks, 0);
      assert rs == init + [r];
    }
  }

  lemma MatchesNext(watches: seq<Watch>, rs: seq<Record>, r: Record, ticks: nat -> nat,
                    events: seq<EventModel.Event>, at: seq<nat>) returns (at': seq<nat>)
    requires Matches(watches, rs, ticks, events, at)
    ensures Matches(watches, rs + [r], ticks, events + OwnEvent(watches, r, ticks, |events|), at')
  {
    var name := WantedName(watches, r);
    if name.Some? {
      WantedNameIs(watches, r, name.value);
      hide WantedName, HandsOn;
      at' := MatchesSnoc(watches, rs, r, ticks, events, at, name.value);
    } else {
      forall other: string
        ensures !HandsOn(watches, r, other)
      {
        WantedNameIs(watches, r, other);
      }
      hide WantedName, HandsOn;
      at' := at;
      assert events + [] == events;
    }
  }

  lemma MatchesSnoc(watches: seq<Watch>, rs: seq<Record>, r: Record, ticks: nat -> nat,
                    events: seq<EventModel.Event>, at: seq<nat>, name: string) returns (at': seq<nat>)
    requires Matches(watches, rs, ticks, events, at) && HandsOn(watches, r, name)
    ensures Matches(watches, rs + [r], ticks, events + [EventModel.Event(r.wd, name, r.mask, ticks(|events|))], at')
  {
    hide HandsOn;
    at' := at + [|rs|];
    assert forall k | 0 <= k < |at| :: at'[k] == at[k];
    assert |rs| in at' && forall i | i in at :: i in at';
  }

  /** Where the records start. */
  function Starts(rs: seq<Record>, from: nat): seq<nat> {
    if rs == [] then [] else [from] + Starts(rs[1..], from + HEADER_SIZE + |rs[0].name|)
  }

  /** The tests `get_event` makes between reading a record and handing it on. */
  method Filter(names: NameMap, wd: int, mask: Word, name: seq<Byte>, ghost r: Record) returns (wanted: Option<string>)
    requires names.Valid()
    requires wd == r.wd && mask == r.mask && name == r.name
    ensures wanted == WantedName(names.Contents(), r)
  {
    var watch := names.Find(wd);
    if watch.None? {
      return None;
    }
    if |name| > 0 && !EventModel.HasBit(watch.value.kind, WATCH_CONTENT) {
      return None;
    }
    if |name| > 0 {
      if EventModel.HasBit(mask, IN_ISDIR) {
        return None;
      }
      return Some(CString(name));
    } else {
      if !EventModel.HasBit(watch.value.kind, WATCH_DIR) {
        return None;
      }
      return Some(watch.value.name);
    }
  }

  /** The record under the cursor, and where the next one starts. */
  method ReadRecord(buff: array<Byte>, i: nat, len: nat, ghost left: seq<Record>)
    returns (wd: int, mask: Word, name: seq<Byte>, next: nat)
    requires i < len <= buff.Length && AllWellFormed(left) && buff[i..len] == EncodeAll(left)
    ensures left != [] && wd == left[0].wd && mask == left[0].mask && name == left[0].name
    ensures next == i + HEADER_SIZE + |left[0].name| <= len
    ensures AllWellFormed(left[1..]) && buff[next..len] == EncodeAll(left[1..])
  {
    ghost var r := left[0];
    assert r in left;
    HeaderReturns(r, EncodeAll(left[1..]));
    var buf := buff[i..len];
    wd := ToSigned(WordAt(buf, 0));
    mask := WordAt(buf, 4);
    var size := WordAt(buf, 12);
    name := buf[HEADER_SIZE..HEADER_SIZE + size];
    next := i + HEADER_SIZE + size;
    assert buff[next..len] == buf[HEADER_SIZE + size..];
  }

  lemma {:induction false} OfferedAll(done: seq<EventModel.Event>, rest: seq<EventModel.Event>,
                                      accepts: (nat, EventModel.Event) -> bool, n: nat)
    requires forall k | 0 <= k < |done| :: accepts(n + k, done[k])
    ensures Offered(done + rest, accepts, n) == |done| + Offered(rest, accepts, n + |done|)
    decreases |done|
  {
    if done == [] {
      assert done + rest == rest;
    } else {
      assert accepts(n + 0, done[0]) && (done + rest)[1..] == done[1..] + rest;
      forall k | 0 <= k < |done| - 1
        ensures accepts(n + 1 + k, done[1..][k])
      {
        assert accepts(n + (k + 1), done[k + 1]);
      }
      OfferedAll(done[1..], rest, accepts, n + 1);
    }
  }

  /** One turn of the loop up to the call of `event_handling_add_event`. */
  method Turn(names: NameMap, buff: array<Byte>, i: nat, len: nat, ghost left: seq<Record>, n: nat, ticks: nat -> nat)
    returns (event: Option<EventModel.Event>, next: nat)
    requires names.Valid() && i < len <= buff.Length
    requires AllWellFormed(left) && buff[i..len] == EncodeAll(left)
    ensures left != [] && i < next <= len && AllWellFormed(left[1..]) && buff[next..len] == EncodeAll(left[1..])
    ensures Starts(left, i) == [i] + Starts(left[1..], next)
    ensures var all := Wanted(names.Contents(), left, ticks, n);
            if event.None? then all == Wanted(names.Contents(), left[1..], ticks, n)
            else all == [event.value] + Wanted(names.Contents(), left[1..], ticks, n + 1)
  {
    hide Wanted, WantedName, Starts, EncodeAll, NameMap.Contents, AllWellFormed;
    var wd: int, mask: Word, name: seq<Byte>;
    wd, mask, name, next := ReadRecord(buff, i, len, left);
    var wanted := Filter(names, wd, mask, name, left[0]);
    OneRecord(names.Contents(), left, ticks, n, i);
    event := if wanted.None? then None else Some(EventModel.Event(wd, wanted.value, mask, ticks(n)));
  }

  /** What has been offered and visited, and what is left. */
  ghost predicate Progress(all: seq<EventModel.Event>, places: seq<nat>, watches: seq<Watch>, ticks: nat -> nat,
                           left: seq<Record>, i: nat, offered: seq<EventModel.Event>, starts: seq<nat>) {
    && |offered| <= |all| && offered == all[..|offered|]
    && all[|offered|..] == Wanted(watches, left, ticks, |offered|)
    && |starts| <= |places| && starts == places[..|starts|]
    && places[|starts|..] == Starts(left, i)
  }

  lemma Advance(all: seq<EventModel.Event>, places: seq<nat>, watches: seq<Watch>, ticks: nat -> nat,
                left: seq<Record>, i: nat, offered: seq<EventModel.Event>, starts: seq<nat>,
                event: Option<EventModel.Event>, next: nat)
    requires Progress(all, places, watches, ticks, left, i, offered, starts) && left != []
    requires Starts(left, i) == [i] + Starts(left[1..], next)
    requires var wanted := Wanted(watches, left, ticks, |offered|);
             if event.None? then wanted == Wanted(watches, left[1..], ticks, |offered|)
             else wanted == [event.value] + Wanted(watches, left[1..], ticks, |offered| + 1)
    ensures var offered' := if event.None? then offered else offered + [event.value];
            Progress(all, places, watches, ticks, left[1..], next, offered', starts + [i])
  {
    hide Wanted, Starts;
    TakeNext(places, |starts|, i, Starts(left[1..], next));
    if event.Some? {
      TakeNext(all, |offered|, event.value, Wanted(watches, left[1..], ticks, |offered| + 1));
    }
  }

  lemma Finished(all: seq<EventModel.Event>, places: seq<nat>, watches: seq<Watch>, ticks: nat -> nat,
                 left: seq<Record>, i: nat, offered: seq<EventModel.Event>, starts: seq<nat>,
                 accepts: (nat, EventModel.Event) -> bool)
    requires Progress(all, places, watches, ticks, left, i, offered, starts)
    requires forall j | 0 <= j < |offered| - 1 :: accepts(j, offered[j])
    requires left == [] || (offered != [] && !accepts(|offered| - 1, offered[|offered| - 1]))
    ensures offered == all[..Offered(all, accepts, 0)] && starts <= places
    ensures offered == [] || accepts(|offered| - 1, offered[|offered| - 1]) ==> starts == places
  {
    if offered != [] && !accepts(|offered| - 1, offered[|offered| - 1]) {
      Rejected(all, |offered|, accepts);
    } else {
      assert places[|starts|..] == [] && all[|offered|..] == [];
      AllOffered(all, accepts);
    }
  }

  /** `get_event` on a buffer that holds the records `rs`: `offered` is the events handed
      to `event_handling_add_event`, `starts` the offsets the loop stopped at, `end` where
      it left off.  It returns at the first event that is not accepted; a failed `read`
      gives a negative length. */
  method GetEvent(names: NameMap, buff: array<Byte>, len: int, ghost rs: seq<Record>,
                  ticks: nat -> nat, accepts: (nat, EventModel.Event) -> bool)
    returns (offered: seq<EventModel.Event>, ghost starts: seq<nat>, end: int)
    requires names.Valid() && len <= buff.Length
    requires AllWellFormed(rs)
    requires if len < 0 then rs == [] else buff[..len] == EncodeAll(rs)
    ensures var all := Wanted(names.Contents(), rs, ticks, 0);
            offered == all[..Offered(all, accepts, 0)]
    ensures (forall k, event :: accepts(k, event)) ==> exists at :: Matches(names.Contents(), rs, ticks, offered, at)
    ensures starts <= Starts(rs, 0)
    ensures offered == [] || accepts(|offered| - 1, offered[|offered| - 1]) ==>
              starts == Starts(rs, 0) && (len >= 0 ==> end == len)
  {
    hide *;
    offered, starts, end := [], [], 0;
    var i: nat := 0;
    ghost var left, watches := rs, names.Contents();
    ghost var all, places := Wanted(watches, rs, ticks, 0), Starts(rs, 0);
    NoneLeft(left);
    assert Progress(all, places, watches, ticks, left, 0, [], []) by { Begin(all, places, watches, ticks, left); }
    assert len >= 0 ==> buff[i..len] == EncodeAll(left);
    while i < len
      invariant AllWellFormed(left)
      invariant (len >= 0 ==> i <= len && buff[i..len] == EncodeAll(left)) && (len < 0 ==> left == [])
      invariant Progress(all, places, watches, ticks, left, i, offered, starts)
      invariant forall j | 0 <= j < |offered| :: accepts(j, offered[j])
      decreases len - i
    {
      var event, next := Turn(names, buff, i, len, left, |offered|, ticks);
      Advance(all, places, watches, ticks, left, i, offered, starts, event, next);
      starts := starts + [i];
      i, left := next, left[1..];
      if event.Some? {
        offered := offered + [event.value];
        if !accepts(|offered| - 1, event.value) {
          break;
        }
      }
    }
    ghost var at := WantedMatches(watches, rs, ticks);
    NoneLeft(left);
    Finished(all, places, watches, ticks, left, i, offered, starts, accepts);
    if forall k, event :: accepts(k, event) {
      AllOffered(all, accepts);
      assert offered == all;
    }
    end := i;
  }

  lemma Begin(all: seq<EventModel.Event>, places: seq<nat>, watches: seq<Watch>, ticks: nat -> nat, left: seq<Record>)
    requires all == Wanted(watches, left, ticks, 0) && places == Starts(left, 0)
    ensures Progress(all, places, watches, ticks, left, 0, [], [])
  {
    hide Wanted, Starts;
  }

  lemma AllOffered(events: seq<EventModel.Event>, accepts: (nat, EventModel.Event) -> bool)
    requires forall k | 0 <= k < |events| :: accepts(k, events[k])
    ensures Offered(events, accepts, 0) == |events|
  {
    assert forall k | 0 <= k < |events| :: accepts(0 + k, events[k]);
    OfferedAll(events, [], accepts, 0);
    assert events + [] == events;
  }

  lemma OneRecord(watches: seq<Watch>, left: seq<Record>, ticks: nat -> nat, n: nat, i: nat)
    requires left != []
    ensures var name := WantedName(watches, left[0]);
            Wanted(watches, left, ticks, n) ==
            if name.None? then Wanted(watches, left[1..], ticks, n)
            else [EventModel.Event(left[0].wd, name.value, left[0].mask, ticks(n))] + Wanted(watches, left[1..], ticks, n + 1)
    ensures Starts(left, i) == [i] + Starts(left[1..], i + HEADER_SIZE + |left[0].name|)
  {
    hide WantedName;
  }

  lemma Rejected(all: seq<EventModel.Event>, n: nat, accepts: (nat, EventModel.Event) -> bool)
    requires 0 < n <= |all| && !accepts(n - 1, all[n - 1])
    requires forall k | 0 <= k < n - 1 :: accepts(k, all[k])
    ensures Offered(all, accepts, 0) == n
  {
    var init, rest := all[..n - 1], all[n - 1..];
    assert all == init + rest && rest[0] == all[n - 1];
    assert forall k | 0 <= k < n - 1 :: accepts(0 + k, init[k]);
    OfferedAll(init, rest, accepts, 0);
  }

  lemma NoneLeft(left: seq<Record>)
    requires AllWellFormed(left)
    ensures EncodeAll(left) == [] ==> left == []
  {
  }
}
