/** Whole runs of the producer and the consumer, and what every run keeps.

    Both threads work under one mutex, so a run is a sequence of the steps they
    take between two moments at which the mutex is free.  The producer's tick
    read, made outside the mutex, is a step of its own. */
module EventRuns {
  import opened CStrings
  import opened EventModel

  /** Where the consumer is while the mutex is free: about to lock it, or inside
      `pthread_cond_timedwait`. */
  datatype Phase = Running | Waiting

  /** An open event that took effect: it found its file untracked or closed. */
  datatype Opened = Opened(id: int, name: string, timestamp: nat)

  /** `pending` is the timestamp the producer has read for its next event.  The
      last three fields are history: the events added since the last consumer
      pass, whether one of them signalled the waiting consumer, and every open
      event so far that took effect. */
  datatype System = System(
    eng: Engine, curWait: nat, phase: Phase, pending: Option<nat>,
    adds: nat, woken: bool, opens: seq<Opened>)

  datatype Step =
    | ReadTick                                // watch_it.c, outside the mutex
    | Add(id: int, name: string, mask: nat)   // event_handling_add_event
    | Lock                                    // the consumer locks: a pass, or a wait
    | Wake                                    // the wait ends, for any reason: a pass

  function Init(): System {
    System(Engine([], Ticker(0, 0), false, []), 6000, Running, None, 0, false, [])
  }

  function RunPass(cfg: Config, clock: Clock, s: System, curWait: nat): System {
    var (eng, wait) := ConsumerPass(cfg, clock, s.eng, curWait);
    s.(eng := eng, curWait := wait, phase := Running, adds := 0, woken := false)
  }

  /** A step that a thread cannot take in this state changes nothing. */
  function Next(cfg: Config, clock: Clock, s: System, step: Step): System {
    match step
    case ReadTick =>
      if s.pending.Some? then s
      else
        var (tick, t) := GetTick(clock, s.eng.ticker);
        s.(eng := s.eng.(ticker := t), pending := Some(tick))
    case Add(id, name, mask) =>
      if s.pending.None? then s
      else
        s.(eng := AddEvent(cfg, clock, s.eng, Event(id, name, mask, s.pending.value)),
           pending := None,
           adds := s.adds + 1,
           woken := s.woken || s.phase.Waiting?,
           opens := s.opens + if TakesEffect(s.eng.files, id, name, mask)
                             then [Opened(id, name, s.pending.value)] else [])
    case Lock =>
      if s.phase.Waiting? then s
      else if s.eng.signaled then RunPass(cfg, clock, s, s.curWait)
      else s.(phase := Waiting, woken := false)
    case Wake =>
      if s.phase.Running? then s else RunPass(cfg, clock, s, Threshold(cfg.delay))
  }

  /** A close bit decides even when an open bit is set as well. */
  predicate OpensFile(mask: nat) {
    IsOpenEvent(mask) && !IsCloseEvent(mask)
  }

  /** An open event changes nothing for a file that is open already. */
  predicate TakesEffect(files: seq<File>, id: int, name: string, mask: nat) {
    var i := FindFile(files, id, name);
    OpensFile(mask) && (i < |files| ==> files[i].isClosed)
  }

  function Exec(cfg: Config, clock: Clock, s: System, steps: seq<Step>): System {
    if steps == [] then s
    else Next(cfg, clock, Exec(cfg, clock, s, steps[..|steps| - 1]), steps[|steps| - 1])
  }

  function Run(cfg: Config, clock: Clock, steps: seq<Step>): System {
    Exec(cfg, clock, Init(), steps)
  }

  // ---- The trace of one file -----------------------------------------------

  function Project(fired: seq<Command>, id: int, name: string): seq<Kind> {
    if fired == [] then []
    else
      var c := fired[|fired| - 1];
      Project(fired[..|fired| - 1], id, name) + if c.id == id && c.name == name then [c.kind] else []
  }

  /** Open, close, open, close, ... */
  ghost predicate Alternates(kinds: seq<Kind>) {
    forall i | 0 <= i < |kinds| :: kinds[i] == if i % 2 == 0 then OpenCommand else CloseCommand
  }

  lemma ProjectSnoc(fired: seq<Command>, c: Command, id: int, name: string)
    ensures Project(fired + [c], id, name) ==
            Project(fired, id, name) + if c.id == id && c.name == name then [c.kind] else []
  {
    assert (fired + [c])[..|fired|] == fired;
  }

  // ---- The joint invariant -------------------------------------------------

  ghost predicate DistinctFiles(files: seq<File>) {
    forall i, j | 0 <= i < j < |files| :: !SameFile(files[i], files[j].id, files[j].name)
  }

  ghost predicate FileInv(cfg: Config, last: nat, f: File) {
    && !f.remove && !f.firedClosed
    && (f.isClosed <==> f.closeTs != SENTINEL)
    && (f.isClosed ==> last > f.openTs + Threshold(cfg.delay))
    && (f.isClosed ==> f.closeTs == 0 || f.closeTs > f.openTs + Threshold(cfg.delay))
    && (f.firedOpen ==> CanFire(cfg))
  }

  ghost predicate FilesInv(cfg: Config, e: Engine) {
    && DistinctFiles(e.files)
    && (forall f | f in e.files :: FileInv(cfg, e.ticker.last, f))
    && TickLike(e.ticker.last)
  }

  /** The timestamp of the last open event of the file that took effect. */
  function LatestOpen(opens: seq<Opened>, id: int, name: string): (r: Option<nat>)
    ensures r.Some? ==> Opened(id, name, r.value) in opens
  {
    if opens == [] then None
    else
      var o := opens[|opens| - 1];
      if o.id == id && o.name == name then Some(o.timestamp) else LatestOpen(opens[..|opens| - 1], id, name)
  }

  lemma LatestOpenSnoc(opens: seq<Opened>, o: Opened, id: int, name: string)
    ensures LatestOpen(opens + [o], id, name) ==
            if o.id == id && o.name == name then Some(o.timestamp) else LatestOpen(opens, id, name)
  {
    assert (opens + [o])[..|opens|] == opens;
  }

  /** Every open command answers an open event of the same file, more than the delay later. */
  ghost predicate Justified(cfg: Config, c: Command, opens: seq<Opened>) {
    && (c.kind.OpenCommand? ==>
          && Opened(c.id, c.name, c.openTs) in opens
          && c.tick > c.openTs + Threshold(cfg.delay)
          && c.text == CommandText(cfg.openCmd, c.name))
    && (c.kind.CloseCommand? ==> c.text == CommandText(cfg.closeCmd, c.name))
  }

  ghost predicate OpenedInv(cfg: Config, e: Engine, opens: seq<Opened>) {
    && (forall f | f in e.files :: LatestOpen(opens, f.id, f.name) == Some(f.openTs))
    && (forall c | c in e.fired :: Justified(cfg, c, opens))
  }

  ghost predicate WakeInv(s: System) {
    && (s.eng.signaled <==> s.adds > 0)
    && (s.phase.Waiting? && s.adds > 0 ==> s.woken)
  }

  ghost predicate Inv(cfg: Config, s: System) {
    FilesInv(cfg, s.eng) && OpenedInv(cfg, s.eng, s.opens) && WakeInv(s)
  }

  // ---- One visit -----------------------------------------------------------

  /** What a visit may change of a file that satisfies the invariant. */
  ghost predicate Visited(cfg: Config, f: File, f': File) {
    && f' == f.(firedOpen := f'.firedOpen, firedClosed := f'.firedClosed, remove := f'.remove)
    && (f.firedOpen ==> f'.firedOpen)
    && (f'.firedOpen ==> CanFire(cfg))
    && (f'.remove <==> f'.firedOpen && f.isClosed)
    && (f'.firedClosed <==> f'.remove && cfg.closeCmd != "")
  }

  /** Whatever the files, a visit only moves the clock forward. */
  lemma VisitTicks(cfg: Config, clock: Clock, p: Pass, f: File)
    requires TickLike(p.ticker.last)
    ensures var (p', f') := Visit(cfg, clock, p, f);
            && p.ticker.last <= p'.ticker.last && TickLike(p'.ticker.last)
            && SameFile(f', f.id, f.name)
  {
    TickIsNotSentinel(clock, p.ticker);
    var t := GetTick(clock, p.ticker).1;
    TickIsNotSentinel(clock, t);
    var t' := GetTick(clock, t).1;
    TickIsNotSentinel(clock, t');
  }

  lemma VisitFile(cfg: Config, clock: Clock, p: Pass, f: File, last: nat)
    requires FileInv(cfg, last, f) && last <= p.ticker.last && TickLike(p.ticker.last)
    ensures var (p', f') := Visit(cfg, clock, p, f);
            && Visited(cfg, f, f')
            && p.ticker.last <= p'.ticker.last && TickLike(p'.ticker.last)
  {
    VisitTicks(cfg, clock, p, f);
    TickIsNotSentinel(clock, p.ticker);
  }

  lemma VisitJustifies(cfg: Config, clock: Clock, p: Pass, f: File, opens: seq<Opened>)
    requires Opened(f.id, f.name, f.openTs) in opens
    requires forall c | c in p.fired :: Justified(cfg, c, opens)
    ensures forall c | c in Visit(cfg, clock, p, f).0.fired :: Justified(cfg, c, opens)
  {
  }

  lemma {:induction false} VisitAllJustifies(cfg: Config, clock: Clock, p: Pass, files: seq<File>, opens: seq<Opened>)
    requires forall f | f in files :: Opened(f.id, f.name, f.openTs) in opens
    requires forall c | c in p.fired :: Justified(cfg, c, opens)
    ensures forall c | c in VisitAll(cfg, clock, p, files).0.fired :: Justified(cfg, c, opens)
  {
    if files != [] {
      var init, f := files[..|files| - 1], files[|files| - 1];
      VisitAllJustifies(cfg, clock, p, init, opens);
      VisitJustifies(cfg, clock, VisitAll(cfg, clock, p, init).0, f, opens);
    }
  }

  lemma {:induction false} VisitAllChanges(cfg: Config, clock: Clock, p: Pass, files: seq<File>, last: nat)
    requires last <= p.ticker.last && TickLike(p.ticker.last)
    requires forall f | f in files :: FileInv(cfg, last, f)
    ensures var (p', done) := VisitAll(cfg, clock, p, files);
            && (forall i | 0 <= i < |files| :: Visited(cfg, files[i], done[i]))
            && p.ticker.last <= p'.ticker.last && TickLike(p'.ticker.last)
  {
    if files != [] {
      var init, f := files[..|files| - 1], files[|files| - 1];
      VisitAllChanges(cfg, clock, p, init, last);
      VisitFile(cfg, clock, VisitAll(cfg, clock, p, init).0, f, last);
    }
  }

  /** The second loop keeps exactly the unmarked files, and no new pair of them. */
  lemma {:induction false} SweepKeeps(files: seq<File>)
    ensures forall f :: f in Sweep(files) <==> f in files && !f.remove
    ensures DistinctFiles(files) ==> DistinctFiles(Sweep(files))
  {
    if files != [] {
      var init, last := files[..|files| - 1], files[|files| - 1];
      SweepKeeps(init);
      assert files == init + [last];
      assert DistinctFiles(files) ==> forall f | f in init :: !SameFile(f, last.id, last.name);
    }
  }

  /** `left` is the unmarked files in their order; `at` says where each was. */
  ghost predicate Survivors(files: seq<File>, left: seq<File>, at: seq<nat>) {
    && |at| == |left|
    && (forall k | 0 <= k < |at| :: at[k] < |files| && left[k] == files[at[k]] && !left[k].remove)
    && (forall k, l | 0 <= k < l < |at| :: at[k] < at[l])
    && (forall i: nat | i < |files| && !files[i].remove :: i in at)
  }

  lemma SurvivorsSnoc(files: seq<File>, f: File, left: seq<File>, at: seq<nat>)
    requires Survivors(files, left, at)
    ensures f.remove ==> Survivors(files + [f], left, at)
    ensures !f.remove ==> Survivors(files + [f], left + [f], at + [|files|])
  {
    var more := at + [|files|];
    assert |files| in more && forall i | i in at :: i in more;
  }

  /** The second loop keeps the order. */
  lemma {:induction false} SweepInOrder(files: seq<File>) returns (at: seq<nat>)
    ensures Survivors(files, Sweep(files), at)
  {
    at := [];
    if files != [] {
      hide Survivors;
      var init, last := files[..|files| - 1], files[|files| - 1];
      at := SweepInOrder(init);
      SurvivorsSnoc(init, last, Sweep(init), at);
      assert files == init + [last] && Sweep(init) + [] == Sweep(init);
      at := if last.remove then at else at + [|init|];
    }
  }

  lemma PassKeepsInv(cfg: Config, clock: Clock, e: Engine, curWait: nat, opens: seq<Opened>)
    requires FilesInv(cfg, e) && OpenedInv(cfg, e, opens)
    ensures var e' := ConsumerPass(cfg, clock, e, curWait).0;
            FilesInv(cfg, e') && OpenedInv(cfg, e', opens)
  {
    var p := Pass(e.ticker, curWait, e.fired);
    var (p', done) := VisitAll(cfg, clock, p, e.files);
    VisitAllChanges(cfg, clock, p, e.files, e.ticker.last);
    VisitAllJustifies(cfg, clock, p, e.files, opens);
    SweepKeeps(done);
    assert forall i | 0 <= i < |done| :: done[i].id == e.files[i].id && done[i].name == e.files[i].name;
    forall f | f in Sweep(done)
      ensures FileInv(cfg, p'.ticker.last, f) && LatestOpen(opens, f.id, f.name) == Some(f.openTs)
    {
      var i :| 0 <= i < |done| && done[i] == f;
      assert Visited(cfg, e.files[i], f) && FileInv(cfg, e.ticker.last, e.files[i]);
    }
  }

  lemma HandleCloseKeepsInv(cfg: Config, clock: Clock, e: Engine, i: nat, opens: seq<Opened>)
    requires FilesInv(cfg, e) && OpenedInv(cfg, e, opens)
    requires i < |e.files| && !e.files[i].isClosed
    ensures var e' := HandleClose(cfg, clock, e, i);
            FilesInv(cfg, e') && OpenedInv(cfg, e', opens)
  {
    TickIsNotSentinel(clock, e.ticker);
    TickIsNotSentinel(clock, GetTick(clock, e.ticker).1);
    var e' := HandleClose(cfg, clock, e, i);
    assert FileInv(cfg, e.ticker.last, e.files[i]);
    forall f | f in e'.files
      ensures FileInv(cfg, e'.ticker.last, f) && LatestOpen(opens, f.id, f.name) == Some(f.openTs)
    {
      assert f in e.files || f == e'.files[i];
    }
  }

  lemma AddKeepsInv(cfg: Config, clock: Clock, e: Engine, ev: Event, opens: seq<Opened>)
    requires FilesInv(cfg, e) && OpenedInv(cfg, e, opens)
    ensures var e' := AddEvent(cfg, clock, e, ev);
            var more := if TakesEffect(e.files, ev.id, ev.name, ev.mask)
                        then [Opened(ev.id, ev.name, ev.timestamp)] else [];
            FilesInv(cfg, e') && OpenedInv(cfg, e', opens + more)
  {
    var i := FindFile(e.files, ev.id, ev.name);
    var e' := AddEvent(cfg, clock, e, ev);
    if IsCloseEvent(ev.mask) && i < |e.files| && !e.files[i].isClosed {
      HandleCloseKeepsInv(cfg, clock, e, i, opens);
      assert opens + [] == opens;
    } else if TakesEffect(e.files, ev.id, ev.name, ev.mask) {
      OpenKeepsInv(cfg, clock, e, ev, opens);
    } else {
      assert opens + [] == opens;
    }
  }

  lemma OpenKeepsInv(cfg: Config, clock: Clock, e: Engine, ev: Event, opens: seq<Opened>)
    requires FilesInv(cfg, e) && OpenedInv(cfg, e, opens)
    requires TakesEffect(e.files, ev.id, ev.name, ev.mask)
    ensures var e' := AddEvent(cfg, clock, e, ev);
            FilesInv(cfg, e') && OpenedInv(cfg, e', opens + [Opened(ev.id, ev.name, ev.timestamp)])
  {
    var i := FindFile(e.files, ev.id, ev.name);
    var e' := AddEvent(cfg, clock, e, ev);
    var o := Opened(ev.id, ev.name, ev.timestamp);
    assert i < |e.files| ==> e.files[i] in e.files;
    forall f | f in e'.files
      ensures FileInv(cfg, e'.ticker.last, f) && LatestOpen(opens + [o], f.id, f.name) == Some(f.openTs)
    {
      LatestOpenSnoc(opens, o, f.id, f.name);
      assert SameFile(f, ev.id, ev.name) ==> f == e'.files[i];
    }
  }

  lemma NextKeepsInv(cfg: Config, clock: Clock, s: System, step: Step)
    requires Inv(cfg, s)
    ensures Inv(cfg, Next(cfg, clock, s, step))
  {
    match step
    case ReadTick => TickIsNotSentinel(clock, s.eng.ticker);
    case Add(id, name, mask) =>
      if s.pending.Some? {
        AddKeepsInv(cfg, clock, s.eng, Event(id, name, mask, s.pending.value), s.opens);
      }
    case Lock => PassKeepsInv(cfg, clock, s.eng, s.curWait, s.opens);
    case Wake => PassKeepsInv(cfg, clock, s.eng, Threshold(cfg.delay), s.opens);
  }

  /** Every interleaving of the two threads keeps the joint invariant. */
  lemma {:induction false} RunKeepsInv(cfg: Config, clock: Clock, steps: seq<Step>)
    ensures Inv(cfg, Run(cfg, clock, steps))
  {
    if steps != [] {
      RunKeepsInv(cfg, clock, steps[..|steps| - 1]);
      NextKeepsInv(cfg, clock, Run(cfg, clock, steps[..|steps| - 1]), steps[|steps| - 1]);
    }
  }
}
