/** Delays, ticks and wake-ups: what every run guarantees about when things happen. */
module EventTiming {
  import opened CStrings
  import opened Sequences
  import opened EventModel
  import opened EventRuns
  import opened EventTheorems

  // ---- Ticks ---------------------------------------------------------------

  lemma NextTicks(cfg: Config, clock: Clock, s: System, step: Step)
    requires TickLike(s.eng.ticker.last)
    ensures var t := Next(cfg, clock, s, step).eng.ticker;
            TickLike(t.last) && s.eng.ticker.last <= t.last && s.eng.ticker.calls <= t.calls
  {
    TickIsNotSentinel(clock, s.eng.ticker);
    TickIsNotSentinel(clock, GetTick(clock, s.eng.ticker).1);
    if step.Lock? || step.Wake? {
      VisitAllTicks(cfg, clock, Pass(s.eng.ticker, s.curWait, s.eng.fired), s.eng.files);
      VisitAllTicks(cfg, clock, Pass(s.eng.ticker, Threshold(cfg.delay), s.eng.fired), s.eng.files);
    }
  }

  lemma {:induction false} VisitAllTicks(cfg: Config, clock: Clock, p: Pass, files: seq<File>)
    requires TickLike(p.ticker.last)
    ensures var t := VisitAll(cfg, clock, p, files).0.ticker;
            TickLike(t.last) && p.ticker.last <= t.last && p.ticker.calls <= t.calls
  {
    if files != [] {
      var init := files[..|files| - 1];
      VisitAllTicks(cfg, clock, p, init);
      VisitTicks(cfg, clock, VisitAll(cfg, clock, p, init).0, files[|files| - 1]);
    }
  }

  /** However the clock jumps, ticks read later in a run are never smaller. */
  lemma {:induction false} TicksNeverDecrease(cfg: Config, clock: Clock, before: seq<Step>, after: seq<Step>)
    ensures Run(cfg, clock, before).eng.ticker.last <= Run(cfg, clock, before + after).eng.ticker.last
  {
    if after == [] {
      assert before + after == before;
    } else {
      var init, step := after[..|after| - 1], after[|after| - 1];
      assert before + after == (before + init) + [step];
      TicksNeverDecrease(cfg, clock, before, init);
      RunKeepsInv(cfg, clock, before + init);
      ExecSnoc(cfg, clock, Init(), before + init, step);
      NextTicks(cfg, clock, Run(cfg, clock, before + init), step);
    }
  }

  // ---- Files between critical sections -------------------------------------

  /** One of the first `calls` readings of the clock failed. */
  ghost predicate FailedBefore(clock: Clock, calls: nat) {
    exists n: nat :: n < calls && clock(n).Failed?
  }

  /** A zero close timestamp comes from a failed reading. */
  ghost predicate ZeroInv(clock: Clock, e: Engine) {
    forall f | f in e.files && f.isClosed && f.closeTs == 0 :: FailedBefore(clock, e.ticker.calls)
  }

  lemma PassKeepsZero(cfg: Config, clock: Clock, e: Engine, curWait: nat)
    requires FilesInv(cfg, e) && ZeroInv(clock, e)
    ensures ZeroInv(clock, ConsumerPass(cfg, clock, e, curWait).0)
  {
    var p := Pass(e.ticker, curWait, e.fired);
    var (p', done) := VisitAll(cfg, clock, p, e.files);
    VisitAllChanges(cfg, clock, p, e.files, e.ticker.last);
    VisitAllTicks(cfg, clock, p, e.files);
    SweepKeeps(done);
    forall f | f in Sweep(done) && f.isClosed && f.closeTs == 0
      ensures FailedBefore(clock, p'.ticker.calls)
    {
      var i :| 0 <= i < |done| && done[i] == f;
      assert Visited(cfg, e.files[i], f) && e.files[i] in e.files;
    }
  }

  lemma AddKeepsZero(cfg: Config, clock: Clock, e: Engine, ev: Event)
    requires ZeroInv(clock, e)
    ensures ZeroInv(clock, AddEvent(cfg, clock, e, ev))
  {
    var e' := AddEvent(cfg, clock, e, ev);
    var i := FindFile(e.files, ev.id, ev.name);
    forall f | f in e'.files && f.isClosed && f.closeTs == 0
      ensures FailedBefore(clock, e'.ticker.calls)
    {
      if f !in e.files {
        assert e'.files == e.files[i := f];
        assert clock(e'.ticker.calls - 1).Failed?;
      }
    }
  }

  lemma {:induction false} RunKeepsZero(cfg: Config, clock: Clock, steps: seq<Step>)
    ensures ZeroInv(clock, Run(cfg, clock, steps).eng)
  {
    if steps != [] {
      var init, step := steps[..|steps| - 1], steps[|steps| - 1];
      var s := Run(cfg, clock, init);
      RunKeepsZero(cfg, clock, init);
      RunKeepsInv(cfg, clock, init);
      match step
      case ReadTick =>
      case Add(id, name, mask) =>
        if s.pending.Some? {
          AddKeepsZero(cfg, clock, s.eng, Event(id, name, mask, s.pending.value));
        }
      case Lock => PassKeepsZero(cfg, clock, s.eng, s.curWait);
      case Wake => PassKeepsZero(cfg, clock, s.eng, Threshold(cfg.delay));
    }
  }

  /** Every tracked file between critical sections, in every run: the flag and the
      sentinel agree, nothing is half removed, and a closed file was closed later than
      opened by more than the delay, or some reading of the clock so far has failed. */
  lemma ReachableFiles(cfg: Config, clock: Clock, steps: seq<Step>, i: nat, j: nat)
    requires i < |Run(cfg, clock, steps).eng.files| && j < |Run(cfg, clock, steps).eng.files|
    ensures var e := Run(cfg, clock, steps).eng;
            var f := e.files[i];
            && (i != j ==> !(e.files[i].id == e.files[j].id && e.files[i].name == e.files[j].name))
            && !f.remove && !f.firedClosed
            && (f.isClosed <==> f.closeTs != 0xFFFF_FFFF)
            && (f.isClosed ==> f.closeTs > f.openTs + Threshold(cfg.delay)
                               || (f.closeTs == 0 && FailedBefore(clock, e.ticker.calls)))
  {
    RunKeepsInv(cfg, clock, steps);
    RunKeepsZero(cfg, clock, steps);
    var e := Run(cfg, clock, steps).eng;
    assert FileInv(cfg, e.ticker.last, e.files[i]);
  }

  /** With a clock that has answered so far, every closed file was open past the delay. */
  lemma ClosedPastDelay(cfg: Config, clock: Clock, steps: seq<Step>, f: File)
    requires f in Run(cfg, clock, steps).eng.files && f.isClosed
    requires forall n: nat | n < Run(cfg, clock, steps).eng.ticker.calls :: clock(n).Time?
    ensures f.closeTs > f.openTs && f.closeTs - f.openTs > Threshold(cfg.delay)
  {
    var i :| 0 <= i < |Run(cfg, clock, steps).eng.files| && Run(cfg, clock, steps).eng.files[i] == f;
    ReachableFiles(cfg, clock, steps, i, i);
  }

  // ---- No open command fires early -----------------------------------------

  /** Every command of the trace from `n` on bears the timestamp of the latest open event
      of its file, and a tick between the two given ones. */
  ghost predicate Current(fired: seq<Command>, n: nat, opens: seq<Opened>, earliest: nat, latest: nat) {
    forall k | n <= k < |fired| ::
      && LatestOpen(opens, fired[k].id, fired[k].name) == Some(fired[k].openTs)
      && earliest <= fired[k].tick <= latest
  }

  lemma VisitIsCurrent(cfg: Config, clock: Clock, p: Pass, f: File, opens: seq<Opened>)
    requires LatestOpen(opens, f.id, f.name) == Some(f.openTs)
    ensures var q := Visit(cfg, clock, p, f).0;
            && p.fired <= q.fired && p.ticker.last <= q.ticker.last
            && Current(q.fired, |p.fired|, opens, p.ticker.last, q.ticker.last)
  {
    hide GetTick, CommandText, LatestOpen;
  }

  lemma {:induction false} VisitAllIsCurrent(cfg: Config, clock: Clock, p: Pass, files: seq<File>, opens: seq<Opened>)
    requires forall f | f in files :: LatestOpen(opens, f.id, f.name) == Some(f.openTs)
    ensures var q := VisitAll(cfg, clock, p, files).0;
            && p.fired <= q.fired && p.ticker.last <= q.ticker.last
            && Current(q.fired, |p.fired|, opens, p.ticker.last, q.ticker.last)
  {
    if files != [] {
      hide Visit, LatestOpen;
      var init, f := files[..|files| - 1], files[|files| - 1];
      VisitAllIsCurrent(cfg, clock, p, init, opens);
      VisitIsCurrent(cfg, clock, VisitAll(cfg, clock, p, init).0, f, opens);
    }
  }

  lemma NextIsCurrent(cfg: Config, clock: Clock, s: System, step: Step)
    requires OpenedInv(cfg, s.eng, s.opens)
    ensures var e := Next(cfg, clock, s, step).eng;
            && s.eng.fired <= e.fired
            && Current(e.fired, |s.eng.fired|, s.opens, s.eng.ticker.last, e.ticker.last)
  {
    match step
    case ReadTick =>
    case Add(_, _, _) =>
    case Lock => VisitAllIsCurrent(cfg, clock, Pass(s.eng.ticker, s.curWait, s.eng.fired), s.eng.files, s.opens);
    case Wake =>
      VisitAllIsCurrent(cfg, clock, Pass(s.eng.ticker, Threshold(cfg.delay), s.eng.fired), s.eng.files, s.opens);
  }

  /** The command `c` at place `n` of the trace is fired by step `j`, at a tick of that
      step, and bears the timestamp of the latest open event of its file that took effect
      before that step. */
  ghost predicate FiredAt(cfg: Config, clock: Clock, steps: seq<Step>, j: nat, n: nat, c: Command)
    requires j < |steps|
  {
    var s, e := Run(cfg, clock, steps[..j]), Run(cfg, clock, steps[..j + 1]).eng;
    && |s.eng.fired| <= n < |e.fired| && e.fired[n] == c
    && s.eng.ticker.last <= c.tick <= e.ticker.last
    && LatestOpen(s.opens, c.id, c.name) == Some(c.openTs)
  }

  lemma {:induction false} FiredSomewhere(cfg: Config, clock: Clock, steps: seq<Step>, n: nat)
    requires n < |Run(cfg, clock, steps).eng.fired|
    ensures exists j :: 0 <= j < |steps| && FiredAt(cfg, clock, steps, j, n, Run(cfg, clock, steps).eng.fired[n])
  {
    hide Next, LatestOpen, OpenedInv;
    var last := |steps| - 1;
    var init, c := steps[..last], Run(cfg, clock, steps).eng.fired[n];
    var s := Run(cfg, clock, init);
    RunKeepsInv(cfg, clock, init);
    NextIsCurrent(cfg, clock, s, steps[last]);
    if n < |s.eng.fired| {
      FiredSomewhere(cfg, clock, init, n);
      var j :| 0 <= j < last && FiredAt(cfg, clock, init, j, n, s.eng.fired[n]);
      assert init[..j] == steps[..j] && init[..j + 1] == steps[..j + 1];
      assert FiredAt(cfg, clock, steps, j, n, c);
    } else {
      assert steps[..last + 1] == steps;
      assert FiredAt(cfg, clock, steps, last, n, c);
    }
  }

  /** No open command fires early: when it fires, the tick is later by more than the
      delay than the latest open event of that file that took effect. */
  lemma NoEarlyOpen(cfg: Config, clock: Clock, steps: seq<Step>, n: nat)
    requires n < |Run(cfg, clock, steps).eng.fired| && Run(cfg, clock, steps).eng.fired[n].kind.OpenCommand?
    ensures var c := Run(cfg, clock, steps).eng.fired[n];
            && c.tick - c.openTs > Threshold(cfg.delay)
            && c.text == CommandText(cfg.openCmd, c.name)
            && exists j :: 0 <= j < |steps| && FiredAt(cfg, clock, steps, j, n, c)
  {
    RunKeepsInv(cfg, clock, steps);
    var s := Run(cfg, clock, steps);
    assert Justified(cfg, s.eng.fired[n], s.opens);
    FiredSomewhere(cfg, clock, steps, n);
  }

  // ---- Ticks are not milliseconds ------------------------------------------

  function Tick(r: Reading): nat
    requires r.Time?
  {
    GetTick(n => r, Ticker(0, 0)).0
  }

  function Milliseconds(r: Reading): nat
    requires r.Time?
  {
    r.sec * 1000 + r.nsec / 1000000
  }

  /** The configuration file documents the delay in milliseconds.  The comparison of
      ticks answers as one of milliseconds would exactly when both readings fall into one
      second, or the delay has in fact passed, or it has not passed in ticks either. */
  lemma DelayIsMilliseconds(start: Reading, now: Reading, delay: nat)
    requires start.Time? && now.Time? && Milliseconds(start) <= Milliseconds(now)
    ensures var elapsed := Milliseconds(now) - Milliseconds(start);
            (Tick(now) - Tick(start) > delay <==> elapsed > delay)
            <==> start.sec == now.sec || elapsed > delay
                 || 1000000 * (now.sec - start.sec) + now.nsec / 1000000 - start.nsec / 1000000 <= delay
    ensures start.sec < now.sec ==> Tick(now) - Tick(start) >= 999001
  {
    var a, b := start.nsec / 1000000, now.nsec / 1000000;
    assert Tick(now) - Tick(start) == (now.sec - start.sec) * 1000000 + b - a;
  }

  /** One millisecond across the end of a second passes for every such delay. */
  lemma OneMillisecondPasses(delay: nat)
    requires delay < 999001
    ensures var start, now := Time(0, 999000000), Time(1, 0);
            Milliseconds(now) - Milliseconds(start) == 1 && Tick(now) - Tick(start) > delay
  {
  }

  // ---- No lost wake-up -----------------------------------------------------

  /** The flag is down only when no event was added since the last pass, and a
      consumer that waits while there is one has been signalled. */
  lemma NoLostWakeUp(cfg: Config, clock: Clock, steps: seq<Step>)
    ensures var s := Run(cfg, clock, steps);
            && (!s.eng.signaled <==> s.adds == 0)
            && (s.phase.Waiting? && s.adds > 0 ==> s.woken)
  {
    RunKeepsInv(cfg, clock, steps);
  }

  predicate ConsumerStep(step: Step) {
    step.Lock? || step.Wake?
  }

  lemma {:induction false} ProducerOnly(cfg: Config, clock: Clock, s: System, steps: seq<Step>)
    requires forall step | step in steps :: !ConsumerStep(step)
    ensures var s' := Exec(cfg, clock, s, steps);
            s'.adds >= s.adds && s'.phase == s.phase && s'.curWait == s.curWait
  {
    if steps != [] {
      var init := steps[..|steps| - 1];
      assert forall step | step in init :: step in steps;
      ProducerOnly(cfg, clock, s, init);
      assert !ConsumerStep(steps[|steps| - 1]);
    }
  }

  /** Once an event has been added, the consumer's next step is a pass over the list, not a wait. */
  lemma AddedEventIsSeen(cfg: Config, clock: Clock, before: seq<Step>, add: Step, between: seq<Step>)
    requires add.Add? && Run(cfg, clock, before).pending.Some?
    requires forall step | step in between :: !ConsumerStep(step)
    ensures var s := Run(cfg, clock, before + [add] + between);
            var step := if s.phase.Waiting? then Wake else Lock;
            var wait := if s.phase.Waiting? then Threshold(cfg.delay) else s.curWait;
            && (s.phase.Waiting? ==> s.woken)
            && Next(cfg, clock, s, step).eng == ConsumerPass(cfg, clock, s.eng, wait).0
  {
    ExecSnoc(cfg, clock, Init(), before, add);
    ExecConcat(cfg, clock, Init(), before + [add], between);
    ProducerOnly(cfg, clock, Run(cfg, clock, before + [add]), between);
    RunKeepsInv(cfg, clock, before + [add] + between);
  }
}
