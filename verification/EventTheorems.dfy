/** What the users of the engine can rely on, for every run. */
module EventTheorems {
  import opened Sequences
  import opened EventModel
  import opened EventRuns

  // ---- Commands of one file alternate --------------------------------------

  /** The trace of a tracked file alternates, and is odd while its close is owed. */
  ghost predicate Agrees(fired: seq<Command>, f: File) {
    var kinds := Project(fired, f.id, f.name);
    Alternates(kinds) && (|kinds| % 2 == 1 <==> f.firedOpen && !f.firedClosed)
  }

  /** The configurations under which every trace alternates. */
  predicate Paired(cfg: Config) {
    CanFire(cfg) ==> cfg.closeCmd != ""
  }

  /** A file is tracked and has had its open command fired. */
  ghost predicate OpenFired(files: seq<File>, id: int, name: string) {
    exists f :: f in files && SameFile(f, id, name) && f.firedOpen
  }

  ghost predicate PairingInv(e: Engine) {
    forall id, name ::
      var kinds := Project(e.fired, id, name);
      Alternates(kinds) && (|kinds| % 2 == 1 <==> OpenFired(e.files, id, name))
  }

  /** The trace grew by commands of `f` only, and still agrees with it. */
  ghost predicate Grown(before: seq<Command>, after: seq<Command>, f: File) {
    && Agrees(after, f)
    && forall id, name | !SameFile(f, id, name) :: Project(after, id, name) == Project(before, id, name)
  }

  lemma FirePairs(fired: seq<Command>, c: Command, f: File, f': File)
    requires Agrees(fired, f) && SameFile(f', f.id, f.name) && SameFile(f, c.id, c.name)
    requires c.kind.OpenCommand? ==> !f.firedOpen && f'.firedOpen && !f'.firedClosed
    requires c.kind.CloseCommand? ==> f.firedOpen && !f.firedClosed && f'.firedClosed
    ensures Grown(fired, fired + [c], f')
  {
    forall id, name
      ensures Project(fired + [c], id, name) ==
              Project(fired, id, name) + if c.id == id && c.name == name then [c.kind] else []
    {
      ProjectSnoc(fired, c, id, name);
    }
  }

  lemma VisitPairs(cfg: Config, clock: Clock, p: Pass, f: File, last: nat)
    requires Paired(cfg) && FileInv(cfg, last, f) && TickLike(p.ticker.last)
    requires Agrees(p.fired, f)
    ensures var (p', f') := Visit(cfg, clock, p, f);
            Grown(p.fired, p'.fired, f')
  {
    var (q, g) := VisitOpen(cfg, clock, p, f);
    TickIsNotSentinel(clock, p.ticker);
    if q.fired != p.fired {
      FirePairs(p.fired, q.fired[|p.fired|], f, g);
    }
    assert Grown(p.fired, q.fired, g);
    var (p', f') := VisitClose(cfg, q, g);
    if p'.fired != q.fired {
      FirePairs(q.fired, p'.fired[|q.fired|], g, f');
    }
  }

  ghost predicate Untracked(files: seq<File>, id: int, name: string) {
    forall f | f in files :: !SameFile(f, id, name)
  }

  /** A whole first loop: the files it went over, and the trace it extended. */
  ghost predicate AllGrown(before: seq<Command>, after: seq<Command>, files: seq<File>) {
    && (forall f | f in files :: Agrees(after, f))
    && forall id, name | Untracked(files, id, name) :: Project(after, id, name) == Project(before, id, name)
  }

  lemma GrownSnoc(t0: seq<Command>, t1: seq<Command>, t2: seq<Command>, files: seq<File>, f: File)
    requires AllGrown(t0, t1, files) && Grown(t1, t2, f) && Untracked(files, f.id, f.name)
    ensures AllGrown(t0, t2, files + [f])
  {
    forall g | g in files
      ensures Agrees(t2, g)
    {
      assert Project(t2, g.id, g.name) == Project(t1, g.id, g.name);
    }
    forall id, name | Untracked(files + [f], id, name)
      ensures Project(t2, id, name) == Project(t0, id, name)
    {
      assert f in files + [f];
      assert forall g | g in files :: g in files + [f];
      assert Untracked(files, id, name);
    }
  }

  lemma {:induction false} VisitAllPairs(cfg: Config, clock: Clock, p: Pass, files: seq<File>, last: nat)
    requires Paired(cfg) && TickLike(p.ticker.last)
    requires DistinctFiles(files)
    requires forall f | f in files :: FileInv(cfg, last, f) && Agrees(p.fired, f)
    ensures var (p', done) := VisitAll(cfg, clock, p, files);
            && AllGrown(p.fired, p'.fired, done)
            && TickLike(p'.ticker.last)
            && forall i | 0 <= i < |files| :: SameFile(done[i], files[i].id, files[i].name)
  {
    if files != [] {
      var init, f := files[..|files| - 1], files[|files| - 1];
      VisitAllPairs(cfg, clock, p, init, last);
      var (q, done) := VisitAll(cfg, clock, p, init);
      assert Untracked(done, f.id, f.name);
      assert Project(q.fired, f.id, f.name) == Project(p.fired, f.id, f.name);
      VisitPairs(cfg, clock, q, f, last);
      VisitTicks(cfg, clock, q, f);
      var (q', f') := Visit(cfg, clock, q, f);
      GrownSnoc(p.fired, q.fired, q'.fired, done, f');
    }
  }

  lemma OpenFiredIs(files: seq<File>, f: File)
    requires DistinctFiles(files) && f in files
    ensures OpenFired(files, f.id, f.name) <==> f.firedOpen
  {
  }

  lemma PassKeepsPairing(cfg: Config, clock: Clock, e: Engine, curWait: nat)
    requires Paired(cfg) && FilesInv(cfg, e) && PairingInv(e)
    ensures PairingInv(ConsumerPass(cfg, clock, e, curWait).0)
  {
    var p := Pass(e.ticker, curWait, e.fired);
    var (p', done) := VisitAll(cfg, clock, p, e.files);
    forall f | f in e.files
      ensures Agrees(e.fired, f)
    {
      OpenFiredIs(e.files, f);
    }
    VisitAllPairs(cfg, clock, p, e.files, e.ticker.last);
    VisitAllChanges(cfg, clock, p, e.files, e.ticker.last);
    SweepKeeps(done);
    var left := Sweep(done);
    assert DistinctFiles(done);
    forall id, name
      ensures var kinds := Project(p'.fired, id, name);
              Alternates(kinds) && (|kinds| % 2 == 1 <==> OpenFired(left, id, name))
    {
      if i :| 0 <= i < |done| && SameFile(done[i], id, name) {
        assert Visited(cfg, e.files[i], done[i]) && Agrees(p'.fired, done[i]);
        if done[i] in left {
          OpenFiredIs(left, done[i]);
        } else {
          assert forall f | f in left :: f in done && f != done[i];
          assert !OpenFired(left, id, name);
        }
      } else {
        assert Untracked(done, id, name);
        assert forall i | 0 <= i < |done| :: !SameFile(e.files[i], id, name);
      }
    }
  }

  lemma OpenFiredByIndex(files: seq<File>, id: int, name: string)
    ensures OpenFired(files, id, name) <==>
            exists i :: 0 <= i < |files| && SameFile(files[i], id, name) && files[i].firedOpen
  {
  }

  lemma OpenFiredUpdate(files: seq<File>, i: nat, g: File, id: int, name: string)
    requires i < |files| && SameFile(g, files[i].id, files[i].name) && g.firedOpen == files[i].firedOpen
    ensures OpenFired(files[i := g], id, name) <==> OpenFired(files, id, name)
  {
    OpenFiredByIndex(files, id, name);
    OpenFiredByIndex(files[i := g], id, name);
    if k :| 0 <= k < |files| && SameFile(files[k], id, name) && files[k].firedOpen {
      assert SameFile(files[i := g][k], id, name) && files[i := g][k].firedOpen;
    }
  }

  lemma OpenFiredWithout(files: seq<File>, i: nat, id: int, name: string)
    requires i < |files| && !files[i].firedOpen
    ensures OpenFired(Without(files, i), id, name) <==> OpenFired(files, id, name)
  {
    assert files == files[..i] + [files[i]] + files[i + 1..];
  }

  lemma AddKeepsPairing(cfg: Config, clock: Clock, e: Engine, ev: Event)
    requires PairingInv(e)
    ensures PairingInv(AddEvent(cfg, clock, e, ev))
  {
    var e' := AddEvent(cfg, clock, e, ev);
    var i := FindFile(e.files, ev.id, ev.name);
    forall id, name
      ensures OpenFired(e'.files, id, name) <==> OpenFired(e.files, id, name)
    {
      if |e'.files| < |e.files| {
        OpenFiredWithout(e.files, i, id, name);
      } else if |e'.files| == |e.files| && e'.files != e.files {
        OpenFiredUpdate(e.files, i, e'.files[i], id, name);
      }
    }
  }

  lemma {:induction false} RunKeepsPairing(cfg: Config, clock: Clock, steps: seq<Step>)
    requires Paired(cfg)
    ensures PairingInv(Run(cfg, clock, steps).eng)
  {
    if steps != [] {
      var init, step := steps[..|steps| - 1], steps[|steps| - 1];
      var s := Run(cfg, clock, init);
      RunKeepsPairing(cfg, clock, init);
      RunKeepsInv(cfg, clock, init);
      match step
      case ReadTick =>
        assert PairingInv(s.eng.(ticker := GetTick(clock, s.eng.ticker).1));
      case Add(id, name, mask) =>
        if s.pending.Some? {
          AddKeepsPairing(cfg, clock, s.eng, Event(id, name, mask, s.pending.value));
        }
      case Lock => PassKeepsPairing(cfg, clock, s.eng, s.curWait);
      case Wake => PassKeepsPairing(cfg, clock, s.eng, Threshold(cfg.delay));
    } else {
      assert PairingInv(Init().eng);
    }
  }

  /** In every run, the commands of every file alternate, starting with open; one
      is outstanding exactly while the file is tracked with its open fired. */
  lemma CommandsAlternate(cfg: Config, clock: Clock, steps: seq<Step>, id: int, name: string)
    requires Paired(cfg)
    ensures var e := Run(cfg, clock, steps).eng;
            var kinds := Project(e.fired, id, name);
            Alternates(kinds) && (|kinds| % 2 == 1 <==> OpenFired(e.files, id, name))
  {
    RunKeepsPairing(cfg, clock, steps);
  }

  lemma ExecSnoc(cfg: Config, clock: Clock, s: System, steps: seq<Step>, step: Step)
    ensures Exec(cfg, clock, s, steps + [step]) == Next(cfg, clock, Exec(cfg, clock, s, steps), step)
  {
    assert (steps + [step])[..|steps|] == steps;
  }

  /** A clock that moves on by fifty minutes at every reading. */
  function SteadyClock(n: nat): Reading {
    Time(if n < 100 then 3000 * n else 300000, 0)
  }

  lemma OneFile(cfg: Config, clock: Clock, e: Engine, curWait: nat, f: File)
    requires e.files == [f]
    ensures var (p, g) := Visit(cfg, clock, Pass(e.ticker, curWait, e.fired), f);
            var e' := ConsumerPass(cfg, clock, e, curWait).0;
            e' == Engine(if g.remove then [] else [g], p.ticker, false, p.fired)
  {
    var p := Pass(e.ticker, curWait, e.fired);
    assert VisitAll(cfg, clock, p, [f][..0]) == (p, []);
    assert VisitAll(cfg, clock, p, [f]) == (Visit(cfg, clock, p, f).0, [] + [Visit(cfg, clock, p, f).1]);
    var g := Visit(cfg, clock, p, f).1;
    assert [] + [g] == [g] && Sweep([g][..0]) == [];
  }

  lemma SteadyTick(t: Ticker)
    requires t.calls < 100 && t.last <= 3000000000 * t.calls
    ensures GetTick(SteadyClock, t) == (3000000000 * t.calls, Ticker(3000000000 * t.calls, t.calls + 1))
  {
  }

  /** Between two rounds: nothing pending, the consumer about to lock. */
  ghost predicate Resting(s: System, n: nat) {
    && s.pending.None? && s.phase.Running? && s.eng.ticker.calls == n < 90
    && s.eng.ticker.last <= 3000000000 * n
  }

  function OpenedFile(n: nat): File {
    NewFile(1, "f", 3000000000 * n).(firedOpen := true)
  }

  lemma FireOnPass(cfg: Config, s: System, n: nat, curWait: nat)
    requires CanFire(cfg) && n < 90
    requires s.eng.files == [NewFile(1, "f", 3000000000 * n)] && s.eng.ticker == Ticker(3000000000 * n, n + 1)
    ensures var s' := RunPass(cfg, SteadyClock, s, curWait);
            && s'.eng.ticker == Ticker(3000000000 * (n + 1), n + 2) && s'.eng.files == [OpenedFile(n)]
            && Project(s'.eng.fired, 1, "f") == Project(s.eng.fired, 1, "f") + [OpenCommand]
  {
    var f := NewFile(1, "f", 3000000000 * n);
    SteadyTick(s.eng.ticker);
    OneFile(cfg, SteadyClock, s.eng, curWait, f);
    var p := Visit(cfg, SteadyClock, Pass(s.eng.ticker, curWait, s.eng.fired), f).0;
    ProjectSnoc(s.eng.fired, p.fired[|s.eng.fired|], 1, "f");
  }

  lemma OpenRound(cfg: Config, s: System, n: nat)
    requires CanFire(cfg) && Resting(s, n) && n < 50 && s.eng.files == []
    ensures var s' := Exec(cfg, SteadyClock, s, [ReadTick, Add(1, "f", IN_OPEN), Lock]);
            && Resting(s', n + 2) && s'.eng.files == [OpenedFile(n)]
            && Project(s'.eng.fired, 1, "f") == Project(s.eng.fired, 1, "f") + [OpenCommand]
  {
    SteadyTick(s.eng.ticker);
    var s1 := Next(cfg, SteadyClock, s, ReadTick);
    var s2 := Next(cfg, SteadyClock, s1, Add(1, "f", IN_OPEN));
    assert s2.eng.files == [NewFile(1, "f", 3000000000 * n)];
    FireOnPass(cfg, s2, n, s2.curWait);
    ExecThree(cfg, SteadyClock, s, ReadTick, Add(1, "f", IN_OPEN), Lock);
  }

  lemma CloseOnAdd(cfg: Config, s: System, n: nat, m: nat)
    requires CanFire(cfg) && m < n < 90
    requires s.eng.files == [OpenedFile(m)] && s.eng.ticker == Ticker(3000000000 * n, n + 1) && s.pending.Some?
    ensures var e := Next(cfg, SteadyClock, s, Add(1, "f", IN_CLOSE_WRITE)).eng;
            && e.files == [CloseFile(OpenedFile(m), 3000000000 * (n + 2))]
            && e.ticker == Ticker(3000000000 * (n + 2), n + 3)
            && e.fired == s.eng.fired && e.signaled
  {
    SteadyTick(s.eng.ticker);
    SteadyTick(Ticker(3000000000 * (n + 1), n + 2));
    assert FindFile(s.eng.files, 1, "f") == 0;
    assert [OpenedFile(m)][0 := CloseFile(OpenedFile(m), 3000000000 * (n + 2))]
        == [CloseFile(OpenedFile(m), 3000000000 * (n + 2))];
  }

  lemma CloseRound(cfg: Config, s: System, n: nat, m: nat)
    requires CanFire(cfg) && cfg.closeCmd == ""
    requires Resting(s, n) && m < n < 50 && s.eng.files == [OpenedFile(m)]
    ensures var s' := Exec(cfg, SteadyClock, s, [ReadTick, Add(1, "f", IN_CLOSE_WRITE), Lock]);
            Resting(s', n + 3) && s'.eng.files == [] && s'.eng.fired == s.eng.fired
  {
    SteadyTick(s.eng.ticker);
    var s1 := Next(cfg, SteadyClock, s, ReadTick);
    CloseOnAdd(cfg, s1, n, m);
    var s2 := Next(cfg, SteadyClock, s1, Add(1, "f", IN_CLOSE_WRITE));
    assert 3000000000 * (n + 2) != SENTINEL;
    OneFile(cfg, SteadyClock, s2.eng, s2.curWait, s2.eng.files[0]);
    ExecThree(cfg, SteadyClock, s, ReadTick, Add(1, "f", IN_CLOSE_WRITE), Lock);
  }

  lemma ExecThree(cfg: Config, clock: Clock, s: System, a: Step, b: Step, c: Step)
    ensures Exec(cfg, clock, s, [a, b, c]) == Next(cfg, clock, Next(cfg, clock, Next(cfg, clock, s, a), b), c)
  {
    ExecSnoc(cfg, clock, s, [], a);
    ExecSnoc(cfg, clock, s, [a], b);
    ExecSnoc(cfg, clock, s, [a, b], c);
    assert [] + [a] == [a] && [a] + [b] == [a, b] && [a, b] + [c] == [a, b, c];
  }

  lemma {:induction false} ExecConcat(cfg: Config, clock: Clock, s: System, before: seq<Step>, after: seq<Step>)
    ensures Exec(cfg, clock, s, before + after) == Exec(cfg, clock, Exec(cfg, clock, s, before), after)
  {
    if after == [] {
      assert before + after == before;
    } else {
      var init, step := after[..|after| - 1], after[|after| - 1];
      assert before + after == (before + init) + [step];
      ExecSnoc(cfg, clock, s, before + init, step);
      ExecConcat(cfg, clock, s, before, init);
    }
  }

  /** Opened, closed, opened again, each far more than the delay apart. */
  const OpenCloseOpen: seq<Step> :=
    [ReadTick, Add(1, "f", IN_OPEN), Lock] + [ReadTick, Add(1, "f", IN_CLOSE_WRITE), Lock]
    + [ReadTick, Add(1, "f", IN_OPEN), Lock]

  /** With an open command that can fire but no close command, two opens fire in a row. */
  lemma TwoOpensInARow(cfg: Config)
    requires !Paired(cfg)
    ensures Project(Run(cfg, SteadyClock, OpenCloseOpen).eng.fired, 1, "f") == [OpenCommand, OpenCommand]
  {
    var open, close := [ReadTick, Add(1, "f", IN_OPEN), Lock], [ReadTick, Add(1, "f", IN_CLOSE_WRITE), Lock];
    OpenRound(cfg, Init(), 0);
    var s1 := Exec(cfg, SteadyClock, Init(), open);
    CloseRound(cfg, s1, 2, 0);
    var s2 := Exec(cfg, SteadyClock, s1, close);
    OpenRound(cfg, s2, 5);
    ExecConcat(cfg, SteadyClock, Init(), open, close);
    ExecConcat(cfg, SteadyClock, Init(), open + close, open);
  }

  ghost predicate AlwaysAlternates(cfg: Config) {
    forall clock: Clock, steps: seq<Step>, id: int, name: string ::
      Alternates(Project(Run(cfg, clock, steps).eng.fired, id, name))
  }

  /** Exactly the configurations whose every run alternates. */
  lemma AlternationExactly(cfg: Config)
    ensures AlwaysAlternates(cfg) <==> cfg.closeCmd != "" || cfg.openCmd == "" || cfg.delay < 0
  {
    if Paired(cfg) {
      forall clock: Clock, steps: seq<Step>, id: int, name: string
        ensures Alternates(Project(Run(cfg, clock, steps).eng.fired, id, name))
      {
        CommandsAlternate(cfg, clock, steps, id, name);
      }
    } else {
      TwoOpensInARow(cfg);
      var kinds := Project(Run(cfg, SteadyClock, OpenCloseOpen).eng.fired, 1, "f");
      assert kinds[1] == OpenCommand;
      assert !Alternates(kinds);
    }
  }
}
