/** What becomes of a close event: when the consumer answers it with a close command,
    whatever the producer does before the consumer gets the mutex. */
module EventClosing {
  import opened CStrings
  import opened EventModel
  import opened EventRuns
  import opened EventTheorems
  import opened EventTiming
  import opened EventPasses

  // ---- Closed by the time of the pass --------------------------------------

  function Tracked(s: System, id: int, name: string): Option<File> {
    Lookup(s.eng.files, id, name)
  }

  predicate IsOpen(f: Option<File>) {
    f.Some? && !f.value.isClosed
  }

  predicate IsClosed(f: Option<File>) {
    f.Some? && f.value.isClosed
  }

  predicate HasFired(f: Option<File>) {
    f.Some? && f.value.firedOpen
  }

  /** The step hands over an event of the file. */
  predicate Delivers(s: System, step: Step, id: int, name: string) {
    step.Add? && step.id == id && step.name == name && s.pending.Some?
  }

  predicate Opens(s: System, step: Step, id: int, name: string) {
    Delivers(s, step, id, name) && OpensFile(step.mask)
  }

  /** The step hands over a close event that finds the file open past the delay. */
  predicate Closes(cfg: Config, clock: Clock, s: System, step: Step, id: int, name: string) {
    && Delivers(s, step, id, name) && IsCloseEvent(step.mask)
    && IsOpen(Tracked(s, id, name)) && PastDelay(cfg, clock, s.eng.ticker, Tracked(s, id, name).value)
  }

  /** No step from `from` on opens the file. */
  ghost predicate StaysShut(cfg: Config, clock: Clock, s: System, steps: seq<Step>, from: nat, id: int, name: string) {
    forall k | from <= k < |steps| :: !Opens(Exec(cfg, clock, s, steps[..k]), steps[k], id, name)
  }

  /** Step `j` closes the file, and no later one opens it. */
  ghost predicate ClosedAt(cfg: Config, clock: Clock, s: System, steps: seq<Step>, j: nat, id: int, name: string)
    requires j < |steps|
  {
    && Closes(cfg, clock, Exec(cfg, clock, s, steps[..j]), steps[j], id, name)
    && StaysShut(cfg, clock, s, steps, j + 1, id, name)
  }

  ghost predicate ClosedSince(cfg: Config, clock: Clock, s: System, steps: seq<Step>, id: int, name: string) {
    exists j :: 0 <= j < |steps| && ClosedAt(cfg, clock, s, steps, j, id, name)
  }

  ghost predicate ProducerSteps(steps: seq<Step>) {
    forall step | step in steps :: !ConsumerStep(step)
  }

  /** What one step of the producer does to the file. */
  lemma ProducerStep(cfg: Config, clock: Clock, s: System, step: Step, id: int, name: string)
    requires Inv(cfg, s) && !ConsumerStep(step)
    ensures var s' := Next(cfg, clock, s, step);
            && s'.eng.fired == s.eng.fired
            && (HasFired(Tracked(s', id, name)) <==> HasFired(Tracked(s, id, name)))
            && (IsClosed(Tracked(s', id, name)) <==>
                Closes(cfg, clock, s, step, id, name)
                || (IsClosed(Tracked(s, id, name)) && !Opens(s, step, id, name)))
  {
    assert DistinctFiles(s.eng.files);
    hide AddEvent, Lookup, GetTick, Threshold, FilesInv, DistinctFiles;
    if step.Add? && s.pending.Some? {
      var ev := Event(step.id, step.name, step.mask, s.pending.value);
      OtherEventExactly(cfg, clock, s.eng, ev);
      if !(step.id == id && step.name == name) {
        AddKeepsOthers(cfg, clock, s.eng, ev, id, name);
      } else if IsCloseEvent(step.mask) {
        CloseEventExactly(cfg, clock, s.eng, ev);
      } else if OpensFile(step.mask) {
        OpenEventExactly(cfg, clock, s.eng, ev);
      }
    }
  }

  lemma {:induction false} ProducerWindow(cfg: Config, clock: Clock, s: System, steps: seq<Step>, id: int, name: string)
    requires Inv(cfg, s) && ProducerSteps(steps)
    ensures var s' := Exec(cfg, clock, s, steps);
            && Inv(cfg, s') && s'.eng.fired == s.eng.fired
            && (HasFired(Tracked(s', id, name)) <==> HasFired(Tracked(s, id, name)))
            && (IsClosed(Tracked(s', id, name)) <==>
                ClosedSince(cfg, clock, s, steps, id, name)
                || (IsClosed(Tracked(s, id, name)) && StaysShut(cfg, clock, s, steps, 0, id, name)))
  {
    if steps != [] {
      hide Inv, Next, Tracked, HasFired, IsClosed, Closes, Opens, ClosedSince, StaysShut, ConsumerStep;
      var init, step := steps[..|steps| - 1], steps[|steps| - 1];
      assert steps == init + [step];
      assert forall x | x in init :: x in steps;
      ProducerWindow(cfg, clock, s, init, id, name);
      ProducerStep(cfg, clock, Exec(cfg, clock, s, init), step, id, name);
      NextKeepsInv(cfg, clock, Exec(cfg, clock, s, init), step);
      SinceSnoc(cfg, clock, s, init, step, id, name);
      ShutSnoc(cfg, clock, s, init, step, 0, id, name);
    }
  }

  lemma ShutSnoc(cfg: Config, clock: Clock, s: System, init: seq<Step>, step: Step, from: nat, id: int, name: string)
    requires from <= |init|
    ensures StaysShut(cfg, clock, s, init + [step], from, id, name) <==>
            StaysShut(cfg, clock, s, init, from, id, name) && !Opens(Exec(cfg, clock, s, init), step, id, name)
  {
    hide Opens, Exec;
    var steps := init + [step];
    assert forall k | 0 <= k <= |init| :: steps[..k] == init[..k];
    assert init[..|init|] == init && steps[|init|] == step;
  }

  lemma ClosedAtSnoc(cfg: Config, clock: Clock, s: System, init: seq<Step>, step: Step, j: nat, id: int, name: string)
    requires j <= |init|
    ensures ClosedAt(cfg, clock, s, init + [step], j, id, name) <==>
            if j == |init| then Closes(cfg, clock, Exec(cfg, clock, s, init), step, id, name)
            else ClosedAt(cfg, clock, s, init, j, id, name) && !Opens(Exec(cfg, clock, s, init), step, id, name)
  {
    var steps := init + [step];
    assert steps[..j] == init[..j];
    if j < |init| {
      ShutSnoc(cfg, clock, s, init, step, j + 1, id, name);
    } else {
      assert init[..j] == init;
      NothingAfter(cfg, clock, s, steps, id, name);
    }
    hide Opens, Exec, Closes, StaysShut;
  }

  lemma NothingAfter(cfg: Config, clock: Clock, s: System, steps: seq<Step>, id: int, name: string)
    ensures StaysShut(cfg, clock, s, steps, |steps|, id, name)
  {
  }

  lemma SinceSnoc(cfg: Config, clock: Clock, s: System, init: seq<Step>, step: Step, id: int, name: string)
    ensures ClosedSince(cfg, clock, s, init + [step], id, name) <==>
            Closes(cfg, clock, Exec(cfg, clock, s, init), step, id, name)
            || (ClosedSince(cfg, clock, s, init, id, name) && !Opens(Exec(cfg, clock, s, init), step, id, name))
  {
    hide Opens, Exec, Closes, ClosedAt;
    var steps := init + [step];
    ClosedAtSnoc(cfg, clock, s, init, step, |init|, id, name);
    if j :| 0 <= j < |init| && ClosedAt(cfg, clock, s, init, j, id, name) {
      ClosedAtSnoc(cfg, clock, s, init, step, j, id, name);
    }
    if j :| 0 <= j < |init| && ClosedAt(cfg, clock, s, steps, j, id, name) {
      ClosedAtSnoc(cfg, clock, s, init, step, j, id, name);
    }
  }

  // ---- The pass that follows -----------------------------------------------

  /** What the consumer does when it gets the mutex next. */
  function Turn(s: System): Step {
    if s.phase.Waiting? then Wake else Lock
  }

  function TurnWait(cfg: Config, s: System): nat {
    if s.phase.Waiting? then Threshold(cfg.delay) else s.curWait
  }

  /** The open command of the file is due when the consumer's next pass reaches it. */
  predicate OpenDueNext(cfg: Config, clock: Clock, s: System, id: int, name: string) {
    var i := FindFile(s.eng.files, id, name);
    i < |s.eng.files| && OpenDue(cfg, clock, Reaching(cfg, clock, s.eng, TurnWait(cfg, s), i), s.eng.files[i])
  }

  lemma TurnExactly(cfg: Config, clock: Clock, s: System, id: int, name: string)
    requires Inv(cfg, s) && s.eng.signaled
    ensures var s' := Next(cfg, clock, s, Turn(s));
            var f, due := Tracked(s, id, name), OpenDueNext(cfg, clock, s, id, name);
            var ends := IsClosed(f) && (HasFired(f) || due);
            && Project(s'.eng.fired, id, name) == Project(s.eng.fired, id, name)
               + (if due then [OpenCommand] else []) + (if ends && cfg.closeCmd != "" then [CloseCommand] else [])
            && (ends ==> Tracked(s', id, name).None?)
            && (f.Some? && !ends ==> Tracked(s', id, name) == Some(f.value.(firedOpen := HasFired(f) || due)))
  {
    var wait, i := TurnWait(cfg, s), FindFile(s.eng.files, id, name);
    assert Next(cfg, clock, s, Turn(s)).eng == ConsumerPass(cfg, clock, s.eng, wait).0;
    hide ConsumerPass, Next, Turn, TurnWait, Project;
    if i < |s.eng.files| {
      PassLookup(cfg, clock, s.eng, wait, i);
    } else {
      PassSilent(cfg, clock, s.eng, wait, id, name);
      assert Project(s.eng.fired, id, name) + [] + [] == Project(s.eng.fired, id, name);
    }
  }

  /** The file at `i` after a pass. */
  lemma PassLookup(cfg: Config, clock: Clock, e: Engine, wait: nat, i: nat)
    requires FilesInv(cfg, e) && i < |e.files|
    ensures var f, q := e.files[i], Reaching(cfg, clock, e, wait, i);
            var e' := ConsumerPass(cfg, clock, e, wait).0;
            && Project(e'.fired, f.id, f.name) == Project(e.fired, f.id, f.name)
               + (if OpenDue(cfg, clock, q, f) then [OpenCommand] else [])
               + (if Ends(cfg, clock, q, f) && cfg.closeCmd != "" then [CloseCommand] else [])
            && Lookup(e'.files, f.id, f.name) == if Ends(cfg, clock, q, f) then None else Some(Kept(cfg, clock, q, f))
  {
    var f, q := e.files[i], Reaching(cfg, clock, e, wait, i);
    var e' := ConsumerPass(cfg, clock, e, wait).0;
    PassKeepsFiles(cfg, clock, e, wait);
    hide ConsumerPass, Reaching, OpenDue, Ends, FilesInv;
    PassExactly(cfg, clock, e, wait, i);
    if !Ends(cfg, clock, q, f) {
      LookupIs(e'.files, Kept(cfg, clock, q, f));
    }
  }

  lemma PassKeepsFiles(cfg: Config, clock: Clock, e: Engine, wait: nat)
    requires FilesInv(cfg, e)
    ensures DistinctFiles(ConsumerPass(cfg, clock, e, wait).0.files)
  {
    var p := Pass(e.ticker, wait, e.fired);
    VisitAllChanges(cfg, clock, p, e.files, e.ticker.last);
    SweepKeeps(VisitAll(cfg, clock, p, e.files).1);
  }

  // ---- Which close events are answered -------------------------------------

  /** The close event finds the file past the delay, and nothing the producer does before
      the consumer's turn opens the file again. */
  ghost predicate CloseStands(cfg: Config, clock: Clock, s: System, id: int, name: string, mask: nat, between: seq<Step>)
    requires IsOpen(Tracked(s, id, name))
  {
    && PastDelay(cfg, clock, s.eng.ticker, Tracked(s, id, name).value)
    && StaysShut(cfg, clock, Next(cfg, clock, s, Add(id, name, mask)), between, 0, id, name)
  }

  /** A later close event of the window closes the file, for good as far as the window goes. */
  ghost predicate ClosedLater(cfg: Config, clock: Clock, s: System, id: int, name: string, mask: nat, between: seq<Step>) {
    ClosedSince(cfg, clock, Next(cfg, clock, s, Add(id, name, mask)), between, id, name)
  }

  /** The state in which the consumer gets its turn. */
  lemma BeforeTurn(cfg: Config, clock: Clock, before: seq<Step>, id: int, name: string, mask: nat, between: seq<Step>)
    requires IsCloseEvent(mask) && ProducerSteps(between)
    requires Run(cfg, clock, before).pending.Some? && IsOpen(Tracked(Run(cfg, clock, before), id, name))
    ensures var s, t := Run(cfg, clock, before), Run(cfg, clock, before + [Add(id, name, mask)] + between);
            && Inv(cfg, t) && t.eng.signaled && t.eng.fired == s.eng.fired
            && (HasFired(Tracked(t, id, name)) <==> HasFired(Tracked(s, id, name)))
            && (IsClosed(Tracked(t, id, name)) <==>
                CloseStands(cfg, clock, s, id, name, mask, between) || ClosedLater(cfg, clock, s, id, name, mask, between))
  {
    var s, close := Run(cfg, clock, before), Add(id, name, mask);
    var s1 := Next(cfg, clock, s, close);
    RunKeepsInv(cfg, clock, before);
    NextKeepsInv(cfg, clock, s, close);
    ExecSnoc(cfg, clock, Init(), before, close);
    ExecConcat(cfg, clock, Init(), before + [close], between);
    ProducerStep(cfg, clock, s, close, id, name);
    ProducerWindow(cfg, clock, s1, between, id, name);
    ProducerOnly(cfg, clock, s1, between);
    assert s1.adds > 0;
  }

  /** A close event of a tracked open file is followed, at the consumer's next turn and
      whatever the producer does until then, by a close command exactly when there is one
      and the close stands, or a later one does, and the open has fired or is due. */
  lemma CloseAnsweredExactly(cfg: Config, clock: Clock, before: seq<Step>, id: int, name: string, mask: nat, between: seq<Step>)
    requires IsCloseEvent(mask) && ProducerSteps(between)
    requires Run(cfg, clock, before).pending.Some? && IsOpen(Tracked(Run(cfg, clock, before), id, name))
    ensures var s, t := Run(cfg, clock, before), Run(cfg, clock, before + [Add(id, name, mask)] + between);
            var after := Next(cfg, clock, t, Turn(t));
            var shut := CloseStands(cfg, clock, s, id, name, mask, between) || ClosedLater(cfg, clock, s, id, name, mask, between);
            var fired, due := HasFired(Tracked(s, id, name)), OpenDueNext(cfg, clock, t, id, name);
            && Project(after.eng.fired, id, name) == Project(s.eng.fired, id, name)
               + (if due then [OpenCommand] else [])
               + (if shut && (fired || due) && cfg.closeCmd != "" then [CloseCommand] else [])
            && (shut && (fired || due) ==> Tracked(after, id, name).None?)
            && (!shut && fired ==> IsOpen(Tracked(after, id, name)) && HasFired(Tracked(after, id, name)))
  {
    BeforeTurn(cfg, clock, before, id, name, mask, between);
    var t := Run(cfg, clock, before + [Add(id, name, mask)] + between);
    hide Run, Next, Inv, Turn, OpenDueNext, Tracked, CloseStands, ClosedLater;
    TurnExactly(cfg, clock, t, id, name);
  }

  /** A file closed past the delay and opened again before the consumer's turn: the close
      event is lost, no command is fired, and the file stays tracked as open. */
  lemma ReopeningSwallowsClose(cfg: Config, clock: Clock, before: seq<Step>, id: int, name: string, mask: nat, openMask: nat)
    requires IsCloseEvent(mask) && OpensFile(openMask)
    requires var s := Run(cfg, clock, before);
             s.pending.Some? && IsOpen(Tracked(s, id, name)) && HasFired(Tracked(s, id, name))
    ensures var s := Run(cfg, clock, before);
            var t := Run(cfg, clock, before + [Add(id, name, mask)] + [ReadTick, Add(id, name, openMask)]);
            var after := Next(cfg, clock, t, Turn(t));
            && Project(after.eng.fired, id, name) == Project(s.eng.fired, id, name)
            && IsOpen(Tracked(after, id, name)) && HasFired(Tracked(after, id, name))
  {
    var between := [ReadTick, Add(id, name, openMask)];
    var s := Run(cfg, clock, before);
    var s1 := Next(cfg, clock, s, Add(id, name, mask));
    var t := Run(cfg, clock, before + [Add(id, name, mask)] + between);
    CloseAnsweredExactly(cfg, clock, before, id, name, mask, between);
    BeforeTurn(cfg, clock, before, id, name, mask, between);
    assert between[..0] == [] && between[..1] == [] + [ReadTick];
    ExecSnoc(cfg, clock, s1, [], ReadTick);
    assert Opens(Exec(cfg, clock, s1, between[..1]), between[1], id, name);
    assert !Closes(cfg, clock, Exec(cfg, clock, s1, between[..0]), between[0], id, name);
    assert !Closes(cfg, clock, Exec(cfg, clock, s1, between[..1]), between[1], id, name);
    assert !OpenDueNext(cfg, clock, t, id, name);
  }

  /** Opened; closed far past the delay; opened again before the consumer's turn. */
  const SwallowedClose: seq<Step> :=
    [ReadTick, Add(1, "f", IN_OPEN), Lock] + [ReadTick]
    + [Add(1, "f", IN_CLOSE_WRITE)] + [ReadTick, Add(1, "f", IN_OPEN)]

  /** From rest, an opening round and a tick read leave the file open far past the delay. */
  lemma OpenedFarAgo(cfg: Config, opening: seq<Step>)
    requires CanFire(cfg) && opening == [ReadTick, Add(1, "f", IN_OPEN), Lock]
    ensures var s := Run(cfg, SteadyClock, opening + [ReadTick]);
            && s.pending.Some? && Project(s.eng.fired, 1, "f") == [OpenCommand]
            && IsOpen(Tracked(s, 1, "f")) && HasFired(Tracked(s, 1, "f"))
            && PastDelay(cfg, SteadyClock, s.eng.ticker, Tracked(s, 1, "f").value)
  {
    AtRest();
    hide *;
    OpenRound(cfg, Init(), 0);
    ExecSnoc(cfg, SteadyClock, Init(), opening, ReadTick);
    LongOpen(cfg, Exec(cfg, SteadyClock, Init(), opening));
    RunIs(cfg, SteadyClock, opening + [ReadTick]);
    assert [] + [OpenCommand] == [OpenCommand];
  }

  lemma AtRest()
    ensures Resting(Init(), 0) && Init().eng.files == [] && Project(Init().eng.fired, 1, "f") == []
  {
  }

  lemma RunIs(cfg: Config, clock: Clock, steps: seq<Step>)
    ensures Run(cfg, clock, steps) == Exec(cfg, clock, Init(), steps)
  {
  }

  lemma LongOpen(cfg: Config, r: System)
    requires CanFire(cfg) && Resting(r, 2) && r.eng.files == [OpenedFile(0)]
    ensures var s := Next(cfg, SteadyClock, r, ReadTick);
            && s.pending.Some? && s.eng.fired == r.eng.fired
            && IsOpen(Tracked(s, 1, "f")) && HasFired(Tracked(s, 1, "f"))
            && PastDelay(cfg, SteadyClock, s.eng.ticker, Tracked(s, 1, "f").value)
  {
    SteadyTick(r.eng.ticker);
    var s := Next(cfg, SteadyClock, r, ReadTick);
    assert Tracked(s, 1, "f") == Some(OpenedFile(0));
    SteadyTick(s.eng.ticker);
  }

  /** Such a run exists under every configuration that can fire an open command. */
  lemma CloseCanBeSwallowed(cfg: Config)
    requires CanFire(cfg)
    ensures var s := Run(cfg, SteadyClock, [ReadTick, Add(1, "f", IN_OPEN), Lock] + [ReadTick]);
            && IsOpen(Tracked(s, 1, "f")) && PastDelay(cfg, SteadyClock, s.eng.ticker, Tracked(s, 1, "f").value)
    ensures var t := Run(cfg, SteadyClock, SwallowedClose);
            var after := Next(cfg, SteadyClock, t, Turn(t));
            Project(after.eng.fired, 1, "f") == [OpenCommand] && IsOpen(Tracked(after, 1, "f"))
  {
    assert IsCloseEvent(IN_CLOSE_WRITE) && OpensFile(IN_OPEN);
    hide *;
    var opening: seq<Step> := [ReadTick, Add(1, "f", IN_OPEN), Lock];
    OpenedFarAgo(cfg, opening);
    ReopeningSwallowsClose(cfg, SteadyClock, opening + [ReadTick], 1, "f", IN_CLOSE_WRITE, IN_OPEN);
  }
}
