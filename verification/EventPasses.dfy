/** One consumer pass and one event, file by file: what they fire, keep and forget. */
module EventPasses {
  import opened CStrings
  import opened Sequences
  import opened EventModel
  import opened EventRuns
  import opened EventTheorems
  import opened EventTiming

  // ---- No closed file survives a pass --------------------------------------

  /** The pass as it stands when its first loop reaches the file at `i`. */
  function Reaching(cfg: Config, clock: Clock, e: Engine, curWait: nat, i: nat): Pass
    requires i <= |e.files|
  {
    VisitAll(cfg, clock, Pass(e.ticker, curWait, e.fired), e.files[..i]).0
  }

  lemma {:induction false} VisitAllAt(cfg: Config, clock: Clock, p: Pass, files: seq<File>, i: nat)
    requires i < |files|
    ensures VisitAll(cfg, clock, p, files).1[i] ==
            Visit(cfg, clock, VisitAll(cfg, clock, p, files[..i]).0, files[i]).1
  {
    if i < |files| - 1 {
      VisitAllAt(cfg, clock, p, files[..|files| - 1], i);
      assert files[..|files| - 1][..i] == files[..i];
    }
  }

  /** The clock answers when the pass reaches the file. */
  predicate ReadingSucceeds(cfg: Config, clock: Clock, e: Engine, curWait: nat, i: nat)
    requires i <= |e.files|
  {
    clock(Reaching(cfg, clock, e, curWait, i).ticker.calls).Time?
  }

  lemma ClosedIsMarked(cfg: Config, clock: Clock, e: Engine, curWait: nat, i: nat)
    requires FilesInv(cfg, e) && i < |e.files| && e.files[i].isClosed
    ensures var done := VisitAll(cfg, clock, Pass(e.ticker, curWait, e.fired), e.files).1;
            done[i].remove <==>
              e.files[i].firedOpen || (cfg.openCmd != "" && ReadingSucceeds(cfg, clock, e, curWait, i))
  {
    var p, f := Pass(e.ticker, curWait, e.fired), e.files[i];
    var q := Reaching(cfg, clock, e, curWait, i);
    assert FileInv(cfg, e.ticker.last, f);
    VisitAllTicks(cfg, clock, p, e.files[..i]);
    VisitAllAt(cfg, clock, p, e.files, i);
    VisitFile(cfg, clock, q, f, e.ticker.last);
    TickIsNotSentinel(clock, q.ticker);
  }

  ghost predicate SomeClosed(files: seq<File>) {
    exists f :: f in files && f.isClosed
  }

  /** A pass leaves no closed file exactly when each closed file had its open fired
      already, or the open command is there and the clock answers for that file. */
  lemma PassClearsClosed(cfg: Config, clock: Clock, steps: seq<Step>, curWait: nat)
    ensures var e := Run(cfg, clock, steps).eng;
            !SomeClosed(ConsumerPass(cfg, clock, e, curWait).0.files) <==>
              forall i | 0 <= i < |e.files| && e.files[i].isClosed ::
                e.files[i].firedOpen || (cfg.openCmd != "" && ReadingSucceeds(cfg, clock, e, curWait, i))
  {
    RunKeepsInv(cfg, clock, steps);
    var e := Run(cfg, clock, steps).eng;
    var p := Pass(e.ticker, curWait, e.fired);
    var done := VisitAll(cfg, clock, p, e.files).1;
    VisitAllChanges(cfg, clock, p, e.files, e.ticker.last);
    SweepKeeps(done);
    forall i | 0 <= i < |e.files| && e.files[i].isClosed
      ensures done[i] in Sweep(done) <==>
              !(e.files[i].firedOpen || (cfg.openCmd != "" && ReadingSucceeds(cfg, clock, e, curWait, i)))
    {
      ClosedIsMarked(cfg, clock, e, curWait, i);
    }
    forall i | 0 <= i < |e.files|
      ensures done[i].isClosed == e.files[i].isClosed
    {
      assert Visited(cfg, e.files[i], done[i]);
    }
  }

  /** With an open command and a clock that answers, nothing closed is left behind. */
  lemma NoClosedAfterPass(cfg: Config, clock: Clock, steps: seq<Step>, curWait: nat)
    requires cfg.openCmd != ""
    requires var t := Run(cfg, clock, steps).eng.ticker;
             forall n | t.calls <= n :: clock(n).Time?
    ensures !SomeClosed(ConsumerPass(cfg, clock, Run(cfg, clock, steps).eng, curWait).0.files)
  {
    RunKeepsInv(cfg, clock, steps);
    var e := Run(cfg, clock, steps).eng;
    forall i | 0 <= i < |e.files|
      ensures ReadingSucceeds(cfg, clock, e, curWait, i)
    {
      VisitAllTicks(cfg, clock, Pass(e.ticker, curWait, e.fired), e.files[..i]);
    }
    PassClearsClosed(cfg, clock, steps, curWait);
  }

  // ---- A file closed too soon ----------------------------------------------

  lemma VisitOthers(cfg: Config, clock: Clock, p: Pass, f: File, id: int, name: string)
    requires !SameFile(f, id, name)
    ensures var (p', f') := Visit(cfg, clock, p, f);
            !SameFile(f', id, name) && Project(p'.fired, id, name) == Project(p.fired, id, name)
  {
    var (q, g) := VisitOpen(cfg, clock, p, f);
    OthersUnchanged(p.fired, q.fired, f, id, name);
    assert SameFile(g, f.id, f.name);
    OthersUnchanged(q.fired, VisitClose(cfg, q, g).0.fired, f, id, name);
  }

  lemma OthersUnchanged(before: seq<Command>, after: seq<Command>, f: File, id: int, name: string)
    requires !SameFile(f, id, name)
    requires after == before ||
             (|after| == |before| + 1 && after[..|before|] == before && SameFile(f, after[|before|].id, after[|before|].name))
    ensures Project(after, id, name) == Project(before, id, name)
  {
    if after != before {
      assert after == before + [after[|before|]];
      ProjectSnoc(before, after[|before|], id, name);
    }
  }

  lemma {:induction false} VisitAllOthers(cfg: Config, clock: Clock, p: Pass, files: seq<File>, id: int, name: string)
    requires Untracked(files, id, name)
    ensures var (p', done) := VisitAll(cfg, clock, p, files);
            Untracked(done, id, name) && Project(p'.fired, id, name) == Project(p.fired, id, name)
  {
    if files != [] {
      var init, f := files[..|files| - 1], files[|files| - 1];
      assert forall g | g in init :: g in files;
      VisitAllOthers(cfg, clock, p, init, id, name);
      VisitOthers(cfg, clock, VisitAll(cfg, clock, p, init).0, f, id, name);
    }
  }

  predicate Reopens(step: Step, id: int, name: string) {
    step.Add? && step.id == id && step.name == name && OpensFile(step.mask)
  }

  lemma PassSilent(cfg: Config, clock: Clock, e: Engine, curWait: nat, id: int, name: string)
    requires Untracked(e.files, id, name)
    ensures var e' := ConsumerPass(cfg, clock, e, curWait).0;
            Untracked(e'.files, id, name) && Project(e'.fired, id, name) == Project(e.fired, id, name)
  {
    var p := Pass(e.ticker, curWait, e.fired);
    VisitAllOthers(cfg, clock, p, e.files, id, name);
    SweepKeeps(VisitAll(cfg, clock, p, e.files).1);
  }

  lemma AddSilent(cfg: Config, clock: Clock, e: Engine, ev: Event, id: int, name: string)
    requires Untracked(e.files, id, name)
    requires OpensFile(ev.mask) ==> !(ev.id == id && ev.name == name)
    ensures Untracked(AddEvent(cfg, clock, e, ev).files, id, name)
  {
    var i := FindFile(e.files, ev.id, ev.name);
    var e' := AddEvent(cfg, clock, e, ev);
    assert i < |e.files| ==> e.files[i] in e.files;
    forall f | f in e'.files
      ensures f in e.files || !SameFile(f, id, name)
    {
    }
  }

  lemma NextSilent(cfg: Config, clock: Clock, s: System, step: Step, id: int, name: string)
    requires Untracked(s.eng.files, id, name) && !Reopens(step, id, name)
    ensures var s' := Next(cfg, clock, s, step);
            && Untracked(s'.eng.files, id, name)
            && Project(s'.eng.fired, id, name) == Project(s.eng.fired, id, name)
  {
    match step
    case ReadTick =>
    case Add(i, n, mask) =>
      if s.pending.Some? {
        AddSilent(cfg, clock, s.eng, Event(i, n, mask, s.pending.value), id, name);
      }
    case Lock => PassSilent(cfg, clock, s.eng, s.curWait, id, name);
    case Wake => PassSilent(cfg, clock, s.eng, Threshold(cfg.delay), id, name);
  }

  /** A file that is not tracked stays silent until it is opened again. */
  lemma {:induction false} SilentUntilReopened(cfg: Config, clock: Clock, s: System, steps: seq<Step>, id: int, name: string)
    requires Untracked(s.eng.files, id, name)
    requires forall step | step in steps :: !Reopens(step, id, name)
    ensures var s' := Exec(cfg, clock, s, steps);
            && Untracked(s'.eng.files, id, name)
            && Project(s'.eng.fired, id, name) == Project(s.eng.fired, id, name)
  {
    if steps != [] {
      var init := steps[..|steps| - 1];
      assert forall step | step in init :: step in steps;
      SilentUntilReopened(cfg, clock, s, init, id, name);
      NextSilent(cfg, clock, Exec(cfg, clock, s, init), steps[|steps| - 1], id, name);
    }
  }

  /** A close within the delay, before the open has fired, forgets the file: no command
      fires for it in any continuation of the run without a new open event. */
  lemma EarlyCloseSilences(cfg: Config, clock: Clock, before: seq<Step>, id: int, name: string, mask: nat, after: seq<Step>)
    requires IsCloseEvent(mask)
    requires var s := Run(cfg, clock, before);
             var i := FindFile(s.eng.files, id, name);
             && s.pending.Some?
             && i < |s.eng.files| && !s.eng.files[i].isClosed && !s.eng.files[i].firedOpen
             && OpenDelta(clock, s.eng.ticker, s.eng.files[i]).0 <= Threshold(cfg.delay)
    requires forall step | step in after :: !Reopens(step, id, name)
    ensures Project(Run(cfg, clock, before + [Add(id, name, mask)] + after).eng.fired, id, name) ==
            Project(Run(cfg, clock, before).eng.fired, id, name)
  {
    RunKeepsInv(cfg, clock, before);
    var s := Run(cfg, clock, before);
    var s' := Next(cfg, clock, s, Add(id, name, mask));
    var i := FindFile(s.eng.files, id, name);
    assert s'.eng.files == Without(s.eng.files, i);
    assert Untracked(s'.eng.files, id, name);
    SilentUntilReopened(cfg, clock, s', after, id, name);
    ExecSnoc(cfg, clock, Init(), before, Add(id, name, mask));
    ExecConcat(cfg, clock, Init(), before + [Add(id, name, mask)], after);
  }

  // ---- What a pass fires, exactly ------------------------------------------

  /** The open command is due when the pass `q` reaches the file. */
  predicate OpenDue(cfg: Config, clock: Clock, q: Pass, f: File) {
    !f.firedOpen && cfg.openCmd != "" && OpenDelta(clock, q.ticker, f).0 > Threshold(cfg.delay)
  }

  /** The file ends with this pass: it is closed, and its open has been or is now fired. */
  predicate Ends(cfg: Config, clock: Clock, q: Pass, f: File) {
    f.isClosed && (f.firedOpen || OpenDue(cfg, clock, q, f))
  }

  function Due(cfg: Config, clock: Clock, q: Pass, f: File): seq<Kind> {
    (if OpenDue(cfg, clock, q, f) then [OpenCommand] else [])
    + if Ends(cfg, clock, q, f) && cfg.closeCmd != "" then [CloseCommand] else []
  }

  /** The file as a pass that does not end it leaves it. */
  function Kept(cfg: Config, clock: Clock, q: Pass, f: File): File {
    f.(firedOpen := f.firedOpen || OpenDue(cfg, clock, q, f))
  }

  lemma OpenExactly(cfg: Config, clock: Clock, q: Pass, f: File)
    requires !f.firedClosed
    ensures var (r, g) := VisitOpen(cfg, clock, q, f);
            && g == Kept(cfg, clock, q, f)
            && Project(r.fired, f.id, f.name) ==
               Project(q.fired, f.id, f.name) + if OpenDue(cfg, clock, q, f) then [OpenCommand] else []
  {
    hide GetTick, CommandText;
    if OpenDue(cfg, clock, q, f) {
      var r := VisitOpen(cfg, clock, q, f).0;
      ProjectSnoc(q.fired, r.fired[|q.fired|], f.id, f.name);
    }
  }

  lemma CloseExactly(cfg: Config, r: Pass, g: File)
    requires !g.firedClosed && !g.remove && (g.isClosed <==> g.closeTs != SENTINEL)
    ensures var (p', f') := VisitClose(cfg, r, g);
            var ends := g.isClosed && g.firedOpen;
            && SameFile(f', g.id, g.name) && f'.remove == ends && (!ends ==> f' == g)
            && Project(p'.fired, g.id, g.name) ==
               Project(r.fired, g.id, g.name) + if ends && cfg.closeCmd != "" then [CloseCommand] else []
  {
    hide CommandText;
    if g.isClosed && g.firedOpen && cfg.closeCmd != "" {
      var p' := VisitClose(cfg, r, g).0;
      ProjectSnoc(r.fired, p'.fired[|r.fired|], g.id, g.name);
    }
  }

  lemma VisitExactly(cfg: Config, clock: Clock, q: Pass, f: File, last: nat)
    requires FileInv(cfg, last, f)
    ensures var (p', f') := Visit(cfg, clock, q, f);
            && SameFile(f', f.id, f.name)
            && (f'.remove <==> Ends(cfg, clock, q, f))
            && (!f'.remove ==> f' == Kept(cfg, clock, q, f))
            && Project(p'.fired, f.id, f.name) == Project(q.fired, f.id, f.name) + Due(cfg, clock, q, f)
  {
    hide VisitOpen, VisitClose, OpenDue, Project;
    OpenExactly(cfg, clock, q, f);
    var (r, g) := VisitOpen(cfg, clock, q, f);
    CloseExactly(cfg, r, g);
  }

  lemma {:induction false} VisitAllExactly(cfg: Config, clock: Clock, p: Pass, files: seq<File>, i: nat, last: nat)
    requires DistinctFiles(files) && i < |files| && FileInv(cfg, last, files[i])
    ensures var f, q := files[i], VisitAll(cfg, clock, p, files[..i]).0;
            Project(VisitAll(cfg, clock, p, files).0.fired, f.id, f.name) ==
            Project(p.fired, f.id, f.name) + Due(cfg, clock, q, f)
  {
    hide Visit, Due;
    var init, g, f := files[..|files| - 1], files[|files| - 1], files[i];
    var q := VisitAll(cfg, clock, p, init).0;
    if i < |files| - 1 {
      VisitAllExactly(cfg, clock, p, init, i, last);
      assert init[..i] == files[..i];
      VisitOthers(cfg, clock, q, g, f.id, f.name);
    } else {
      assert init == files[..i];
      VisitAllOthers(cfg, clock, p, init, f.id, f.name);
      VisitExactly(cfg, clock, q, f, last);
    }
  }

  /** A pass fires, for each tracked file, exactly what is due when it reaches the file;
      it forgets the files that end, and keeps every other with its open marked as fired. */
  lemma PassExactly(cfg: Config, clock: Clock, e: Engine, curWait: nat, i: nat)
    requires FilesInv(cfg, e) && i < |e.files|
    ensures var f, q := e.files[i], Reaching(cfg, clock, e, curWait, i);
            var e' := ConsumerPass(cfg, clock, e, curWait).0;
            && Project(e'.fired, f.id, f.name) == Project(e.fired, f.id, f.name) + Due(cfg, clock, q, f)
            && (Ends(cfg, clock, q, f) ==> Untracked(e'.files, f.id, f.name))
            && (!Ends(cfg, clock, q, f) ==> Kept(cfg, clock, q, f) in e'.files)
  {
    var p, f := Pass(e.ticker, curWait, e.fired), e.files[i];
    var q := Reaching(cfg, clock, e, curWait, i);
    var done := VisitAll(cfg, clock, p, e.files).1;
    assert FileInv(cfg, e.ticker.last, f);
    VisitAllExactly(cfg, clock, p, e.files, i, e.ticker.last);
    VisitAllAt(cfg, clock, p, e.files, i);
    VisitExactly(cfg, clock, q, f, e.ticker.last);
    VisitAllChanges(cfg, clock, p, e.files, e.ticker.last);
    hide Visit, VisitAll, Ends, Kept, Due;
    SweepKeeps(done);
    assert done[i] in done;
    forall g | g in done && SameFile(g, f.id, f.name)
      ensures g == done[i]
    {
      var j :| 0 <= j < |done| && done[j] == g;
      assert Visited(cfg, e.files[j], done[j]);
    }
  }

  // ---- What an event does, exactly -----------------------------------------

  /** The tracked file of that id and name. */
  function Lookup(files: seq<File>, id: int, name: string): (r: Option<File>)
    ensures r.Some? ==> r.value in files && SameFile(r.value, id, name)
    ensures r.None? ==> forall f | f in files :: !SameFile(f, id, name)
  {
    var i := FindFile(files, id, name);
    if i < |files| then Some(files[i]) else None
  }

  lemma LookupIs(files: seq<File>, f: File)
    requires DistinctFiles(files) && f in files
    ensures Lookup(files, f.id, f.name) == Some(f)
  {
  }

  lemma LookupUpdate(files: seq<File>, i: nat, f: File, id: int, name: string)
    requires DistinctFiles(files) && i < |files| && SameFile(f, files[i].id, files[i].name)
    ensures Lookup(files[i := f], id, name) == if SameFile(f, id, name) then Some(f) else Lookup(files, id, name)
  {
    assert Lookup(files, id, name).Some? && !SameFile(f, id, name) ==>
      files[i := f][FindFile(files, id, name)] == files[FindFile(files, id, name)];
    SameLookup(files, files[i := f], i, id, name);
  }

  /** Replacing the file at `i` by one of the same id and name moves no search. */
  lemma SameLookup(files: seq<File>, files': seq<File>, i: nat, id: int, name: string)
    requires i < |files| == |files'| && SameFile(files'[i], files[i].id, files[i].name)
    requires forall j | 0 <= j < |files| && j != i :: files'[j] == files[j]
    ensures FindFile(files', id, name) == FindFile(files, id, name)
  {
  }

  lemma LookupWithout(files: seq<File>, i: nat, id: int, name: string)
    requires DistinctFiles(files) && i < |files|
    ensures Lookup(Without(files, i), id, name) == if SameFile(files[i], id, name) then None else Lookup(files, id, name)
  {
    var r := Lookup(files, id, name);
    assert files == files[..i] + [files[i]] + files[i + 1..];
    if r.Some? && !SameFile(files[i], id, name) {
      assert r.value in Without(files, i);
    }
    var k := FindFile(Without(files, i), id, name);
    if k < |files| - 1 {
      assert Without(files, i)[k] == files[if k < i then k else k + 1];
    }
  }

  lemma LookupSnoc(files: seq<File>, f: File, id: int, name: string)
    requires forall g | g in files :: !SameFile(g, f.id, f.name)
    ensures Lookup(files + [f], id, name) == if SameFile(f, id, name) then Some(f) else Lookup(files, id, name)
  {
    var r, k := Lookup(files, id, name), FindFile(files + [f], id, name);
    assert SameFile(f, id, name) ==> (files + [f])[|files|] == f;
    if r.Some? {
      assert (files + [f])[FindFile(files, id, name)] == r.value;
    }
    assert k < |files| ==> (files + [f])[k] == files[k];
  }

  /** The close event finds the file open past the delay. */
  predicate PastDelay(cfg: Config, clock: Clock, t: Ticker, f: File) {
    OpenDelta(clock, t, f).0 > Threshold(cfg.delay)
  }

  /** The event reads the clock once to measure the delay and once more for its own time. */
  function CloseTime(clock: Clock, t: Ticker): nat {
    GetTick(clock, GetTick(clock, t).1).0
  }

  /** An event changes no file but its own. */
  lemma AddKeepsOthers(cfg: Config, clock: Clock, e: Engine, ev: Event, id: int, name: string)
    requires DistinctFiles(e.files) && !(ev.id == id && ev.name == name)
    ensures Lookup(AddEvent(cfg, clock, e, ev).files, id, name) == Lookup(e.files, id, name)
  {
    var i := FindFile(e.files, ev.id, ev.name);
    hide GetTick, Threshold, Lookup, Without;
    if i < |e.files| {
      LookupUpdate(e.files, i, CloseFile(e.files[i], CloseTime(clock, e.ticker)), id, name);
      LookupUpdate(e.files, i, ResetToOpen(e.files[i], ev.timestamp), id, name);
      LookupWithout(e.files, i, id, name);
    } else {
      LookupSnoc(e.files, NewFile(ev.id, ev.name, ev.timestamp), id, name);
    }
  }

  /** A close event of an open file closes it past the delay; otherwise it forgets the file
      if the open has not fired, and leaves it if it has. */
  lemma CloseEventExactly(cfg: Config, clock: Clock, e: Engine, ev: Event)
    requires DistinctFiles(e.files) && IsCloseEvent(ev.mask)
    ensures var before := Lookup(e.files, ev.id, ev.name);
            var after := Lookup(AddEvent(cfg, clock, e, ev).files, ev.id, ev.name);
            && (before.None? ==> after.None?)
            && (before.Some? && before.value.isClosed ==> after == before)
            && (before.Some? && !before.value.isClosed ==>
                  if PastDelay(cfg, clock, e.ticker, before.value)
                  then after == Some(CloseFile(before.value, CloseTime(clock, e.ticker)))
                  else if before.value.firedOpen then after == before else after.None?)
  {
    var i := FindFile(e.files, ev.id, ev.name);
    if i < |e.files| {
      LookupUpdate(e.files, i, CloseFile(e.files[i], CloseTime(clock, e.ticker)), ev.id, ev.name);
      LookupWithout(e.files, i, ev.id, ev.name);
    }
    hide GetTick, Threshold, Without;
  }

  /** An open event starts tracking an untracked file and reopens a closed one, whose
      fired open is remembered; an open file keeps its timestamp. */
  lemma OpenEventExactly(cfg: Config, clock: Clock, e: Engine, ev: Event)
    requires DistinctFiles(e.files) && OpensFile(ev.mask)
    ensures var before := Lookup(e.files, ev.id, ev.name);
            var after := Lookup(AddEvent(cfg, clock, e, ev).files, ev.id, ev.name);
            if before.Some? && !before.value.isClosed then after == before
            else
              && after.Some? && !after.value.isClosed
              && after.value.openTs == ev.timestamp && after.value.closeTs == SENTINEL
              && (after.value.firedOpen <==> before.Some? && before.value.firedOpen)
  {
    var i := FindFile(e.files, ev.id, ev.name);
    if i < |e.files| {
      LookupUpdate(e.files, i, ResetToOpen(e.files[i], ev.timestamp), ev.id, ev.name);
    } else {
      LookupSnoc(e.files, NewFile(ev.id, ev.name, ev.timestamp), ev.id, ev.name);
    }
  }

  /** Any event signals the consumer and fires nothing; one that neither opens nor closes
      changes no file. */
  lemma OtherEventExactly(cfg: Config, clock: Clock, e: Engine, ev: Event)
    ensures var e' := AddEvent(cfg, clock, e, ev);
            && e'.signaled && e'.fired == e.fired
            && (!IsCloseEvent(ev.mask) && !OpensFile(ev.mask) ==> e' == e.(signaled := true))
  {
  }
}
