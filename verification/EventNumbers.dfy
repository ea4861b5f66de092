/** The engine in plain numbers: what the clock, the configured delay, the bits of an event
    mask and the configured command texts come to, over every run. */
module EventNumbers {
  import opened CStrings
  import opened EventModel
  import opened EventRuns
  import opened EventTheorems
  import opened EventTiming
  import opened EventPasses
  import StrReplace

  // ---- Ticks ---------------------------------------------------------------

  /** The tick of a successful reading. */
  function TickOf(r: Reading): nat
    requires r.Time?
  {
    r.sec * 1000000 + r.nsec / 1000000
  }

  /** `last` is the largest tick of the first `calls` readings, or 0 if all have failed. */
  ghost predicate IsLargest(clock: Clock, calls: nat, last: nat) {
    && (forall n: nat | n < calls && clock(n).Time? :: TickOf(clock(n)) <= last)
    && (last == 0 || exists n: nat :: n < calls && clock(n).Time? && TickOf(clock(n)) == last)
  }

  /** A successful reading returns the largest tick so far, a failed one 0. */
  lemma ReadingIsLargest(clock: Clock, t: Ticker)
    requires IsLargest(clock, t.calls, t.last)
    ensures var (tick, t') := GetTick(clock, t);
            && t'.calls == t.calls + 1 && IsLargest(clock, t'.calls, t'.last)
            && tick == if clock(t.calls).Time? then t'.last else 0
  {
  }

  lemma VisitKeepsLargest(cfg: Config, clock: Clock, p: Pass, f: File)
    requires IsLargest(clock, p.ticker.calls, p.ticker.last)
    ensures var t := Visit(cfg, clock, p, f).0.ticker; IsLargest(clock, t.calls, t.last)
  {
    ReadingIsLargest(clock, p.ticker);
    var t := GetTick(clock, p.ticker).1;
    ReadingIsLargest(clock, t);
    ReadingIsLargest(clock, GetTick(clock, t).1);
    hide GetTick, IsLargest, CommandText, Threshold;
  }

  lemma {:induction false} VisitAllKeepsLargest(cfg: Config, clock: Clock, p: Pass, files: seq<File>)
    requires IsLargest(clock, p.ticker.calls, p.ticker.last)
    ensures var t := VisitAll(cfg, clock, p, files).0.ticker; IsLargest(clock, t.calls, t.last)
  {
    if files != [] {
      hide Visit, IsLargest;
      var init := files[..|files| - 1];
      VisitAllKeepsLargest(cfg, clock, p, init);
      VisitKeepsLargest(cfg, clock, VisitAll(cfg, clock, p, init).0, files[|files| - 1]);
    }
  }

  lemma AddKeepsLargest(cfg: Config, clock: Clock, e: Engine, ev: Event)
    requires IsLargest(clock, e.ticker.calls, e.ticker.last)
    ensures var t := AddEvent(cfg, clock, e, ev).ticker; IsLargest(clock, t.calls, t.last)
  {
    ReadingIsLargest(clock, e.ticker);
    ReadingIsLargest(clock, GetTick(clock, e.ticker).1);
    hide GetTick, IsLargest, Threshold, HasBit;
  }

  /** After every run the last tick is the largest of the readings made so far. */
  lemma {:induction false} LastTickIsLargest(cfg: Config, clock: Clock, steps: seq<Step>)
    ensures var t := Run(cfg, clock, steps).eng.ticker; IsLargest(clock, t.calls, t.last)
  {
    if steps != [] {
      hide GetTick, IsLargest, VisitAll, AddEvent;
      var init, step := steps[..|steps| - 1], steps[|steps| - 1];
      var s := Run(cfg, clock, init);
      LastTickIsLargest(cfg, clock, init);
      match step
      case ReadTick => ReadingIsLargest(clock, s.eng.ticker);
      case Add(id, name, mask) =>
        if s.pending.Some? {
          AddKeepsLargest(cfg, clock, s.eng, Event(id, name, mask, s.pending.value));
        }
      case Lock => VisitAllKeepsLargest(cfg, clock, Pass(s.eng.ticker, s.curWait, s.eng.fired), s.eng.files);
      case Wake => VisitAllKeepsLargest(cfg, clock, Pass(s.eng.ticker, Threshold(cfg.delay), s.eng.fired), s.eng.files);
    } else {
      assert IsLargest(clock, 0, 0);
    }
  }

  /** The timestamp of the producer's next event is the largest tick read so far. */
  lemma TimestampIsLargest(cfg: Config, clock: Clock, steps: seq<Step>)
    requires Run(cfg, clock, steps).pending.None?
    ensures var n := Run(cfg, clock, steps).eng.ticker.calls;
            var s := Run(cfg, clock, steps + [ReadTick]);
            && s.eng.ticker.calls == n + 1 && IsLargest(clock, n + 1, s.eng.ticker.last)
            && s.pending == Some(if clock(n).Time? then s.eng.ticker.last else 0)
  {
    LastTickIsLargest(cfg, clock, steps);
    ExecSnoc(cfg, clock, Init(), steps, ReadTick);
    ReadingIsLargest(clock, Run(cfg, clock, steps).eng.ticker);
  }

  // ---- The configured delay ------------------------------------------------

  /** The reading with number `calls` gives a tick more than `delay` after `openTs`. */
  predicate ReadsLater(clock: Clock, t: Ticker, openTs: nat, delay: int) {
    clock(t.calls).Time? && (TickOf(clock(t.calls)) > openTs + delay || t.last > openTs + delay)
  }

  lemma PastDelayInNumbers(cfg: Config, clock: Clock, t: Ticker, f: File)
    requires TickLike(t.last)
    ensures PastDelay(cfg, clock, t, f) <==> cfg.delay >= 0 && ReadsLater(clock, t, f.openTs, cfg.delay)
  {
    TickIsNotSentinel(clock, t);
  }

  /** With a delay that is not negative, every open command fired is later than the open
      event it answers by more than the delay; with a negative one none is ever fired. */
  lemma OpensFireLate(cfg: Config, clock: Clock, steps: seq<Step>, n: nat)
    requires n < |Run(cfg, clock, steps).eng.fired| && Run(cfg, clock, steps).eng.fired[n].kind.OpenCommand?
    ensures var c := Run(cfg, clock, steps).eng.fired[n]; cfg.delay >= 0 && c.tick - c.openTs > cfg.delay
  {
    NoEarlyOpen(cfg, clock, steps, n);
    var c := Run(cfg, clock, steps).eng.fired[n];
    var j :| 0 <= j < |steps| && FiredAt(cfg, clock, steps, j, n, c);
    RunKeepsInv(cfg, clock, steps[..j + 1]);
  }

  /** The same for closed files, while no reading has failed. */
  lemma ClosesComeLate(cfg: Config, clock: Clock, steps: seq<Step>, f: File)
    requires f in Run(cfg, clock, steps).eng.files && f.isClosed
    ensures cfg.delay >= 0
    ensures (forall n: nat | n < Run(cfg, clock, steps).eng.ticker.calls :: clock(n).Time?) ==>
              f.closeTs - f.openTs > cfg.delay
  {
    RunKeepsInv(cfg, clock, steps);
    if forall n: nat | n < Run(cfg, clock, steps).eng.ticker.calls :: clock(n).Time? {
      ClosedPastDelay(cfg, clock, steps, f);
    }
  }

  /** A pass fires the open of an unfired file exactly when there is an open command, the
      delay is not negative, and the reading made for the file, or one before it, is later
      than its open by more than the delay. */
  lemma OpenFiresExactly(cfg: Config, clock: Clock, steps: seq<Step>, curWait: nat, i: nat)
    requires var e := Run(cfg, clock, steps).eng; i < |e.files| && !e.files[i].firedOpen
    ensures var e := Run(cfg, clock, steps).eng;
            var f, t := e.files[i], Reaching(cfg, clock, e, curWait, i).ticker;
            var fires := cfg.openCmd != "" && cfg.delay >= 0 && ReadsLater(clock, t, f.openTs, cfg.delay);
            && IsLargest(clock, t.calls, t.last)
            && Project(ConsumerPass(cfg, clock, e, curWait).0.fired, f.id, f.name) ==
               Project(e.fired, f.id, f.name)
               + (if fires then [OpenCommand] else [])
               + (if fires && f.isClosed && cfg.closeCmd != "" then [CloseCommand] else [])
  {
    RunKeepsInv(cfg, clock, steps);
    LastTickIsLargest(cfg, clock, steps);
    var e := Run(cfg, clock, steps).eng;
    var p := Pass(e.ticker, curWait, e.fired);
    VisitAllKeepsLargest(cfg, clock, p, e.files[..i]);
    VisitAllTicks(cfg, clock, p, e.files[..i]);
    PassExactly(cfg, clock, e, curWait, i);
    var q := Reaching(cfg, clock, e, curWait, i);
    PastDelayInNumbers(cfg, clock, q.ticker, e.files[i]);
    hide ConsumerPass, VisitAll, IsLargest, FilesInv;
  }

  // ---- The time to wait ----------------------------------------------------

  /** From reading `calls` on the clock answers, and never with more than `now`. */
  ghost predicate Still(clock: Clock, calls: nat, now: nat) {
    forall n: nat | calls <= n :: clock(n).Time? && TickOf(clock(n)) <= now
  }

  function Elapsed(f: File, now: nat): nat {
    if now < f.openTs then 0 else now - f.openTs
  }

  /** The file waits for its open command to become due. */
  predicate WaitsAt(cfg: Config, f: File, now: nat) {
    !f.firedOpen && (cfg.delay < 0 || Elapsed(f, now) <= cfg.delay)
  }

  /** `wait` is the least of `curWait` and the times the waiting files have been open. */
  ghost predicate IsLeast(cfg: Config, files: seq<File>, curWait: nat, now: nat, wait: nat) {
    && wait <= curWait && (forall f | f in files && WaitsAt(cfg, f, now) :: wait <= Elapsed(f, now))
    && (wait == curWait || exists f :: f in files && WaitsAt(cfg, f, now) && wait == Elapsed(f, now))
  }

  lemma StillReads(clock: Clock, t: Ticker)
    requires Still(clock, t.calls, t.last)
    ensures GetTick(clock, t) == (t.last, Ticker(t.last, t.calls + 1)) && Still(clock, t.calls + 1, t.last)
  {
    assert TickOf(clock(t.calls)) <= t.last;
  }

  lemma VisitWaits(cfg: Config, clock: Clock, p: Pass, f: File)
    requires Still(clock, p.ticker.calls, p.ticker.last) && p.ticker.last < WORD / 2
    ensures var q := Visit(cfg, clock, p, f).0;
            && q.ticker.last == p.ticker.last && Still(clock, q.ticker.calls, q.ticker.last)
            && q.curWait == if WaitsAt(cfg, f, p.ticker.last) && Elapsed(f, p.ticker.last) < p.curWait
                            then Elapsed(f, p.ticker.last) else p.curWait
  {
    StillReads(clock, p.ticker);
    var t := GetTick(clock, p.ticker).1;
    StillReads(clock, t);
    StillReads(clock, GetTick(clock, t).1);
    hide GetTick, Still, CommandText;
  }

  lemma LeastSnoc(cfg: Config, files: seq<File>, f: File, curWait: nat, now: nat, wait: nat, wait': nat)
    requires IsLeast(cfg, files, curWait, now, wait)
    requires wait' == if WaitsAt(cfg, f, now) && Elapsed(f, now) < wait then Elapsed(f, now) else wait
    ensures IsLeast(cfg, files + [f], curWait, now, wait')
  {
    hide WaitsAt, Elapsed;
    assert f in files + [f] && forall g | g in files :: g in files + [f];
  }

  lemma {:induction false} VisitAllWaits(cfg: Config, clock: Clock, p: Pass, files: seq<File>)
    requires Still(clock, p.ticker.calls, p.ticker.last) && p.ticker.last < WORD / 2
    ensures var q := VisitAll(cfg, clock, p, files).0;
            && q.ticker.last == p.ticker.last && Still(clock, q.ticker.calls, q.ticker.last)
            && IsLeast(cfg, files, p.curWait, p.ticker.last, q.curWait)
  {
    if files != [] {
      var init, f := files[..|files| - 1], files[|files| - 1];
      hide Visit, Still, IsLeast;
      VisitAllWaits(cfg, clock, p, init);
      var q := VisitAll(cfg, clock, p, init).0;
      VisitWaits(cfg, clock, q, f);
      LeastSnoc(cfg, init, f, p.curWait, p.ticker.last, q.curWait, Visit(cfg, clock, q, f).0.curWait);
      assert files == init + [f];
    }
  }

  /** While the clock stands still, a pass leaves the least of the wait before it and the
      times the waiting files have been open, and 6000 when no file is left. */
  lemma WaitIsLeast(cfg: Config, clock: Clock, steps: seq<Step>, curWait: nat)
    requires var t := Run(cfg, clock, steps).eng.ticker; Still(clock, t.calls, t.last)
    ensures var e := Run(cfg, clock, steps).eng;
            var (e', wait) := ConsumerPass(cfg, clock, e, curWait);
            && (e'.files == [] ==> wait == 6000)
            && (e'.files != [] ==> IsLeast(cfg, e.files, curWait, e.ticker.last, wait))
  {
    RunKeepsInv(cfg, clock, steps);
    var e := Run(cfg, clock, steps).eng;
    VisitAllWaits(cfg, clock, Pass(e.ticker, curWait, e.fired), e.files);
    hide VisitAll, IsLeast, Still;
  }

  /** The wait is 6000 at first, and the delay once the consumer has waited. */
  lemma WaitStarts(cfg: Config, clock: Clock, s: System)
    requires cfg.delay >= 0 && s.phase.Waiting?
    ensures Init().curWait == 6000
    ensures Next(cfg, clock, s, Wake).eng == ConsumerPass(cfg, clock, s.eng, cfg.delay).0
    ensures Next(cfg, clock, s, Wake).curWait == ConsumerPass(cfg, clock, s.eng, cfg.delay).1
  {
  }

  // ---- The bits of the mask ------------------------------------------------

  /** Written (8), not written (16), deleted (512) or deleted itself (1024). */
  predicate ClosingBits(mask: nat) {
    mask / 8 % 2 == 1 || mask / 16 % 2 == 1 || mask / 512 % 2 == 1 || mask / 1024 % 2 == 1
  }

  /** Accessed (1) or opened (32). */
  predicate OpeningBits(mask: nat) {
    mask % 2 == 1 || mask / 32 % 2 == 1
  }

  lemma BitsAre(mask: nat)
    ensures IsCloseEvent(mask) <==> ClosingBits(mask)
    ensures OpensFile(mask) <==> !ClosingBits(mask) && OpeningBits(mask)
  {
  }

  /** What a close event does, by its bits and by the reading made for it. */
  lemma CloseByNumbers(cfg: Config, clock: Clock, steps: seq<Step>, ev: Event)
    requires ClosingBits(ev.mask)
    ensures var e := Run(cfg, clock, steps).eng;
            var before := Lookup(e.files, ev.id, ev.name);
            var after := Lookup(AddEvent(cfg, clock, e, ev).files, ev.id, ev.name);
            && (before.None? ==> after.None?)
            && (before.Some? && before.value.isClosed ==> after == before)
            && (before.Some? && !before.value.isClosed ==>
                  var f := before.value;
                  if cfg.delay >= 0 && ReadsLater(clock, e.ticker, f.openTs, cfg.delay) then
                    after == Some(f.(isClosed := true, closeTs := CloseTime(clock, e.ticker)))
                  else if f.firedOpen then after == before
                  else after.None?)
  {
    RunKeepsInv(cfg, clock, steps);
    var e := Run(cfg, clock, steps).eng;
    BitsAre(ev.mask);
    CloseEventExactly(cfg, clock, e, ev);
    var before := Lookup(e.files, ev.id, ev.name);
    if before.Some? {
      PastDelayInNumbers(cfg, clock, e.ticker, before.value);
    }
  }

  /** The time of a close is the largest tick after its two readings, or 0 if the second failed. */
  lemma CloseTimeIsLargest(cfg: Config, clock: Clock, steps: seq<Step>)
    ensures var t := Run(cfg, clock, steps).eng.ticker;
            var tick := CloseTime(clock, t);
            if clock(t.calls + 1).Time? then IsLargest(clock, t.calls + 2, tick) else tick == 0
  {
    LastTickIsLargest(cfg, clock, steps);
    var t := Run(cfg, clock, steps).eng.ticker;
    ReadingIsLargest(clock, t);
    ReadingIsLargest(clock, GetTick(clock, t).1);
  }

  /** What any other event does: it opens by the opening bits, and else changes nothing. */
  lemma OtherByNumbers(cfg: Config, clock: Clock, steps: seq<Step>, ev: Event)
    requires !ClosingBits(ev.mask)
    ensures var e := Run(cfg, clock, steps).eng;
            var before, e' := Lookup(e.files, ev.id, ev.name), AddEvent(cfg, clock, e, ev);
            var after := Lookup(e'.files, ev.id, ev.name);
            if !OpeningBits(ev.mask) then e' == e.(signaled := true)
            else if before.Some? && !before.value.isClosed then after == before
            else
              && after.Some? && !after.value.isClosed
              && after.value.openTs == ev.timestamp && after.value.closeTs == 0xFFFF_FFFF
              && (after.value.firedOpen <==> before.Some? && before.value.firedOpen)
  {
    RunKeepsInv(cfg, clock, steps);
    var e := Run(cfg, clock, steps).eng;
    BitsAre(ev.mask);
    OtherEventExactly(cfg, clock, e, ev);
    if OpeningBits(ev.mask) {
      OpenEventExactly(cfg, clock, e, ev);
    }
  }

  // ---- The text of the commands --------------------------------------------

  /** The text is the command with the name in place of every `@0`, taken from the left. */
  ghost predicate NamePutIn(cmd: string, name: string, text: string) {
    || (text == cmd && forall i: nat :: !OccursAt(cmd, "@0", i))
    || exists ps: seq<string> ::
         |ps| > 1 && StrReplace.LeftmostSplit(ps, "@0")
         && StrReplace.Join(ps, "@0") == cmd && StrReplace.Join(ps, name) == text
  }

  lemma CommandTextIs(cmd: string, name: string)
    ensures NamePutIn(cmd, name, CommandText(cmd, name))
  {
    StrStrNone(cmd, "@0");
    if StrStr(cmd, "@0").Some? {
      var ps := StrReplace.Pieces(cmd, "@0");
      StrReplace.PiecesSplit(cmd, "@0");
      assert |ps| > 1;
    }
  }

  /** Every command of every run has the configured text of its kind with the file's name put in. */
  lemma CommandsNameTheFile(cfg: Config, clock: Clock, steps: seq<Step>, c: Command)
    requires c in Run(cfg, clock, steps).eng.fired
    ensures NamePutIn(if c.kind.OpenCommand? then cfg.openCmd else cfg.closeCmd, c.name, c.text)
  {
    RunKeepsInv(cfg, clock, steps);
    assert Justified(cfg, c, Run(cfg, clock, steps).opens);
    CommandTextIs(if c.kind.OpenCommand? then cfg.openCmd else cfg.closeCmd, c.name);
  }
}
