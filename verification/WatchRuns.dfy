/** The producer thread: the steps `get_event` takes for a buffer of records, whatever
    the consumer does in between, hand over exactly the wanted events in order. */
module WatchRuns {
  import opened CStrings
  import opened EventModel
  import opened EventRuns
  import opened EventTiming
  import WatchIt

  /** A tick read and an add for every record that is let through. */
  function StepsOf(watches: seq<WatchIt.Watch>, rs: seq<WatchIt.Record>): seq<Step> {
    if rs == [] then []
    else
      var name := WatchIt.WantedName(watches, rs[0]);
      (if name.None? then [] else [ReadTick, Add(rs[0].wd, name.value, rs[0].mask)]) + StepsOf(watches, rs[1..])
  }

  /** What of a run is the producer's. */
  function Producer(steps: seq<Step>): seq<Step> {
    if steps == [] then []
    else
      var last := steps[|steps| - 1];
      Producer(steps[..|steps| - 1]) + if ConsumerStep(last) then [] else [last]
  }

  /** The ticks the producer reads in a run, in order. */
  function TicksRead(cfg: Config, clock: Clock, s: System, steps: seq<Step>): seq<nat> {
    if steps == [] then []
    else
      var init, last := steps[..|steps| - 1], steps[|steps| - 1];
      var t := Exec(cfg, clock, s, init);
      TicksRead(cfg, clock, s, init)
      + if last.ReadTick? && t.pending.None? then [GetTick(clock, t.eng.ticker).0] else []
  }

  /** The events handed to the engine in a run, in order. */
  function Handed(cfg: Config, clock: Clock, s: System, steps: seq<Step>): seq<Event> {
    if steps == [] then []
    else
      var init, last := steps[..|steps| - 1], steps[|steps| - 1];
      var t := Exec(cfg, clock, s, init);
      Handed(cfg, clock, s, init)
      + if last.Add? && t.pending.Some? then [Event(last.id, last.name, last.mask, t.pending.value)] else []
  }

  /** Tick reads and adds take turns. */
  ghost predicate InTurn(steps: seq<Step>) {
    forall i | 0 <= i < |steps| :: if i % 2 == 0 then steps[i].ReadTick? else steps[i].Add?
  }

  function EventOf(add: Step, tick: nat): Event
    requires add.Add?
  {
    Event(add.id, add.name, add.mask, tick)
  }

  /** The events are those of the adds, each with the tick read just before; a tick
      without its add yet is pending. */
  ghost predicate Paired(own: seq<Step>, ticks: seq<nat>, events: seq<Event>, pending: Option<nat>) {
    && InTurn(own) && |events| == |own| / 2 && |ticks| == (|own| + 1) / 2
    && (forall i | 0 <= i < |events| :: events[i] == EventOf(own[2 * i + 1], ticks[i]))
    && pending == if |own| % 2 == 1 then Some(ticks[|ticks| - 1]) else None
  }

  lemma PairedRead(own: seq<Step>, ticks: seq<nat>, events: seq<Event>, tick: nat)
    requires Paired(own, ticks, events, None)
    ensures Paired(own + [ReadTick], ticks + [tick], events, Some(tick))
  {
    var own', ticks' := own + [ReadTick], ticks + [tick];
    assert forall i | 0 <= i < |own| :: own'[i] == own[i];
    assert forall i | 0 <= i < |ticks| :: ticks'[i] == ticks[i];
  }

  lemma PairedAdd(own: seq<Step>, ticks: seq<nat>, events: seq<Event>, tick: nat, add: Step)
    requires Paired(own, ticks, events, Some(tick)) && add.Add?
    ensures Paired(own + [add], ticks, events + [EventOf(add, tick)], None)
  {
    var own' := own + [add];
    assert forall i | 0 <= i < |own| :: own'[i] == own[i];
    assert own'[2 * |events| + 1] == add;
  }

  lemma InTurnSnoc(own: seq<Step>, step: Step)
    requires InTurn(own + [step])
    ensures InTurn(own) && if |own| % 2 == 0 then step.ReadTick? else step.Add?
  {
    assert forall i | 0 <= i < |own| :: (own + [step])[i] == own[i];
    assert (own + [step])[|own|] == step;
  }

  lemma LastStep(cfg: Config, clock: Clock, s: System, steps: seq<Step>)
    requires steps != []
    ensures var init, last := steps[..|steps| - 1], steps[|steps| - 1];
            var own, t, t' := Producer(init), Exec(cfg, clock, s, init), Exec(cfg, clock, s, steps);
            var ticks, events := TicksRead(cfg, clock, s, init), Handed(cfg, clock, s, init);
            var ticks', events' := TicksRead(cfg, clock, s, steps), Handed(cfg, clock, s, steps);
            && (ConsumerStep(last) ==>
                  Producer(steps) == own && ticks' == ticks && events' == events && t'.pending == t.pending)
            && (!ConsumerStep(last) ==> Producer(steps) == own + [last])
            && (last.ReadTick? && t.pending.None? ==>
                  var tick := GetTick(clock, t.eng.ticker).0;
                  ticks' == ticks + [tick] && events' == events && t'.pending == Some(tick))
            && (last.Add? && t.pending.Some? ==>
                  ticks' == ticks && events' == events + [EventOf(last, t.pending.value)] && t'.pending == None)
  {
    hide GetTick, AddEvent, ConsumerPass;
  }

  /** Where the producer is in its steps. */
  lemma {:induction false} HandedInTurn(cfg: Config, clock: Clock, s: System, steps: seq<Step>)
    requires s.pending.None? && InTurn(Producer(steps))
    ensures Paired(Producer(steps), TicksRead(cfg, clock, s, steps), Handed(cfg, clock, s, steps),
                   Exec(cfg, clock, s, steps).pending)
  {
    if steps != [] {
      var init, last := steps[..|steps| - 1], steps[|steps| - 1];
      var own, t := Producer(init), Exec(cfg, clock, s, init);
      var ticks, events := TicksRead(cfg, clock, s, init), Handed(cfg, clock, s, init);
      LastStep(cfg, clock, s, steps);
      hide GetTick, Next, Exec, Producer, TicksRead, Handed, InTurn;
      if ConsumerStep(last) {
        HandedInTurn(cfg, clock, s, init);
      } else {
        InTurnSnoc(own, last);
        HandedInTurn(cfg, clock, s, init);
        assert last.ReadTick? <==> t.pending.None?;
        hide Paired;
        if last.ReadTick? {
          PairedRead(own, ticks, events, GetTick(clock, t.eng.ticker).0);
        } else {
          PairedAdd(own, ticks, events, t.pending.value, last);
        }
      }
    }
  }

  /** The events are those of the adds, with the ticks from the n-th on. */
  ghost predicate Carries(own: seq<Step>, all: seq<Event>, ticks: nat -> nat, n: nat) {
    && |own| == 2 * |all| && InTurn(own)
    && forall i | 0 <= i < |all| :: all[i] == EventOf(own[2 * i + 1], ticks(n + i))
  }

  lemma CarriesCons(own: seq<Step>, all: seq<Event>, ticks: nat -> nat, n: nat, add: Step)
    requires Carries(own, all, ticks, n + 1) && add.Add?
    ensures Carries([ReadTick, add] + own, [EventOf(add, ticks(n))] + all, ticks, n)
  {
    var own', all' := [ReadTick, add] + own, [EventOf(add, ticks(n))] + all;
    assert forall i | 0 <= i < |own| :: own'[i + 2] == own[i];
    forall i | 0 <= i < |own'|
      ensures if i % 2 == 0 then own'[i].ReadTick? else own'[i].Add?
    {
      assert i >= 2 ==> own'[i] == own[i - 2];
    }
    forall i | 0 <= i < |all'|
      ensures all'[i] == EventOf(own'[2 * i + 1], ticks(n + i))
    {
      if i > 0 {
        var j := i - 1;
        assert all'[i] == all[j] && own'[2 * j + 1 + 2] == own[2 * j + 1] && n + 1 + j == n + i;
      }
    }
  }

  lemma {:induction false} WantedCarried(watches: seq<WatchIt.Watch>, rs: seq<WatchIt.Record>, ticks: nat -> nat, n: nat)
    ensures Carries(StepsOf(watches, rs), WatchIt.Wanted(watches, rs, ticks, n), ticks, n)
    decreases |rs|
  {
    if rs != [] {
      hide WatchIt.WantedName, Carries;
      var name := WatchIt.WantedName(watches, rs[0]);
      if name.None? {
        WantedCarried(watches, rs[1..], ticks, n);
        assert [] + StepsOf(watches, rs[1..]) == StepsOf(watches, rs[1..]);
      } else {
        WantedCarried(watches, rs[1..], ticks, n + 1);
        CarriesCons(StepsOf(watches, rs[1..]), WatchIt.Wanted(watches, rs[1..], ticks, n + 1), ticks, n,
                    Add(rs[0].wd, name.value, rs[0].mask));
      }
    }
  }

  /** Whatever the consumer does in between, as far as the producer has got with the
      records of a buffer it has handed over the wanted events, in order, each with the
      tick read for it; with all its steps taken, all of them. */
  lemma BufferIsHanded(cfg: Config, clock: Clock, s: System, steps: seq<Step>,
                       watches: seq<WatchIt.Watch>, rs: seq<WatchIt.Record>, ticks: nat -> nat)
    requires s.pending.None? && Producer(steps) <= StepsOf(watches, rs)
    requires forall n | 0 <= n < |TicksRead(cfg, clock, s, steps)| :: ticks(n) == TicksRead(cfg, clock, s, steps)[n]
    ensures Handed(cfg, clock, s, steps) <= WatchIt.Wanted(watches, rs, ticks, 0)
    ensures Producer(steps) == StepsOf(watches, rs) ==>
              Handed(cfg, clock, s, steps) == WatchIt.Wanted(watches, rs, ticks, 0)
  {
    var own, all := StepsOf(watches, rs), WatchIt.Wanted(watches, rs, ticks, 0);
    WantedCarried(watches, rs, ticks, 0);
    assert InTurn(Producer(steps)) by {
      assert forall i | 0 <= i < |Producer(steps)| :: Producer(steps)[i] == own[i];
    }
    HandedInTurn(cfg, clock, s, steps);
    hide StepsOf, Producer, TicksRead, Handed, WatchIt.Wanted, Exec, InTurn;
    var events, done := Handed(cfg, clock, s, steps), Producer(steps);
    forall i | 0 <= i < |events|
      ensures events[i] == all[i]
    {
      assert done[2 * i + 1] == own[2 * i + 1] && ticks(0 + i) == ticks(i);
    }
  }
}
