/** What the flip-flop network does over whole runs: when ticks are never lost, how ticks are
    spaced, and when a confirmed write stops the cycle for good. */
module Runs {
  import opened FlipFlop
  import opened Options

  // ---- Ticks drained before the next one

  /** Ticks on their way to E_SR. */
  function Travelling(queue: seq<Event>): nat {
    Count(queue, Switch) + Count(queue, Set) + Count(queue, Reset)
  }

  /** On this run the timer only fires when no earlier tick is still on its way. */
  predicate Drained(n: Net, cs: seq<Choice>, dt: nat)
    decreases |cs|
  {
    cs == [] ||
    ((cs[0] == Tick && Possible(n, Tick) ==> Travelling(n.queue) == 0) && Drained(Step(n, cs[0], dt), cs[1..], dt))
  }

  lemma {:induction false} ClearSettles(q: bool, queue: seq<Event>)
    requires Count(queue, Set) == 0 && Count(queue, Reset) == 0
    ensures Settles(q, queue) == q
    decreases |queue|
  {
    if queue != [] {
      ClearSettles(q, queue[1..]);
    }
  }

  lemma HandleTravels(n: Net, e: Event, connects: bool, dt: nat)
    ensures Travelling(Handle(n, e, connects, dt).queue) == Travelling(n.queue) + if e == Switch then 1 else 0
  {
    EmitCounts(n.queue, SwitchEO0);
    EmitCounts(n.queue, SwitchEO1);
    EmitCounts(n.queue, SrEO);
    EmitCounts(n.queue, WriteCNF);
  }

  lemma StepStaysLight(n: Net, c: Choice, dt: nat)
    requires Alternates(n) && Travelling(n.queue) <= 1
    requires c == Tick && Possible(n, Tick) ==> Travelling(n.queue) == 0
    ensures Travelling(Step(n, c, dt).queue) <= 1 && !Misjudges(n, c)
  {
    if Possible(n, c) {
      match c
      case Wait(_) =>
      case Restart => EmitCounts(n.queue, Restarted);
      case Tick => EmitCounts(n.queue, CycleEO);
      case Dispatch(connects) =>
        var m := n.(queue := n.queue[1..]);
        HandleTravels(m, n.queue[0], connects, dt);
        if n.queue[0] == Switch {
          ClearSettles(n.q, m.queue);
        }
    }
  }

  /** If each tick is drained through E_SR before the next is issued, E_SWITCH never misjudges and
      E_SR never ignores: every tick toggles. Restarts may come at any time. */
  lemma {:induction false} DrainedNeverMisjudges(n: Net, cs: seq<Choice>, dt: nat)
    requires Alternates(n) && Travelling(n.queue) <= 1 && Drained(n, cs, dt)
    ensures Misjudged(n, cs, dt) == 0
    decreases |cs|
  {
    if cs != [] {
      StepStaysLight(n, cs[0], dt);
      StepAlternates(n, cs[0], dt);
      DrainedNeverMisjudges(Step(n, cs[0], dt), cs[1..], dt);
    }
  }

  /** Power-up satisfies every invariant. */
  lemma PowerUp(n0: Net, dt: nat)
    requires n0 == IDLE
    ensures Conserved(n0) && Alternates(n0)
    ensures Spaced(n0, dt)
    ensures Spoilt(n0) == 0 && Travelling(n0.queue) == 0
  {
    assert n0.queue == [] && n0.log.ticks == [];
    assert Spaced(n0, dt) by {
      assert |n0.log.ticks| * dt == 0;
    }
  }

  /** On a drained run nothing is ignored, and whenever no tick is on its way Q is the parity of
      all ticks and each tick has caused one write request, handled or queued. */
  lemma StrictAlternation(n0: Net, cs: seq<Choice>, dt: nat)
    requires Conserved(n0) && Alternates(n0) && Spoilt(n0) == 0 && Travelling(n0.queue) <= 1
    requires Drained(n0, cs, dt)
    ensures var n := Run(n0, cs, dt);
            && n.log.ignored == 0
            && (Travelling(n.queue) == 0 ==>
                  && n.q == (|n.log.ticks| % 2 == 1)
                  && |n.log.ticks| == n.log.writes + Count(n.queue, Write))
  {
    DrainedNeverMisjudges(n0, cs, dt);
    RunAlternates(n0, cs, dt);
    RunConserves(n0, cs, dt);
  }

  /** Ticks are lost on a run exactly as often as E_SWITCH misjudged on it. */
  lemma TicksLost(n0: Net, cs: seq<Choice>, dt: nat)
    requires Conserved(n0) && Alternates(n0) && Spoilt(n0) == 0
    ensures var n := Run(n0, cs, dt);
            n.log.ignored + Doomed(n.q, n.queue) == Misjudged(n0, cs, dt)
            && |n.log.ticks| == n.log.toggles + n.log.ignored + Travelling(n.queue)
  {
    RunAlternates(n0, cs, dt);
    RunConserves(n0, cs, dt);
  }

  lemma {:induction false} RunThen(n: Net, cs: seq<Choice>, c: Choice, dt: nat)
    ensures Run(n, cs + [c], dt) == Step(Run(n, cs, dt), c, dt)
    decreases |cs|
  {
    if cs == [] {
      assert [] + [c] == [c];
      assert Run(n, [c], dt) == Run(Step(n, c, dt), [], dt);
    } else {
      assert (cs + [c])[1..] == cs[1..] + [c];
      RunThen(Step(n, cs[0], dt), cs[1..], c, dt);
    }
  }

  /** Two ticks queued back to back: the switch misjudges the second, which is lost. */
  lemma BurstLosesTick(n: Net, dt: nat)
    requires Alternates(n) && n.queue == [Switch, Switch]
    ensures Misjudged(n, [Dispatch(false), Dispatch(false)], dt) == 1
    ensures Spoilt(Run(n, [Dispatch(false), Dispatch(false)], dt)) == Spoilt(n) + 1
  {
    var cs := [Dispatch(false), Dispatch(false)];
    var e := if n.q then Reset else Set;
    var n1 := Step(n, cs[0], dt);
    assert n.queue[1..] == [Switch];
    assert n1.queue == [Switch, e] && n1.q == n.q;
    assert [e][1..] == [];
    assert n1.queue[1..] == [e] && Settles(n1.q, [e]) != n1.q;
    assert Settles(n.q, [Switch]) == n.q by {
      assert [Switch][1..] == [];
    }
    assert cs[1..] == [Dispatch(false)] && cs[1..][1..] == [];
    RunAlternates(n, cs, dt);
  }

  /** Such a burst happens when the timer fires twice before the queue is looked at. */
  lemma BurstReachable(n0: Net) returns (cs: seq<Choice>)
    requires n0 == IDLE
    ensures Run(n0, cs, 1).queue == [Switch, Switch]
  {
    cs := [];
    RunThen(n0, cs, Restart, 1);
    cs := cs + [Restart];
    RunThen(n0, cs, Dispatch(false), 1);
    cs := cs + [Dispatch(false)];
    assert Run(n0, cs, 1).timer == Some(1) && Run(n0, cs, 1).now == 0 && Run(n0, cs, 1).queue == [];
    RunThen(n0, cs, Wait(1), 1);
    cs := cs + [Wait(1)];
    RunThen(n0, cs, Tick, 1);
    cs := cs + [Tick];
    assert Run(n0, cs, 1).timer == Some(2) && Run(n0, cs, 1).now == 1 && Run(n0, cs, 1).queue == [Switch];
    RunThen(n0, cs, Wait(1), 1);
    cs := cs + [Wait(1)];
    RunThen(n0, cs, Tick, 1);
    cs := cs + [Tick];
  }

  // ---- Spacing of ticks

  /** Ticks so far are at least DT apart, none came before DT was over, and the running timer
      respects both. */
  predicate Spaced(n: Net, dt: nat) {
    var t := n.log.ticks;
    && (forall i :: 0 <= i < |t| - 1 ==> t[i] + dt <= t[i + 1])
    && (t != [] ==> t[|t| - 1] <= n.now)
    && |t| * dt <= n.now
    && (n.timer.Some? ==>
          && n.now <= n.timer.value
          && (t != [] ==> t[|t| - 1] + dt <= n.timer.value)
          && (|t| + 1) * dt <= n.timer.value)
  }

  lemma TickSpaces(n: Net, dt: nat)
    requires Spaced(n, dt) && n.timer == Some(n.now)
    ensures Spaced(Step(n, Tick, dt), dt)
  {
    var t := n.log.ticks;
    assert (|t| + 2) * dt == (|t| + 1) * dt + dt;
    assert |t + [n.now]| == |t| + 1;
  }

  lemma HandleSpaces(n: Net, e: Event, connects: bool, dt: nat)
    requires Spaced(n, dt)
    ensures Spaced(Handle(n, e, connects, dt), dt)
  {
    var t := n.log.ticks;
    assert (|t| + 1) * dt == |t| * dt + dt;
  }

  lemma StepSpaces(n: Net, c: Choice, dt: nat)
    requires Spaced(n, dt)
    ensures Spaced(Step(n, c, dt), dt)
  {
    if Possible(n, c) {
      match c
      case Wait(_) =>
      case Restart =>
      case Tick => TickSpaces(n, dt);
      case Dispatch(connects) => HandleSpaces(n.(queue := n.queue[1..]), n.queue[0], connects, dt);
    }
  }

  /** In every run, for any DT, with any restarts and feedback STARTs, consecutive ticks are at
      least DT apart and there are at most now/DT of them: there is never a second timer. */
  lemma {:induction false} RunSpaces(n: Net, cs: seq<Choice>, dt: nat)
    requires Spaced(n, dt)
    ensures Spaced(Run(n, cs, dt), dt)
    decreases |cs|
  {
    if cs != [] {
      StepSpaces(n, cs[0], dt);
      RunSpaces(Step(n, cs[0], dt), cs[1..], dt);
    }
  }

  /** k firing times, DT apart, from `first` on. */
  function Schedule(first: nat, dt: nat, k: nat): seq<nat>
    decreases k
  {
    if k == 0 then [] else [first] + Schedule(first + dt, dt, k - 1)
  }

  lemma {:induction false} StopsGrow(n: Net, cs: seq<Choice>, dt: nat)
    ensures n.log.stops <= Run(n, cs, dt).log.stops
    decreases |cs|
  {
    if cs != [] {
      StopsGrow(Step(n, cs[0], dt), cs[1..], dt);
    }
  }

  /** A running timer moves only when it fires, unless a STOP is handled. */
  lemma TimerMoves(n: Net, c: Choice, dt: nat)
    requires n.timer.Some? && Step(n, c, dt).log.stops == n.log.stops
    ensures var m := Step(n, c, dt);
            || (m.timer == n.timer && m.log.ticks == n.log.ticks)
            || (m.timer == Some(n.timer.value + dt) && m.log.ticks == n.log.ticks + [n.timer.value])
  {
  }

  /** While no STOP is handled the timer keeps its exact period: neither the feedback from E_SR nor
      a restart ever delays, adds or drops a tick. */
  lemma {:induction false} ExactPeriod(n: Net, cs: seq<Choice>, dt: nat) returns (k: nat)
    requires n.timer.Some? && Run(n, cs, dt).log.stops == n.log.stops
    ensures Run(n, cs, dt).log.ticks == n.log.ticks + Schedule(n.timer.value, dt, k)
    ensures Run(n, cs, dt).timer == Some(n.timer.value + k * dt)
    decreases |cs|
  {
    if cs == [] {
      k := 0;
    } else {
      var m := Step(n, cs[0], dt);
      StopsGrow(n, [cs[0]], dt);
      assert Run(n, [cs[0]], dt) == Run(m, [], dt);
      StopsGrow(m, cs[1..], dt);
      TimerMoves(n, cs[0], dt);
      k := ExactPeriod(m, cs[1..], dt);
      if m.log.ticks != n.log.ticks {
        assert n.timer.value + dt + k * dt == n.timer.value + (k + 1) * dt;
        k := k + 1;
      }
    }
  }

  // ---- From a START on

  lemma {:induction false} RunJoined(n: Net, a: seq<Choice>, b: seq<Choice>, dt: nat)
    ensures Run(n, a + b, dt) == Run(Run(n, a, dt), b, dt)
    decreases |a|
  {
    if a == [] {
      assert a + b == b;
    } else {
      assert (a + b)[1..] == a[1..] + b;
      RunJoined(Step(n, a[0], dt), a[1..], b, dt);
    }
  }

  lemma {:induction false} StartsGrow(n: Net, cs: seq<Choice>, dt: nat)
    ensures n.log.starts <= Run(n, cs, dt).log.starts
    decreases |cs|
  {
    if cs != [] {
      StartsGrow(Step(n, cs[0], dt), cs[1..], dt);
    }
  }

  /** Until a START is handled a timer that is off stays off and nothing ticks. */
  lemma {:induction false} OffUntilStart(n: Net, cs: seq<Choice>, dt: nat)
    requires n.timer.None? && Run(n, cs, dt).log.starts == n.log.starts
    ensures Run(n, cs, dt).timer.None? && Run(n, cs, dt).log.ticks == n.log.ticks
    decreases |cs|
  {
    if cs != [] {
      StartsGrow(Step(n, cs[0], dt), cs[1..], dt);
      OffUntilStart(Step(n, cs[0], dt), cs[1..], dt);
    }
  }

  /** A running timer is due within DT, and not overdue. */
  predicate DueSoon(n: Net, dt: nat) {
    n.timer.Some? ==> n.now <= n.timer.value <= n.now + dt
  }

  lemma {:induction false} StaysDueSoon(n: Net, cs: seq<Choice>, dt: nat)
    requires DueSoon(n, dt)
    ensures DueSoon(Run(n, cs, dt), dt)
    decreases |cs|
  {
    if cs != [] {
      StaysDueSoon(Step(n, cs[0], dt), cs[1..], dt);
    }
  }

  /** The timer is off. If the next START is handled at time t and no STOP after it, the ticks from then
      on are exactly those at t + DT, t + 2 DT and so on, and every one that is overdue has been
      made. */
  lemma TicksFromStart(n: Net, before: seq<Choice>, c: Choice, after: seq<Choice>, dt: nat) returns (k: nat)
    requires n.timer.None? && Run(n, before, dt).log.starts == n.log.starts
    requires Step(Run(n, before, dt), c, dt).log.starts == n.log.starts + 1
    requires Run(n, before + [c] + after, dt).log.stops == Step(Run(n, before, dt), c, dt).log.stops
    ensures var t := Run(n, before, dt).now; var r := Run(n, before + [c] + after, dt);
            && r.log.ticks == n.log.ticks + Schedule(t + dt, dt, k)
            && t + k * dt <= r.now <= t + (k + 1) * dt
  {
    var a := Run(n, before, dt);
    var b := Step(a, c, dt);
    OffUntilStart(n, before, dt);
    RunThen(n, before, c, dt);
    RunJoined(n, before + [c], after, dt);
    k := ExactPeriod(b, after, dt);
    StaysDueSoon(b, after, dt);
    assert a.now + dt + k * dt == a.now + (k + 1) * dt;
  }

  /** The j-th scheduled time. */
  lemma {:induction false} ScheduleAt(first: nat, dt: nat, k: nat, j: nat)
    requires j < k
    ensures |Schedule(first, dt, k)| == k && Schedule(first, dt, k)[j] == first + j * dt
    decreases k
  {
    if j > 0 {
      ScheduleAt(first + dt, dt, k - 1, j - 1);
      assert first + dt + (j - 1) * dt == first + j * dt;
    } else if k > 1 {
      ScheduleAt(first + dt, dt, k - 1, 0);
    }
  }

  /** From power-up: the resource is restarted at time d, its START is handled e later, and no STOP is
      handled. Then the j-th tick of the run, counted from 0, came at d + e + (j + 1) DT. */
  lemma TicksFromPowerUp(n0: Net, d: nat, e: nat, connects: bool, after: seq<Choice>, dt: nat) returns (k: nat)
    requires n0 == IDLE
    requires Run(n0, [Wait(d), Restart, Wait(e)] + [Dispatch(connects)] + after, dt).log.stops == 0
    ensures var r := Run(n0, [Wait(d), Restart, Wait(e)] + [Dispatch(connects)] + after, dt);
            && |r.log.ticks| == k
            && (forall j: nat :: j < k ==> r.log.ticks[j] == d + e + (j + 1) * dt)
            && d + e + k * dt <= r.now <= d + e + (k + 1) * dt
  {
    var before := [Wait(d), Restart, Wait(e)];
    var a := StartQueued(n0, d, e, dt);
    k := TicksFromStart(n0, before, Dispatch(connects), after, dt);
    var r := Run(n0, before + [Dispatch(connects)] + after, dt);
    assert r.log.ticks == Schedule(d + e + dt, dt, k);
    if k > 0 {
      ScheduleAt(d + e + dt, dt, k, 0);
    }
    forall j: nat | j < k ensures r.log.ticks[j] == d + e + (j + 1) * dt {
      ScheduleAt(d + e + dt, dt, k, j);
      assert d + e + dt + j * dt == d + e + (j + 1) * dt;
    }
  }

  lemma StartQueued(n0: Net, d: nat, e: nat, dt: nat) returns (a: Net)
    requires n0.queue == [] && n0.timer.None? && n0.now == 0
    ensures a == Run(n0, [Wait(d), Restart, Wait(e)], dt)
    ensures a.queue == [Start] && a.timer.None? && a.now == d + e
    ensures a.log.starts == n0.log.starts && a.log.stops == n0.log.stops && a.log.ticks == n0.log.ticks
  {
    RunThen(n0, [], Wait(d), dt);
    RunThen(n0, [Wait(d)], Restart, dt);
    RunThen(n0, [Wait(d), Restart], Wait(e), dt);
    assert [] + [Wait(d)] == [Wait(d)] && [Wait(d)] + [Restart] == [Wait(d), Restart];
    assert [Wait(d), Restart] + [Wait(e)] == [Wait(d), Restart, Wait(e)];
    a := Run(n0, [Wait(d), Restart, Wait(e)], dt);
  }

  // ---- Draining the queue

  function Cost(e: Event): nat {
    match e
    case Start => 1
    case Stop => 1
    case Write => 2
    case Set => 4
    case Reset => 4
    case Switch => 5
  }

  function Weight(queue: seq<Event>): nat
    decreases |queue|
  {
    if queue == [] then 0 else Cost(queue[0]) + Weight(queue[1..])
  }

  lemma {:induction false} WeightAppend(queue: seq<Event>, more: seq<Event>)
    ensures Weight(queue + more) == Weight(queue) + Weight(more)
    decreases |queue|
  {
    if queue == [] {
      assert queue + more == more;
    } else {
      assert (queue + more)[1..] == queue[1..] + more;
      WeightAppend(queue[1..], more);
    }
  }

  lemma WeighWires(queue: seq<Event>, o: Output)
    ensures Weight(queue + Wires(o)) == Weight(queue)
            + match o
              case Restarted => 1
              case CycleEO => 5
              case SwitchEO0 => 4
              case SwitchEO1 => 4
              case SrEO => 3
              case WriteCNF => 1
  {
    WeightAppend(queue, Wires(o));
    WiresTail(o);
  }

  /** Each event handled makes the queue lighter, so an event chain always ends. */
  lemma DispatchLightens(n: Net, connects: bool, dt: nat)
    requires n.queue != []
    ensures Weight(Step(n, Dispatch(connects), dt).queue) < Weight(n.queue)
  {
    var rest := n.queue[1..];
    WeighWires(rest, SwitchEO0);
    WeighWires(rest, SwitchEO1);
    WeighWires(rest, SrEO);
    WeighWires(rest, WriteCNF);
  }

  /** Handle events until the queue is empty; `fates(k)` is whether a write handled at the k-th turn
      connects. */
  function Drain(n: Net, fates: nat -> bool, k: nat, dt: nat): (r: Net)
    ensures r.queue == []
    decreases Weight(n.queue)
  {
    if n.queue == [] then n
    else
      DispatchLightens(n, fates(k), dt);
      Drain(Step(n, Dispatch(fates(k)), dt), fates, k + 1, dt)
  }

  /** The turns from the k-th on, each with its own fate. */
  function Turns(fates: nat -> bool, k: nat, n: nat): seq<Choice> {
    seq(n, i requires 0 <= i => Dispatch(fates(k + i)))
  }

  lemma FirstTurn(n: Net, next: Net, fates: nat -> bool, k: nat, more: nat, dt: nat)
    requires next == Step(n, Dispatch(fates(k)), dt)
    ensures Run(n, Turns(fates, k, more + 1), dt) == Run(next, Turns(fates, k + 1, more), dt)
  {
    var cs := Turns(fates, k, more + 1);
    assert cs[0] == Dispatch(fates(k));
    assert cs[1..] == Turns(fates, k + 1, more);
  }

  /** Draining is a run that does nothing but handle events, the write of each turn meeting its own
      fate, and it takes no more turns than the queue weighs. */
  lemma {:induction false} DrainIsRun(n: Net, fates: nat -> bool, k: nat, dt: nat) returns (turns: nat)
    ensures turns <= Weight(n.queue)
    ensures Drain(n, fates, k, dt) == Run(n, Turns(fates, k, turns), dt)
    decreases Weight(n.queue)
  {
    if n.queue == [] {
      turns := 0;
    } else {
      DispatchLightens(n, fates(k), dt);
      var next := Step(n, Dispatch(fates(k)), dt);
      var more := DrainIsRun(next, fates, k + 1, dt);
      turns := more + 1;
      FirstTurn(n, next, fates, k, more, dt);
    }
  }

  // ---- Stopping

  /** Some tick or effective set or reset is still queued. */
  predicate TogglePending(q: bool, queue: seq<Event>)
    decreases |queue|
  {
    queue != [] &&
    (queue[0] == Switch || ((queue[0] == Set || queue[0] == Reset) && !Ignores(q, queue[0]))
     || TogglePending(QAfter(q, queue[0]), queue[1..]))
  }

  /** Whether the timer is off after the queued STARTs and STOPs. */
  predicate OffAfter(off: bool, queue: seq<Event>)
    decreases |queue|
  {
    if queue == [] then off
    else OffAfter(if queue[0] == Start then false else if queue[0] == Stop then true else off, queue[1..])
  }

  predicate WillRest(n: Net) {
    !TogglePending(n.q, n.queue) && OffAfter(n.timer.None?, n.queue)
  }

  lemma {:induction false} OffAppend(off: bool, queue: seq<Event>, more: seq<Event>)
    ensures OffAfter(off, queue + more) == OffAfter(OffAfter(off, queue), more)
    decreases |queue|
  {
    if queue == [] {
      assert queue + more == more;
    } else {
      assert (queue + more)[1..] == queue[1..] + more;
      OffAppend(if queue[0] == Start then false else if queue[0] == Stop then true else off, queue[1..], more);
    }
  }

  /** With no toggle pending Q stays put, so appending an event that would toggle it now is a pending toggle. */
  lemma {:induction false} PendingAppend(q: bool, queue: seq<Event>, e: Event)
    ensures TogglePending(q, queue + [e]) <==>
            TogglePending(q, queue) || e == Switch || (e == Set && !q) || (e == Reset && q)
    decreases |queue|
  {
    if queue == [] {
      assert queue + [e] == [e];
    } else {
      assert (queue + [e])[1..] == queue[1..] + [e];
      PendingAppend(QAfter(q, queue[0]), queue[1..], e);
    }
  }

  lemma ToggleKeepsFate(n: Net, isSet: bool)
    requires Alternates(n)
    ensures WillRest(OnSr(n, isSet)) <==> n.q == isSet && WillRest(n)
  {
    if Reacts(n.ecc, isSet) {
      WiresTail(SrEO);
      OffAppend(n.timer.None?, n.queue, [Start, Write]);
    }
  }

  /** A write that connects can only help: its STOP is queued last. */
  lemma DispatchKeepsFate(n: Net, connects: bool, dt: nat)
    requires Alternates(n) && n.queue != []
    ensures WillRest(n) ==> WillRest(Step(n, Dispatch(connects), dt))
    ensures !connects && WillRest(Step(n, Dispatch(connects), dt)) ==> WillRest(n)
  {
    var m := n.(queue := n.queue[1..]);
    match n.queue[0]
    case Start =>
    case Stop =>
    case Write =>
      PendingAppend(n.q, m.queue, Stop);
      OffAppend(n.timer.None?, m.queue, [Stop]);
    case Switch =>
      PendingAppend(n.q, m.queue, if n.q then Reset else Set);
    case Set => ToggleKeepsFate(m, true);
    case Reset => ToggleKeepsFate(m, false);
  }

  lemma {:induction false} DrainRests(n: Net, fates: nat -> bool, k: nat, dt: nat)
    requires Alternates(n)
    ensures WillRest(n) ==> Drain(n, fates, k, dt).timer.None?
    ensures (forall j :: !fates(j)) && Drain(n, fates, k, dt).timer.None? ==> WillRest(n)
    decreases Weight(n.queue)
  {
    if n.queue != [] {
      DispatchLightens(n, fates(k), dt);
      DispatchKeepsFate(n, fates(k), dt);
      StepAlternates(n, Dispatch(fates(k)), dt);
      DrainRests(Step(n, Dispatch(fates(k)), dt), fates, k + 1, dt);
    }
  }

  /** Handling everything that is queued leaves the timer off. */
  predicate Rests(n: Net, fates: nat -> bool, dt: nat) {
    Drain(n, fates, 0, dt).timer.None?
  }

  /** The drained network has its timer off whatever becomes of the writes still to come, exactly when
      no toggle is pending and the last queued START or STOP is a STOP (or, with none queued, the
      timer is off already). */
  lemma DrainRestsIff(n: Net, dt: nat)
    requires Alternates(n)
    ensures (forall fates: nat -> bool :: Rests(n, fates, dt)) <==> WillRest(n)
  {
    if WillRest(n) {
      forall fates: nat -> bool ensures Rests(n, fates, dt) {
        DrainRests(n, fates, 0, dt);
      }
    }
    var allFail: nat -> bool := (k: nat) => false;
    assert forall k :: !allFail(k);
    DrainRests(n, allFail, 0, dt);
    assert Rests(n, allFail, dt) ==> WillRest(n);
  }

  /** The write at the head of any queue connects: its STOP ends the cycle, whatever becomes of later
      writes, exactly when no tick or effective set or reset waits behind it. */
  lemma StopHoldsIff(n: Net, rest: seq<Event>, dt: nat)
    requires Alternates(n) && n.queue == [Write] + rest
    ensures (forall fates: nat -> bool :: Rests(Step(n, Dispatch(true), dt), fates, dt))
            <==> !TogglePending(n.q, rest)
  {
    var m := Step(n, Dispatch(true), dt);
    assert n.queue[1..] == rest;
    StepAlternates(n, Dispatch(true), dt);
    DrainRestsIff(m, dt);
    assert m.queue == rest + [Stop];
    OffAppend(n.timer.None?, rest, [Stop]);
    PendingAppend(n.q, rest, Stop);
  }

  // ---- Stop after the first confirmed write

  /** The queue without its STARTs. */
  function NoStarts(queue: seq<Event>): seq<Event>
    decreases |queue|
  {
    if queue == [] then []
    else if queue[0] == Start then NoStarts(queue[1..])
    else [queue[0]] + NoStarts(queue[1..])
  }

  lemma {:induction false} NoStartsAppend(queue: seq<Event>, more: seq<Event>)
    ensures NoStarts(queue + more) == NoStarts(queue) + NoStarts(more)
    decreases |queue|
  {
    if queue == [] {
      assert queue + more == more;
    } else {
      assert (queue + more)[1..] == queue[1..] + more;
      NoStartsAppend(queue[1..], more);
    }
  }

  lemma NoStartsWires(queue: seq<Event>, o: Output)
    ensures NoStarts(queue + Wires(o))
            == NoStarts(queue) + if o == Restarted then [] else if o == SrEO then [Write] else Wires(o)
  {
    NoStartsAppend(queue, Wires(o));
    WiresTail(o);
  }

  /** No restart once a write has connected, and ticks only when the queue holds nothing but STARTs. */
  predicate Calm(n: Net, cs: seq<Choice>, dt: nat)
    decreases |cs|
  {
    cs == [] || (CalmChoice(n, cs[0]) && Calm(Step(n, cs[0], dt), cs[1..], dt))
  }

  predicate CalmChoice(n: Net, c: Choice) {
    && (c == Restart ==> n.log.connected == 0)
    && (c == Tick && Possible(n, c) ==> NoStarts(n.queue) == [])
  }

  /** At most one tick is on its way to its write, and E_SR will not ignore it. */
  predicate Carries(q: bool, light: seq<Event>) {
    || light == []
    || light == [Switch]
    || light == [Write]
    || (light == [Set] && !q)
    || (light == [Reset] && q)
  }

  predicate StopLast(queue: seq<Event>) {
    queue != [] && queue[|queue| - 1] == Stop && NoStarts(queue[..|queue| - 1]) == []
  }

  lemma StopShows(queue: seq<Event>)
    ensures StopLast(queue) ==> NoStarts(queue) == [Stop]
  {
    if StopLast(queue) {
      NoStartsAppend(queue[..|queue| - 1], [Stop]);
      assert queue == queue[..|queue| - 1] + [Stop];
    }
  }

  /** Where a calm network can be: not started, cycling, stopping or stopped. */
  predicate Phase(n: Net) {
    && Alternates(n)
    && n.log.connected <= 1
    && if n.log.connected == 0 then
         && n.log.stops == 0
         && Carries(n.q, NoStarts(n.queue))
         && (n.timer.None? ==> NoStarts(n.queue) == [] && (n.queue == [] <==> n.log.restarts == 0))
         && (n.timer.Some? ==> n.log.restarts > 0)
       else
         || (n.timer.Some? && StopLast(n.queue))
         || (n.timer.None? && n.queue == [])
  }

  lemma SrKeepsPhase(n: Net, isSet: bool)
    requires Alternates(n) && n.timer.Some? && n.log.connected == 0 && n.log.stops == 0 && n.log.restarts > 0
    requires n.q != isSet && NoStarts(n.queue) == []
    ensures Phase(OnSr(n, isSet)) && OnSr(n, isSet).log.ignored == n.log.ignored
  {
    SrAlternates(n, isSet);
    NoStartsWires(n.queue, SrEO);
  }

  /** Handling an event other than START: it was the only one, and a tick is carried one block on. */
  lemma HandleKeepsPhase(n: Net, e: Event, connects: bool, dt: nat)
    requires Alternates(n) && n.timer.Some? && n.log.connected == 0 && n.log.stops == 0 && n.log.restarts > 0
    requires e != Start && Carries(n.q, [e]) && NoStarts(n.queue) == []
    ensures Phase(Handle(n, e, connects, dt))
    ensures Handle(n, e, connects, dt).log.ignored == n.log.ignored
  {
    if e == Set || e == Reset {
      SrKeepsPhase(n, e == Set);
    } else if e == Switch {
      HandleAlternates(n, e, connects, dt);
      NoStartsWires(n.queue, if n.q then SwitchEO1 else SwitchEO0);
    } else {
      HandleAlternates(n, e, connects, dt);
      assert (n.queue + [Stop])[..|n.queue|] == n.queue;
    }
  }

  lemma DispatchKeepsPhase(n: Net, connects: bool, dt: nat)
    requires Phase(n) && n.queue != [] && n.log.connected == 0
    ensures Phase(Step(n, Dispatch(connects), dt))
    ensures Step(n, Dispatch(connects), dt).log.ignored == n.log.ignored
  {
    var m := n.(queue := n.queue[1..]);
    if n.queue[0] == Start {
      HandleAlternates(m, Start, connects, dt);
    } else {
      assert NoStarts(n.queue) == [n.queue[0]] + NoStarts(m.queue);
      HandleKeepsPhase(m, n.queue[0], connects, dt);
    }
  }

  lemma StoppingKeepsPhase(n: Net, connects: bool, dt: nat)
    requires Phase(n) && n.queue != [] && n.log.connected == 1
    ensures Phase(Step(n, Dispatch(connects), dt))
    ensures Step(n, Dispatch(connects), dt).log.ignored == n.log.ignored
  {
    var m := n.(queue := n.queue[1..]);
    var last := |n.queue| - 1;
    if last == 0 {
      HandleAlternates(m, Stop, connects, dt);
    } else {
      assert n.queue[..last][0] == n.queue[0];
      assert n.queue[..last][1..] == m.queue[..last - 1];
      HandleAlternates(m, Start, connects, dt);
    }
  }

  lemma StepKeepsPhase(n: Net, c: Choice, dt: nat)
    requires Phase(n) && CalmChoice(n, c)
    ensures Phase(Step(n, c, dt)) && Step(n, c, dt).log.ignored == n.log.ignored
  {
    if Possible(n, c) {
      StepAlternates(n, c, dt);
      match c
      case Wait(_) =>
      case Restart => NoStartsWires(n.queue, Restarted);
      case Tick =>
        NoStartsWires(n.queue, CycleEO);
        StopShows(n.queue);
      case Dispatch(connects) =>
        if n.log.connected == 0 {
          DispatchKeepsPhase(n, connects, dt);
        } else {
          StoppingKeepsPhase(n, connects, dt);
        }
    }
  }

  lemma {:induction false} CalmKeepsPhase(n: Net, cs: seq<Choice>, dt: nat)
    requires Phase(n) && Calm(n, cs, dt)
    ensures Phase(Run(n, cs, dt)) && Run(n, cs, dt).log.ignored == n.log.ignored
    decreases |cs|
  {
    if cs != [] {
      StepKeepsPhase(n, cs[0], dt);
      CalmKeepsPhase(Step(n, cs[0], dt), cs[1..], dt);
    }
  }

  /** Power-up is a calm phase. */
  lemma IdlePhase(n0: Net)
    requires n0 == IDLE
    ensures Phase(n0) && Conserved(n0) && n0.log.ignored == 0
  {
    assert n0.queue == [] && n0.timer.None?;
  }

  /** What a calm phase says about the history. */
  lemma PhaseTells(n: Net)
    requires Phase(n) && Conserved(n) && n.log.ignored == 0
    ensures n.log.connected <= 1
    ensures n.queue == [] ==> (n.timer.Some? <==> n.log.restarts > 0 && n.log.connected == 0)
    ensures n.queue == [] ==> |n.log.ticks| == n.log.writes
    ensures n.log.connected == 0 ==> n.log.stops == 0
  {
  }

  /** From power-up, on any calm run, with any number of restarts while the cycle runs: at most one
      write ever connects; whenever the queue is empty the cycle runs exactly if it has been started and
      no write has connected, and as many writes as ticks were made; STOP is handled only if a write
      connected. Power-up meets the requirements. */
  lemma StopAfterFirstConfirmedWrite(n0: Net, cs: seq<Choice>, dt: nat)
    requires Phase(n0) && Conserved(n0) && n0.log.ignored == 0
    requires Calm(n0, cs, dt)
    ensures var n := Run(n0, cs, dt);
            && n.log.connected <= 1
            && (n.queue == [] ==> (n.timer.Some? <==> n.log.restarts > 0 && n.log.connected == 0))
            && (n.queue == [] ==> |n.log.ticks| == n.log.writes)
            && (n.log.connected == 0 ==> n.log.stops == 0)
  {
    CalmKeepsPhase(n0, cs, dt);
    RunConserves(n0, cs, dt);
    PhaseTells(Run(n0, cs, dt));
  }

  /** A quiescent network only lets time pass until it is restarted. */
  lemma {:induction false} QuiescenceLasts(n: Net, cs: seq<Choice>, dt: nat)
    requires n.queue == [] && n.timer.None? && forall c :: c in cs ==> c != Restart
    ensures Run(n, cs, dt) == n.(now := Run(n, cs, dt).now)
    decreases |cs|
  {
    if cs != [] {
      assert cs[0] in cs && forall c :: c in cs[1..] ==> c in cs;
      QuiescenceLasts(Step(n, cs[0], dt), cs[1..], dt);
    }
  }
}
