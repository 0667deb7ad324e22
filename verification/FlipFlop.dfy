/** The flip-flop application: E_CYCLE, E_SWITCH, E_SR and OPC_UA_WRITE, their event wiring, one
    FIFO event queue and the cycle timer. A run is any list of environment choices. */
module FlipFlop {
  import opened Options

  /** Event inputs of the four blocks. */
  datatype Event = Start | Stop | Switch | Set | Reset | Write

  /** Event outputs of the four blocks and of the resource's E_RESTART. */
  datatype Output = Restarted | CycleEO | SwitchEO0 | SwitchEO1 | SrEO | WriteCNF

  /** The event connections, in the order they are declared. */
  function Wires(o: Output): seq<Event> {
    match o
    case Restarted => [Start]
    case CycleEO => [Switch]
    case SwitchEO0 => [Set]
    case SwitchEO1 => [Reset]
    case SrEO => [Start, Write]
    case WriteCNF => [Stop]
  }

  lemma WiresTail(o: Output)
    ensures Wires(o)[1..] == if o == SrEO then [Write] else []
    ensures [Write][1..] == []
  {
  }

  /** States of the E_SR execution control chart. */
  datatype Ecc = Q0 | SetState | ResetState

  /** `timer` is when the running cycle fires next; `q` is E_SR's output, which E_SWITCH samples. */
  datatype Net = Net(queue: seq<Event>, timer: Option<nat>, now: nat, ecc: Ecc, q: bool, log: Log)

  /** What has happened so far. */
  datatype Log = Log(restarts: nat, ticks: seq<nat>, starts: nat, stops: nat, switched: nat,
                     toggles: nat, ignored: nat, writes: nat, connected: nat)

  const IDLE := Net([], None, 0, Q0, false, Log(0, [], 0, 0, 0, 0, 0, 0, 0))

  function Emit(n: Net, o: Output): Net {
    n.(queue := n.queue + Wires(o))
  }

  // ---- Blocks, on an event already taken from the queue

  /** E_CYCLE: a START while the cycle runs is ignored. */
  function OnStart(n: Net, dt: nat): Net {
    n.(timer := if n.timer.None? then Some(n.now + dt) else n.timer,
       log := n.log.(starts := n.log.starts + 1))
  }

  function OnStop(n: Net): Net {
    n.(timer := None, log := n.log.(stops := n.log.stops + 1))
  }

  /** E_SWITCH: routes by the value of Q at the moment it runs. */
  function OnSwitch(n: Net): Net {
    Emit(n.(log := n.log.(switched := n.log.switched + 1)), if n.q then SwitchEO1 else SwitchEO0)
  }

  /** E_SR reacts to S outside SET and to R in SET only. */
  predicate Reacts(ecc: Ecc, isSet: bool) {
    isSet <==> ecc != SetState
  }

  function OnSr(n: Net, isSet: bool): Net {
    if Reacts(n.ecc, isSet) then
      Emit(n.(ecc := if isSet then SetState else ResetState, q := isSet, log := n.log.(toggles := n.log.toggles + 1)),
           SrEO)
    else n.(log := n.log.(ignored := n.log.ignored + 1))
  }

  /** OPC_UA_WRITE confirms only when it connected. */
  function OnWrite(n: Net, connects: bool): Net {
    var m := n.(log := n.log.(writes := n.log.writes + 1));
    if connects then Emit(m.(log := m.log.(connected := m.log.connected + 1)), WriteCNF) else m
  }

  function Handle(n: Net, e: Event, connects: bool, dt: nat): Net {
    match e
    case Start => OnStart(n, dt)
    case Stop => OnStop(n)
    case Switch => OnSwitch(n)
    case Set => OnSr(n, true)
    case Reset => OnSr(n, false)
    case Write => OnWrite(n, connects)
  }

  /** The environment lets time pass, restarts the resource, lets a due timer fire, or lets the
      runtime handle the next event; `connects` is whether that event's write would connect. */
  datatype Choice = Wait(d: nat) | Restart | Tick | Dispatch(connects: bool)

  /** Time never runs past a due timer. */
  predicate Possible(n: Net, c: Choice) {
    match c
    case Wait(d) => n.timer.None? || n.now + d <= n.timer.value
    case Restart => true
    case Tick => n.timer == Some(n.now)
    case Dispatch(_) => n.queue != []
  }

  function Step(n: Net, c: Choice, dt: nat): Net {
    if !Possible(n, c) then n
    else
      match c
      case Wait(d) => n.(now := n.now + d)
      case Restart => Emit(n.(log := n.log.(restarts := n.log.restarts + 1)), Restarted)
      case Tick =>
        Emit(n.(timer := Some(n.now + dt), log := n.log.(ticks := n.log.ticks + [n.now])), CycleEO)
      case Dispatch(connects) => Handle(n.(queue := n.queue[1..]), n.queue[0], connects, dt)
  }

  function Run(n: Net, cs: seq<Choice>, dt: nat): Net
    decreases |cs|
  {
    if cs == [] then n else Run(Step(n, cs[0], dt), cs[1..], dt)
  }

  // ---- Event conservation

  function Count(queue: seq<Event>, e: Event): nat
    decreases |queue|
  {
    if queue == [] then 0 else (if queue[0] == e then 1 else 0) + Count(queue[1..], e)
  }

  lemma {:induction false} CountAppend(queue: seq<Event>, more: seq<Event>, e: Event)
    ensures Count(queue + more, e) == Count(queue, e) + Count(more, e)
    decreases |queue|
  {
    if queue == [] {
      assert queue + more == more;
    } else {
      assert (queue + more)[1..] == queue[1..] + more;
      CountAppend(queue[1..], more, e);
    }
  }

  function Waiting(n: Net, e: Event): nat {
    Count(n.queue, e)
  }

  /** Nothing emitted is lost or duplicated on its way. */
  predicate Conserved(n: Net) {
    && |n.log.ticks| == n.log.switched + Waiting(n, Switch)
    && n.log.switched == n.log.toggles + n.log.ignored + Waiting(n, Set) + Waiting(n, Reset)
    && n.log.toggles == n.log.writes + Waiting(n, Write)
    && n.log.restarts + n.log.toggles == n.log.starts + Waiting(n, Start)
    && n.log.connected == n.log.stops + Waiting(n, Stop)
    && n.log.connected <= n.log.writes
  }

  lemma EmitCounts(queue: seq<Event>, o: Output)
    ensures forall e :: Count(queue + Wires(o), e) == Count(queue, e) + if e in Wires(o) then 1 else 0
  {
    forall e ensures Count(queue + Wires(o), e) == Count(queue, e) + if e in Wires(o) then 1 else 0 {
      CountAppend(queue, Wires(o), e);
      WiresTail(o);
    }
  }

  lemma CountCons(e: Event, queue: seq<Event>)
    ensures forall x :: Count([e] + queue, x) == Count(queue, x) + if x == e then 1 else 0
  {
    assert ([e] + queue)[1..] == queue;
  }

  /** The event just taken is still on the books. */
  predicate Owing(n: Net, e: Event) {
    Conserved(n.(queue := [e] + n.queue))
  }

  lemma SwitchConserves(n: Net)
    requires Owing(n, Switch)
    ensures Conserved(OnSwitch(n))
  {
    CountCons(Switch, n.queue);
    EmitCounts(n.queue, if n.q then SwitchEO1 else SwitchEO0);
  }

  lemma SrConserves(n: Net, isSet: bool)
    requires Owing(n, if isSet then Set else Reset)
    ensures Conserved(OnSr(n, isSet))
  {
    CountCons(if isSet then Set else Reset, n.queue);
    EmitCounts(n.queue, SrEO);
    var m := OnSr(n, isSet);
    if Reacts(n.ecc, isSet) {
      assert m.queue == n.queue + Wires(SrEO);
      assert m.log == n.log.(toggles := n.log.toggles + 1);
    }
  }

  lemma WriteConserves(n: Net, connects: bool)
    requires Owing(n, Write)
    ensures Conserved(OnWrite(n, connects))
  {
    CountCons(Write, n.queue);
    EmitCounts(n.queue, WriteCNF);
  }

  lemma CycleConserves(n: Net, dt: nat)
    ensures Owing(n, Start) ==> Conserved(OnStart(n, dt))
    ensures Owing(n, Stop) ==> Conserved(OnStop(n))
  {
    CountCons(Start, n.queue);
    CountCons(Stop, n.queue);
  }

  lemma HandleConserves(n: Net, e: Event, connects: bool, dt: nat)
    requires Owing(n, e)
    ensures Conserved(Handle(n, e, connects, dt))
  {
    match e
    case Start => CycleConserves(n, dt);
    case Stop => CycleConserves(n, dt);
    case Switch => SwitchConserves(n);
    case Set => SrConserves(n, true);
    case Reset => SrConserves(n, false);
    case Write => WriteConserves(n, connects);
  }

  lemma StepConserves(n: Net, c: Choice, dt: nat)
    requires Conserved(n)
    ensures Conserved(Step(n, c, dt))
  {
    if Possible(n, c) {
      match c
      case Wait(_) =>
      case Restart => EmitCounts(n.queue, Restarted);
      case Tick => EmitCounts(n.queue, CycleEO);
      case Dispatch(connects) =>
        var m := n.(queue := n.queue[1..]);
        assert m.(queue := [n.queue[0]] + m.queue) == n;
        HandleConserves(m, n.queue[0], connects, dt);
    }
  }

  /** In every reachable state each tick, toggle, write and confirmation is either handled or still
      queued: each toggle causes one write request, and STOPs equal the writes that connected. */
  lemma {:induction false} RunConserves(n: Net, cs: seq<Choice>, dt: nat)
    requires Conserved(n)
    ensures Conserved(Run(n, cs, dt))
    decreases |cs|
  {
    if cs != [] {
      StepConserves(n, cs[0], dt);
      RunConserves(Step(n, cs[0], dt), cs[1..], dt);
    }
  }

  // ---- Alternation

  function QAfter(q: bool, e: Event): bool {
    match e case Set => true case Reset => false case _ => q
  }

  /** Q once the sets and resets waiting in a queue have been handled. */
  function Settles(q: bool, queue: seq<Event>): bool
    decreases |queue|
  {
    if queue == [] then q else Settles(QAfter(q, queue[0]), queue[1..])
  }

  predicate Ignores(q: bool, e: Event) {
    (e == Set && q) || (e == Reset && !q)
  }

  /** Queued sets and resets E_SR will ignore when it handles them in order. */
  function Doomed(q: bool, queue: seq<Event>): nat
    decreases |queue|
  {
    if queue == [] then 0
    else (if Ignores(q, queue[0]) then 1 else 0) + Doomed(QAfter(q, queue[0]), queue[1..])
  }

  lemma {:induction false} QueueAppend(q: bool, queue: seq<Event>, more: seq<Event>)
    ensures Settles(q, queue + more) == Settles(Settles(q, queue), more)
    ensures Doomed(q, queue + more) == Doomed(q, queue) + Doomed(Settles(q, queue), more)
    decreases |queue|
  {
    if queue == [] {
      assert queue + more == more;
    } else {
      assert (queue + more)[1..] == queue[1..] + more;
      QueueAppend(QAfter(q, queue[0]), queue[1..], more);
    }
  }

  /** What one emission adds for E_SR. */
  lemma WiresDoomed(q: bool, o: Output)
    ensures Doomed(q, Wires(o)) == (if (o == SwitchEO0 && q) || (o == SwitchEO1 && !q) then 1 else 0)
  {
    WiresTail(o);
  }

  /** This choice lets E_SWITCH decide on a Q that pending sets and resets are about to change. */
  predicate Misjudges(n: Net, c: Choice) {
    c.Dispatch? && n.queue != [] && n.queue[0] == Switch && Settles(n.q, n.queue[1..]) != n.q
  }

  function Misjudged(n: Net, cs: seq<Choice>, dt: nat): nat
    decreases |cs|
  {
    if cs == [] then 0
    else (if Misjudges(n, cs[0]) then 1 else 0) + Misjudged(Step(n, cs[0], dt), cs[1..], dt)
  }

  /** Q follows E_SR's chart and is the parity of the toggles. */
  predicate Alternates(n: Net) {
    n.q == (n.ecc == SetState) && n.q == (n.log.toggles % 2 == 1)
  }

  function Spoilt(n: Net): nat {
    n.log.ignored + Doomed(n.q, n.queue)
  }

  lemma EmitSpoils(n: Net, o: Output)
    ensures Spoilt(Emit(n, o)) == Spoilt(n) + Doomed(Settles(n.q, n.queue), Wires(o))
  {
    QueueAppend(n.q, n.queue, Wires(o));
  }

  lemma HandleAlternates(n: Net, e: Event, connects: bool, dt: nat)
    requires Alternates(n)
    ensures Alternates(Handle(n, e, connects, dt))
    ensures Spoilt(Handle(n, e, connects, dt))
            == n.log.ignored + (if Ignores(n.q, e) then 1 else 0) + Doomed(QAfter(n.q, e), n.queue)
               + (if e == Switch && Settles(n.q, n.queue) != n.q then 1 else 0)
  {
    match e
    case Start =>
    case Stop =>
    case Switch =>
      var o := if n.q then SwitchEO1 else SwitchEO0;
      EmitSpoils(n.(log := n.log.(switched := n.log.switched + 1)), o);
      WiresDoomed(Settles(n.q, n.queue), o);
    case Set => SrAlternates(n, true);
    case Reset => SrAlternates(n, false);
    case Write =>
      var m := n.(log := n.log.(writes := n.log.writes + 1));
      EmitSpoils(m.(log := m.log.(connected := m.log.connected + 1)), WriteCNF);
      WiresDoomed(Settles(n.q, n.queue), WriteCNF);
  }

  lemma SrAlternates(n: Net, isSet: bool)
    requires Alternates(n)
    ensures Alternates(OnSr(n, isSet))
    ensures Spoilt(OnSr(n, isSet)) == n.log.ignored + (if n.q == isSet then 1 else 0) + Doomed(isSet, n.queue)
  {
    if Reacts(n.ecc, isSet) {
      var m := n.(ecc := if isSet then SetState else ResetState, q := isSet,
                  log := n.log.(toggles := n.log.toggles + 1));
      EmitSpoils(m, SrEO);
      WiresDoomed(Settles(m.q, m.queue), SrEO);
    }
  }

  lemma StepAlternates(n: Net, c: Choice, dt: nat)
    requires Alternates(n)
    ensures Alternates(Step(n, c, dt))
    ensures Spoilt(Step(n, c, dt)) == Spoilt(n) + if Misjudges(n, c) then 1 else 0
  {
    if Possible(n, c) {
      match c
      case Wait(_) =>
      case Restart =>
        EmitSpoils(n.(log := n.log.(restarts := n.log.restarts + 1)), Restarted);
        WiresDoomed(Settles(n.q, n.queue), Restarted);
      case Tick =>
        EmitSpoils(n.(timer := Some(n.now + dt), log := n.log.(ticks := n.log.ticks + [n.now])), CycleEO);
        WiresDoomed(Settles(n.q, n.queue), CycleEO);
      case Dispatch(connects) =>
        HandleAlternates(n.(queue := n.queue[1..]), n.queue[0], connects, dt);
    }
  }

  /** On every run, whatever the timing, sets and resets that take effect alternate; and the events
      E_SR has ignored or is bound to ignore are exactly E_SWITCH's misjudgements. */
  lemma {:induction false} RunAlternates(n: Net, cs: seq<Choice>, dt: nat)
    requires Alternates(n)
    ensures Alternates(Run(n, cs, dt))
    ensures Spoilt(Run(n, cs, dt)) == Spoilt(n) + Misjudged(n, cs, dt)
    decreases |cs|
  {
    if cs != [] {
      StepAlternates(n, cs[0], dt);
      RunAlternates(Step(n, cs[0], dt), cs[1..], dt);
    }
  }
}
