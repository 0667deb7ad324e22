/** The resource that executes the flip-flop application, event by event. */
module Application {
  import opened FlipFlop
  import opened Options
  import opened Runs

  /** One event queue, the cycle timer and the states of the blocks. */
  class FlipFlopResource {
    const dt: nat
    var queue: seq<Event>
    var timer: Option<nat>
    var now: nat
    var ecc: Ecc
    var q: bool
    var log: Log

    ghost function State(): Net
      reads this
    {
      Net(queue, timer, now, ecc, q, log)
    }

    /** No event is lost or duplicated, Q is the parity of the toggles, and ticks are DT apart. */
    ghost predicate Valid()
      reads this
    {
      Conserved(State()) && Alternates(State()) && Spaced(State(), dt)
    }

    constructor (dt: nat)
      ensures State() == IDLE && this.dt == dt && Valid()
    {
      this.dt := dt;
      queue, timer, now, ecc, q := [], None, 0, Q0, false;
      log := IDLE.log;
      new;
      PowerUp(State(), dt);
    }

    /** Follows an output's connections one by one. */
    method SendOutputEvent(o: Output)
      modifies `queue
      ensures queue == old(queue) + Wires(o)
    {
      var targets := Wires(o);
      for i := 0 to |targets|
        invariant queue == old(queue) + targets[..i]
      {
        queue := queue + [targets[i]];
        assert targets[..i + 1] == targets[..i] + [targets[i]];
      }
      assert targets[..|targets|] == targets;
    }

    lemma StepIsValid(c: Choice)
      requires Valid()
      ensures var n := Step(State(), c, dt); Conserved(n) && Alternates(n) && Spaced(n, dt)
    {
      StepConserves(State(), c, dt);
      StepAlternates(State(), c, dt);
      StepSpaces(State(), c, dt);
    }

    method ColdRestart()
      requires Valid()
      modifies this
      ensures State() == Step(old(State()), Restart, dt) && Valid()
    {
      StepIsValid(Restart);
      log := log.(restarts := log.restarts + 1);
      SendOutputEvent(Restarted);
    }

    /** Lets time pass, but never past a due timer. */
    method Elapse(d: nat)
      requires Valid()
      modifies this
      ensures State() == Step(old(State()), Wait(d), dt) && Valid()
    {
      StepIsValid(Wait(d));
      if timer == None || now + d <= timer.value {
        now := now + d;
      }
    }

    method TimerHandler()
      requires Valid()
      modifies this
      ensures State() == Step(old(State()), Tick, dt) && Valid()
    {
      StepIsValid(Tick);
      if timer == Some(now) {
        log := log.(ticks := log.ticks + [now]);
        timer := Some(now + dt);
        SendOutputEvent(CycleEO);
      }
    }

    method ExecuteSr(isSet: bool)
      modifies this
      ensures State() == OnSr(old(State()), isSet)
    {
      if isSet && ecc != SetState {
        ecc, q := SetState, true;
        log := log.(toggles := log.toggles + 1);
        SendOutputEvent(SrEO);
      } else if !isSet && ecc == SetState {
        ecc, q := ResetState, false;
        log := log.(toggles := log.toggles + 1);
        SendOutputEvent(SrEO);
      } else {
        log := log.(ignored := log.ignored + 1);
      }
    }

    method ExecuteSwitch()
      modifies this
      ensures State() == OnSwitch(old(State()))
    {
      log := log.(switched := log.switched + 1);
      if !q {
        SendOutputEvent(SwitchEO0);
      } else {
        SendOutputEvent(SwitchEO1);
      }
    }

    method ExecuteCycle(start: bool)
      modifies this
      ensures State() == if start then OnStart(old(State()), dt) else OnStop(old(State()))
    {
      if start {
        if timer == None {
          timer := Some(now + dt);
        }
        log := log.(starts := log.starts + 1);
      } else {
        timer := None;
        log := log.(stops := log.stops + 1);
      }
    }

    method ExecuteWrite(connects: bool)
      modifies this
      ensures State() == OnWrite(old(State()), connects)
    {
      log := log.(writes := log.writes + 1);
      if connects {
        log := log.(connected := log.connected + 1);
        SendOutputEvent(WriteCNF);
      }
    }

    /** Every event input belongs to one block. */
    method ExecuteEvent(e: Event, connects: bool)
      modifies this
      ensures State() == Handle(old(State()), e, connects, dt)
    {
      match e {
        case Start => ExecuteCycle(true);
        case Stop => ExecuteCycle(false);
        case Switch => ExecuteSwitch();
        case Set => ExecuteSr(true);
        case Reset => ExecuteSr(false);
        case Write => ExecuteWrite(connects);
      }
    }

    method DispatchNext(connects: bool)
      requires Valid()
      modifies this
      ensures State() == Step(old(State()), Dispatch(connects), dt) && Valid()
    {
      StepIsValid(Dispatch(connects));
      if queue == [] {
        return;
      }
      var e := queue[0];
      queue := queue[1..];
      ExecuteEvent(e, connects);
    }

    /** The event thread: handles events until none is left. The cycle is off afterwards if it was
        bound to be, whatever becomes of the writes. */
    method DrainQueue(fates: nat -> bool)
      requires Valid()
      modifies this
      ensures Valid() && queue == []
      ensures State() == Drain(old(State()), fates, 0, dt)
      ensures old(WillRest(State())) ==> timer.None?
    {
      ghost var before := State();
      var k := 0;
      while queue != []
        invariant Valid()
        invariant Drain(State(), fates, k, dt) == Drain(before, fates, 0, dt)
        decreases Weight(queue)
      {
        DispatchLightens(State(), fates(k), dt);
        DispatchNext(fates(k));
        k := k + 1;
      }
      DrainRests(before, fates, 0, dt);
    }
  }
}
