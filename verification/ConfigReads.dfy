/** The Home Assistant client's config-read state: five maps and two sets that together implement one ReadSequence
    machine. */
module ConfigReads {
  import opened Wire
  import opened ReadSequence

  /** What a device has in the five maps in each phase. */
  ghost predicate Agrees(
    phase: Phase, queue: Option<seq<int>>, flying: Option<int>, reading: Option<Timer>, starting: Option<Timer>,
    isActive: bool)
  {
    match phase
    case Idle =>
      queue == None && flying == None && reading == None && starting == None && !isActive
    case Scheduled(q, t) =>
      q != [] && queue == Some(q) && flying == None && reading == None && starting == Some(Timer(t, None)) && isActive
    case Awaiting(r, q, t) =>
      queue == Some(q) && flying == Some(r) && reading == Some(Timer(t, Some(r))) && starting == None && isActive
  }

  class Reader {
    var queues: map<string, seq<int>>
    var inflight: map<string, int>
    var readTimers: map<string, Timer>
    var startTimers: map<string, Timer>
    var active: set<string>
    var refreshed: set<string>
    var created: nat
    var stopped: bool
    /** The machine this state implements. */
    ghost var machine: Machine

    /** One device's entries in the five maps are exactly those of its phase. */
    ghost predicate Matches(d: string)
      reads this
    {
      Agrees(PhaseOf(machine, d), Lookup(queues, d), Lookup(inflight, d), Lookup(readTimers, d), Lookup(startTimers, d),
             d in active)
    }

    ghost predicate Valid()
      reads this
    {
      machine.refreshed == refreshed && machine.nextTimer == created && forall d :: Matches(d)
    }

    /** Everything matches except one device, which is between two phases with q still to request. */
    ghost predicate Between(d: string, q: seq<int>)
      reads this
    {
      && machine.refreshed == refreshed && machine.nextTimer == created
      && (forall e :: e != d ==> Matches(e))
      && d in queues && queues[d] == q && d !in inflight && d !in readTimers && d in active
    }

    constructor ()
      ensures Valid() && machine == START && !stopped
    {
      queues, inflight, readTimers, startTimers := map[], map[], map[], map[];
      active, refreshed, created, stopped, machine := {}, {}, 0, false, START;
    }

    /** Read All is active exactly when one timer is registered: a start timer with a queue and nothing in flight,
        or a response timer for the register in flight. An inactive device has no state at all. */
    lemma ActiveHasOneTimer(d: string)
      requires Valid()
      ensures d in active <==> (d in startTimers) != (d in readTimers)
      ensures d in startTimers ==> d in queues && queues[d] != [] && d !in inflight
      ensures d in readTimers ==> d in queues && d in inflight && readTimers[d].register == Some(inflight[d])
      ensures d !in active ==> d !in queues && d !in inflight && d !in startTimers && d !in readTimers
    {
      assert Matches(d);
    }

    method Cancel(d: string)
      requires machine.refreshed == refreshed && machine.nextTimer == created
      requires forall e :: e != d ==> Matches(e)
      modifies this`queues, this`inflight, this`readTimers, this`startTimers, this`active, this`refreshed, this`machine
      ensures Valid() && machine == Abort(old(machine), d)
    {
      inflight, queues := inflight - {d}, queues - {d};
      readTimers, startTimers := readTimers - {d}, startTimers - {d};
      active, refreshed := active - {d}, refreshed - {d};
      machine := Abort(machine, d);
      forall e | e != d
        ensures Matches(e)
      {
        assert old(Matches(e));
      }
    }

    /** The queue is exhausted: the run has ended by itself. */
    method Finish(d: string)
      requires Between(d, []) && d !in startTimers
      modifies this`queues, this`active, this`machine
      ensures Valid() && machine == Complete(old(machine), d)
    {
      queues, active := queues - {d}, active - {d};
      machine := Complete(machine, d);
      forall e | e != d
        ensures Matches(e)
      {
        assert old(Matches(e));
      }
    }

    /** Take the next register from the queue and arm its response timer before anything is sent. */
    method TakeNext(d: string, timerStarts: bool, ghost q: seq<int>) returns (armed: bool)
      requires Between(d, q) && q != [] && d !in startTimers
      modifies this`queues, this`inflight, this`readTimers, this`startTimers, this`active, this`refreshed
      modifies this`created, this`machine
      ensures Valid() && armed == timerStarts
      ensures machine ==
        if timerStarts
          then Send(old(machine), d, q) else Abort(old(machine).(nextTimer := old(machine).nextTimer + 1), d)
    {
      var register := queues[d][0];
      queues, inflight := queues[d := queues[d][1..]], inflight[d := register];
      readTimers := readTimers[d := Timer(created, Some(register))];
      created := created + 1;
      machine := if timerStarts then Send(machine, d, q) else machine.(nextTimer := created);
      forall e | e != d
        ensures Matches(e)
      {
        assert old(Matches(e));
      }
      if !timerStarts {
        Cancel(d);
      }
      return timerStarts;
    }

    method Kickoff(d: string, env: Env, ghost q: seq<int>)
      requires Between(d, q) && !stopped
      modifies this
      ensures Valid() && !stopped && machine == Continue(old(machine), d, q, env)
      decreases env, 1
    {
      if !env.ready {
        Cancel(d);
        return;
      }
      ForgetStartTimer(d, q);
      if d in inflight {
        return;
      }
      if d !in queues || queues[d] == [] {
        Finish(d);
        return;
      }
      var armed := TakeNext(d, env.timerStarts, q);
      if armed {
        Receive(env.during);
        if env.outcome != Accepted {
          Cancel(d);
        }
      }
    }

    method ForgetStartTimer(d: string, ghost q: seq<int>)
      requires Between(d, q)
      modifies this`startTimers
      ensures Between(d, q) && d !in startTimers
    {
      startTimers := startTimers - {d};
      forall e | e != d
        ensures Matches(e)
      {
        assert old(Matches(e));
      }
    }

    /** Responses that arrive while a request is being published, in order. */
    method Receive(arrivals: seq<Arrival>)
      requires Valid() && !stopped
      modifies this
      ensures Valid() && !stopped && machine == Deliver(old(machine), arrivals)
      decreases arrivals, 0
    {
      if arrivals != [] {
        var init, last := arrivals[..|arrivals| - 1], arrivals[|arrivals| - 1];
        Receive(init);
        HandleResponse(last.device, last.register, last.env);
      }
    }

    method HandleResponse(d: string, register: int, env: Env)
      requires Valid()
      modifies this
      ensures Valid() && stopped == old(stopped)
      ensures machine == if stopped then old(machine) else Respond(old(machine), d, register, env)
      decreases env, 2
    {
      assert Matches(d);
      if stopped || d !in inflight || inflight[d] != register {
        return;
      }
      readTimers, inflight := readTimers - {d}, inflight - {d};
      forall e | e != d
        ensures Matches(e)
      {
        assert old(Matches(e));
      }
      Kickoff(d, env, queues[d]);
    }

    /** A start timer's callback, whether or not that timer is still the registered one. */
    method StartTimerRuns(d: string, timer: Timer, env: Env)
      requires Valid() && timer.register.None?
      modifies this
      ensures Valid() && stopped == old(stopped)
      ensures machine == if stopped then old(machine) else Expire(old(machine), d, timer, env)
    {
      assert Matches(d);
      if !stopped && d in startTimers && startTimers[d] == timer {
        Kickoff(d, env, queues[d]);
      }
    }

    /** A response timer's callback: it goes on with the next register if its own is still in flight. */
    method ReadTimerRuns(d: string, timer: Timer, env: Env)
      requires Valid() && timer.register.Some?
      modifies this
      ensures Valid() && stopped == old(stopped)
      ensures machine == if stopped then old(machine) else Expire(old(machine), d, timer, env)
    {
      assert Matches(d);
      if !stopped && d in readTimers && readTimers[d] == timer {
        if d !in inflight || inflight[d] != timer.register.value {
          return;
        }
        inflight, readTimers := inflight - {d}, readTimers - {d};
        forall e | e != d
          ensures Matches(e)
        {
          assert old(Matches(e));
        }
        Kickoff(d, env, queues[d]);
      }
    }

    function QueueOf(d: string): seq<int>
      reads this
    {
      if d in queues then queues[d] else []
    }

    /** None stands for an exception from starting the timer. */
    method QueueAll(d: string, registers: seq<int>, ready: bool, timerStarts: bool) returns (r: Option<bool>)
      requires Valid()
      modifies this
      ensures Valid() && stopped == old(stopped)
      ensures (machine, r) == Enqueue(old(machine), d, registers, ready, timerStarts)
      ensures r == Some(true) <==>
        registers != [] && ready && timerStarts && PhaseOf(old(machine), d) == Idle
      ensures r == Some(true) ==> d in queues && queues[d] == registers && d in startTimers && d in active
    {
      assert Matches(d);
      if registers == [] || !ready {
        return Some(false);
      }
      if d in active || d in inflight {
        return Some(false);
      }
      var queue := QueueOf(d);
      if queue != [] {
        return Some(false);
      }
      assert queue + registers == registers;
      r := Schedule(d, queue + registers, timerStarts);
    }

    /** Fill the queue and register a start timer for it. */
    method Place(d: string, registers: seq<int>)
      requires Valid() && PhaseOf(machine, d) == Idle && registers != []
      modifies this`queues, this`startTimers, this`active, this`refreshed, this`created, this`machine
      ensures Valid() && machine == Enqueue(old(machine), d, registers, true, true).0
      ensures d in queues && queues[d] == registers && d in startTimers && d in active
    {
      assert Matches(d);
      active, queues, refreshed := active + {d}, queues[d := registers], refreshed + {d};
      startTimers := startTimers[d := Timer(created, None)];
      created := created + 1;
      machine := Enqueue(machine, d, registers, true, true).0;
      forall e | e != d
        ensures Matches(e)
      {
        assert old(Matches(e));
      }
    }

    method Schedule(d: string, registers: seq<int>, timerStarts: bool) returns (r: Option<bool>)
      requires Valid() && PhaseOf(machine, d) == Idle && registers != []
      modifies this`queues, this`inflight, this`readTimers, this`startTimers, this`active, this`refreshed
      modifies this`created, this`machine
      ensures Valid()
      ensures (machine, r) == Enqueue(old(machine), d, registers, true, timerStarts)
      ensures r == Some(true) ==> d in queues && queues[d] == registers && d in startTimers && d in active
    {
      Place(d, registers);
      if !timerStarts {
        ghost var placed := machine;
        Cancel(d);
        assert placed.refreshed - {d} == old(machine).refreshed - {d};
        assert placed.phases - {d} == old(machine).phases - {d};
        return None;
      }
      return Some(true);
    }

    /** The read_all button: its holding reads are published first; the first one refused or failing ends it. */
    method ReadAll(d: string, holding: seq<Outcome>, registers: seq<int>, ready: bool, timerStarts: bool)
      requires Valid() && !stopped
      modifies this
      ensures Valid() && machine == PressReadAll(old(machine), d, holding, registers, ready, timerStarts)
    {
      assert Matches(d);
      if d in active {
        return;
      }
      active := active + {d};
      for i := 0 to |holding|
        invariant forall j :: 0 <= j < i ==> holding[j] == Accepted
        invariant active == old(active) + {d} && machine == old(machine) && refreshed == old(refreshed)
        invariant created == old(created)
        invariant queues == old(queues) && inflight == old(inflight)
        invariant readTimers == old(readTimers) && startTimers == old(startTimers)
      {
        if holding[i] != Accepted {
          forall e | e != d
            ensures Matches(e)
          {
            assert old(Matches(e));
          }
          Cancel(d);
          return;
        }
      }
      active := active - {d};
      assert active == old(active);
      var r := QueueAll(d, registers, ready, timerStarts);
    }

    method RefreshIfNeeded(d: string, registers: seq<int>, ready: bool, timerStarts: bool)
      requires Valid() && !stopped
      modifies this
      ensures Valid() && machine == Refresh(old(machine), d, registers, ready, timerStarts)
    {
      if d !in refreshed {
        var r := QueueAll(d, registers, ready, timerStarts);
      }
    }

    method ResetAll()
      requires Valid()
      modifies this
      ensures Valid() && stopped == old(stopped) && machine == Reset(old(machine))
    {
      startTimers, readTimers, queues, inflight, active, refreshed := map[], map[], map[], map[], {}, {};
      machine := Reset(machine);
    }

    method Stop()
      requires Valid()
      modifies this
      ensures Valid() && stopped && machine == Reset(old(machine))
    {
      stopped := true;
      forall e
        ensures Matches(e)
      {
        assert old(Matches(e));
      }
      ResetAll();
    }
  }
}
