/** Config reads as an abstract machine: one phase per device, and an environment that answers, fails or stays
    silent. */
module ReadSequence {
  import opened Wire

  /** What a device's read cycle is doing. The timer is the one registered for it. */
  datatype Phase =
    | Idle
    | Scheduled(queue: seq<int>, timer: nat)
    | Awaiting(register: int, queue: seq<int>, timer: nat)

  /** A timer object and the register its callback was given, which start timers do not have. */
  datatype Timer = Timer(id: nat, register: Option<int>)

  datatype Outcome = Accepted | Rejected | Raised

  /** The environment's part in sending one request: is the source ready, can a timer start, which responses
      arrive while the request is being published, and how the publish ends. */
  datatype Env = Env(ready: bool, timerStarts: bool, during: seq<Arrival>, outcome: Outcome)

  datatype Arrival = Arrival(device: string, register: int, env: Env)

  datatype Machine = Machine(
    phases: map<string, Phase>,       // devices that are not idle
    plan: map<string, seq<int>>,      // the registers of each device's latest run
    requested: map<string, seq<int>>, // what that run has asked for so far
    completed: set<string>,           // devices whose latest run exhausted its queue
    refreshed: set<string>,
    nextTimer: nat)

  const START := Machine(map[], map[], map[], {}, {}, 0)

  function PhaseOf(m: Machine, d: string): Phase { if d in m.phases then m.phases[d] else Idle }

  function Requested(m: Machine, d: string): seq<int> { if d in m.requested then m.requested[d] else [] }

  function Plan(m: Machine, d: string): seq<int> { if d in m.plan then m.plan[d] else [] }

  function TimerOf(m: Machine, d: string): Option<Timer> {
    match PhaseOf(m, d)
    case Idle => None
    case Scheduled(_, t) => Some(Timer(t, None))
    case Awaiting(r, _, t) => Some(Timer(t, Some(r)))
  }

  // ---- steps

  function Abort(m: Machine, d: string): Machine { m.(phases := m.phases - {d}, refreshed := m.refreshed - {d}) }

  function Complete(m: Machine, d: string): Machine { m.(phases := m.phases - {d}, completed := m.completed + {d}) }

  /** Register q[0] as in flight and put the request on the wire. */
  function Send(m: Machine, d: string, q: seq<int>): Machine
    requires q != []
  {
    m.(phases := m.phases[d := Awaiting(q[0], q[1..], m.nextTimer)],
       requested := m.requested[d := Requested(m, d) + [q[0]]],
       nextTimer := m.nextTimer + 1)
  }

  /** Go on with the rest of a device's queue. */
  function Continue(m: Machine, d: string, q: seq<int>, env: Env): Machine
    decreases env, 1
  {
    if !env.ready then Abort(m, d)
    else if q == [] then Complete(m, d)
    else if !env.timerStarts then Abort(m.(nextTimer := m.nextTimer + 1), d)
    else
      var after := Deliver(Send(m, d, q), env.during);
      if env.outcome == Accepted then after else Abort(after, d)
  }

  function Deliver(m: Machine, arrivals: seq<Arrival>): Machine
    decreases arrivals, 0
  {
    if arrivals == [] then m
    else
      var init, last := arrivals[..|arrivals| - 1], arrivals[|arrivals| - 1];
      Respond(Deliver(m, init), last.device, last.register, last.env)
  }

  /** A config-read response: it counts only when that register is the one in flight. */
  function Respond(m: Machine, d: string, register: int, env: Env): Machine
    decreases env, 2
  {
    match PhaseOf(m, d)
    case Awaiting(r, q, _) => if r == register then Continue(m, d, q, env) else m
    case _ => m
  }

  /** A timer's callback runs. Only the timer that is registered for the device has any effect. */
  function Expire(m: Machine, d: string, timer: Timer, env: Env): Machine {
    if TimerOf(m, d) != Some(timer) then m else Continue(m, d, PhaseOf(m, d).queue, env)
  }

  /** Queue a full run; the second component is the source's return value, or None where it raises. */
  function Enqueue(m: Machine, d: string, registers: seq<int>, ready: bool, timerStarts: bool): (Machine, Option<bool>)
  {
    if registers == [] || !ready || PhaseOf(m, d) != Idle then (m, Some(false))
    else
      var next := m.(plan := m.plan[d := registers], requested := m.requested[d := []], completed := m.completed - {d},
                     nextTimer := m.nextTimer + 1);
      if timerStarts then
        (next.(phases := m.phases[d := Scheduled(registers, m.nextTimer)], refreshed := m.refreshed + {d}), Some(true))
      else (Abort(next, d), None)
  }

  /** The Read All button: holding reads first, each of which can stop it, then the queue. */
  function PressReadAll(
      m: Machine, d: string, holding: seq<Outcome>, registers: seq<int>, ready: bool, timerStarts: bool): Machine
  {
    if PhaseOf(m, d) != Idle then m
    else if exists i :: 0 <= i < |holding| && holding[i] != Accepted then Abort(m, d)
    else Enqueue(m, d, registers, ready, timerStarts).0
  }

  /** Device activity: an automatic run unless the device already had one. */
  function Refresh(m: Machine, d: string, registers: seq<int>, ready: bool, timerStarts: bool): Machine {
    if d in m.refreshed then m else Enqueue(m, d, registers, ready, timerStarts).0
  }

  function Reset(m: Machine): Machine { m.(phases := map[], refreshed := {}) }

  datatype Event =
    | ReadAllPressed(d: string, holding: seq<Outcome>, registers: seq<int>, ready: bool, timerStarts: bool)
    | Active(d: string, registers: seq<int>, ready: bool, timerStarts: bool)
    | Expired(d: string, timer: Timer, env: Env)
    | Responded(d: string, register: int, env: Env)
    | Reconnected

  function Step(m: Machine, e: Event): Machine {
    match e
    case ReadAllPressed(d, holding, registers, ready, timerStarts) =>
      PressReadAll(m, d, holding, registers, ready, timerStarts)
    case Active(d, registers, ready, timerStarts) => Refresh(m, d, registers, ready, timerStarts)
    case Expired(d, timer, env) => Expire(m, d, timer, env)
    case Responded(d, register, env) => Respond(m, d, register, env)
    case Reconnected => Reset(m)
  }

  function Run(m: Machine, events: seq<Event>): Machine {
    if events == [] then m else Step(Run(m, events[..|events| - 1]), events[|events| - 1])
  }

  // ---- what every run keeps

  /** One device: its run has requested the front of its plan, and what is queued is exactly the rest. */
  ghost predicate InOrder(m: Machine, d: string) {
    && (d in m.completed ==> PhaseOf(m, d) == Idle && Requested(m, d) == Plan(m, d))
    && match PhaseOf(m, d)
       case Idle => Requested(m, d) <= Plan(m, d)
       case Scheduled(q, t) => q != [] && Requested(m, d) == [] && q == Plan(m, d) && t < m.nextTimer
       case Awaiting(r, q, t) =>
         && Requested(m, d) + q == Plan(m, d) && t < m.nextTimer
         && Requested(m, d) != [] && Requested(m, d)[|Requested(m, d)| - 1] == r
  }

  ghost predicate AllInOrder(m: Machine) { forall d :: InOrder(m, d) }

  /** The precondition of going on: q is what the device still has to request. */
  ghost predicate AtQueue(m: Machine, d: string, q: seq<int>) {
    AllInOrder(m) && d !in m.completed && Requested(m, d) + q == Plan(m, d)
  }

  lemma AbortKeeps(m: Machine, d: string)
    requires forall e :: e != d ==> InOrder(m, e)
    requires d !in m.completed && Requested(m, d) <= Plan(m, d)
    ensures AllInOrder(Abort(m, d))
  {
    forall e
      ensures InOrder(Abort(m, d), e)
    {
      assert e != d ==> InOrder(m, e);
    }
  }

  lemma SendKeeps(m: Machine, d: string, q: seq<int>)
    requires AtQueue(m, d, q) && q != []
    ensures AllInOrder(Send(m, d, q))
  {
    assert Requested(m, d) + q == (Requested(m, d) + [q[0]]) + q[1..];
    forall e
      ensures InOrder(Send(m, d, q), e)
    {
      assert InOrder(m, e);
    }
  }

  lemma {:induction false} ContinueKeeps(m: Machine, d: string, q: seq<int>, env: Env)
    requires AtQueue(m, d, q)
    ensures AllInOrder(Continue(m, d, q, env))
    decreases env, 1
  {
    assert forall e :: InOrder(m, e);
    if env.ready && q != [] && env.timerStarts {
      SendKeeps(m, d, q);
      var after := Deliver(Send(m, d, q), env.during);
      DeliverKeeps(Send(m, d, q), env.during);
      if env.outcome != Accepted {
        AbortAnything(after, d);
      }
    } else if env.ready && q == [] {
      CompleteKeeps(m, d);
    } else {
      var next := if env.ready then m.(nextTimer := m.nextTimer + 1) else m;
      forall e
        ensures InOrder(next, e)
      {
        assert InOrder(m, e);
      }
      AbortKeeps(next, d);
    }
  }

  lemma CompleteKeeps(m: Machine, d: string)
    requires AtQueue(m, d, [])
    ensures AllInOrder(Complete(m, d))
  {
    assert Requested(m, d) + [] == Requested(m, d);
    forall e
      ensures InOrder(Complete(m, d), e)
    {
      assert InOrder(m, e);
    }
  }

  /** Cancelling a device in any state leaves a prefix of its plan requested. */
  lemma AbortAnything(m: Machine, d: string)
    requires AllInOrder(m)
    ensures AllInOrder(Abort(m, d))
  {
    forall e
      ensures InOrder(Abort(m, d), e)
    {
      assert InOrder(m, e);
    }
  }

  lemma {:induction false} DeliverKeeps(m: Machine, arrivals: seq<Arrival>)
    requires AllInOrder(m)
    ensures AllInOrder(Deliver(m, arrivals))
    decreases arrivals, 0
  {
    if arrivals != [] {
      var init, last := arrivals[..|arrivals| - 1], arrivals[|arrivals| - 1];
      DeliverKeeps(m, init);
      RespondKeeps(Deliver(m, init), last.device, last.register, last.env);
    }
  }

  lemma {:induction false} RespondKeeps(m: Machine, d: string, register: int, env: Env)
    requires AllInOrder(m)
    ensures AllInOrder(Respond(m, d, register, env))
    decreases env, 2
  {
    assert InOrder(m, d);
    match PhaseOf(m, d)
    case Awaiting(r, q, _) =>
      if r == register {
        ContinueKeeps(m, d, q, env);
      }
    case _ =>
  }

  lemma EnqueueKeeps(m: Machine, d: string, registers: seq<int>, ready: bool, timerStarts: bool)
    requires AllInOrder(m)
    ensures AllInOrder(Enqueue(m, d, registers, ready, timerStarts).0)
  {
    var next := Enqueue(m, d, registers, ready, timerStarts).0;
    forall e
      ensures InOrder(next, e)
    {
      assert InOrder(m, e);
      assert [] + registers == registers;
    }
  }

  lemma StepKeeps(m: Machine, e: Event)
    requires AllInOrder(m)
    ensures AllInOrder(Step(m, e))
  {
    match e
    case ReadAllPressed(d, holding, registers, ready, timerStarts) =>
      AbortAnything(m, d);
      EnqueueKeeps(m, d, registers, ready, timerStarts);
    case Active(d, registers, ready, timerStarts) =>
      EnqueueKeeps(m, d, registers, ready, timerStarts);
    case Expired(d, timer, env) =>
      assert InOrder(m, d);
      if TimerOf(m, d) == Some(timer) {
        assert [] + PhaseOf(m, d).queue == PhaseOf(m, d).queue;
        ContinueKeeps(m, d, PhaseOf(m, d).queue, env);
      }
    case Responded(d, register, env) =>
      RespondKeeps(m, d, register, env);
    case Reconnected =>
      forall d
        ensures InOrder(Reset(m), d)
      {
        assert InOrder(m, d);
      }
  }

  /** In every run a device's latest cycle has requested a prefix of its registers, in order and once each,
      and all of them when it ended by itself. */
  lemma {:induction false} RunRequestsInOrder(events: seq<Event>, d: string)
    ensures AllInOrder(Run(START, events))
    ensures var m := Run(START, events);
      Requested(m, d) <= Plan(m, d) && (d in m.completed ==> Requested(m, d) == Plan(m, d))
    decreases |events|
  {
    if events != [] {
      RunRequestsInOrder(events[..|events| - 1], d);
      StepKeeps(Run(START, events[..|events| - 1]), events[|events| - 1]);
    }
    assert InOrder(Run(START, events), d);
  }

  // ---- progress

  /** Requests still to be made or answered. */
  function Remaining(m: Machine, d: string): nat {
    match PhaseOf(m, d) case Idle => 0 case Scheduled(q, _) => |q| + 1 case Awaiting(_, q, _) => |q| + 1
  }

  /** Going on leaves at most the queue to do, and no other device has more to do than before. */
  lemma {:induction false} ContinueDecreases(m: Machine, d: string, q: seq<int>, env: Env)
    ensures Remaining(Continue(m, d, q, env), d) <= |q|
    ensures forall e :: e != d ==> Remaining(Continue(m, d, q, env), e) <= Remaining(m, e)
    decreases env, 1
  {
    if env.ready && q != [] && env.timerStarts {
      DeliverDecreases(Send(m, d, q), env.during);
    }
  }

  lemma {:induction false} DeliverDecreases(m: Machine, arrivals: seq<Arrival>)
    ensures forall e :: Remaining(Deliver(m, arrivals), e) <= Remaining(m, e)
    decreases arrivals, 0
  {
    if arrivals != [] {
      var init, last := arrivals[..|arrivals| - 1], arrivals[|arrivals| - 1];
      DeliverDecreases(m, init);
      RespondDecreases(Deliver(m, init), last.device, last.register, last.env);
    }
  }

  /** A matching response strictly decreases what is left; any other response changes nothing at all. */
  lemma {:induction false} RespondDecreases(m: Machine, d: string, register: int, env: Env)
    ensures var after, phase := Respond(m, d, register, env), PhaseOf(m, d);
      && (forall e :: Remaining(after, e) <= Remaining(m, e))
      && (if phase.Awaiting? && phase.register == register then Remaining(after, d) < Remaining(m, d) else after == m)
    decreases env, 2
  {
    var phase := PhaseOf(m, d);
    if phase.Awaiting? && phase.register == register {
      ContinueDecreases(m, d, phase.queue, env);
    }
  }

  /** The expiry of the registered timer strictly decreases what is left; that of any other timer changes nothing at
      all. */
  lemma ExpireDecreases(m: Machine, d: string, timer: Timer, env: Env)
    ensures var after := Expire(m, d, timer, env);
      && (forall e :: Remaining(after, e) <= Remaining(m, e))
      && (if TimerOf(m, d) == Some(timer) then Remaining(after, d) < Remaining(m, d) else after == m)
  {
    if TimerOf(m, d) == Some(timer) {
      ContinueDecreases(m, d, PhaseOf(m, d).queue, env);
    }
  }

  const SMOOTH := Env(true, true, [], Accepted)

  /** Expire the device's own timer n times while everything works. */
  function Drive(m: Machine, d: string, n: nat): Machine
    decreases n
  {
    if n == 0 || PhaseOf(m, d) == Idle then m else Drive(Expire(m, d, TimerOf(m, d).value, SMOOTH), d, n - 1)
  }

  /** Even a device that never answers gets every request: where nothing fails, a run ends by itself. */
  lemma {:induction false} SilentRunCompletes(m: Machine, d: string)
    requires AllInOrder(m) && PhaseOf(m, d) != Idle
    ensures d in Drive(m, d, Remaining(m, d)).completed
    ensures Requested(Drive(m, d, Remaining(m, d)), d) == Plan(m, d)
    decreases Remaining(m, d)
  {
    var timer := TimerOf(m, d).value;
    var next := Expire(m, d, timer, SMOOTH);
    StepKeeps(m, Expired(d, timer, SMOOTH));
    assert InOrder(m, d) && InOrder(next, d);
    if PhaseOf(m, d).queue == [] {
      assert Drive(next, d, 0) == next;
    } else {
      SilentRunCompletes(next, d);
    }
  }

  // ---- stale timers

  /** From `was` to `now` no timer that already existed became registered for a device again. */
  ghost predicate OnlyNewTimers(was: Machine, now: Machine) {
    && was.nextTimer <= now.nextTimer
    && forall d ::
      TimerOf(now, d) == TimerOf(was, d) || TimerOf(now, d) == None || TimerOf(now, d).value.id >= was.nextTimer
  }

  lemma OnlyNewTimersChain(a: Machine, b: Machine, c: Machine)
    requires OnlyNewTimers(a, b) && OnlyNewTimers(b, c)
    ensures OnlyNewTimers(a, c)
  {}

  lemma {:induction false} ContinueTimers(m: Machine, d: string, q: seq<int>, env: Env)
    ensures OnlyNewTimers(m, Continue(m, d, q, env))
    decreases env, 1
  {
    if env.ready && q != [] && env.timerStarts {
      var sent := Send(m, d, q);
      var after := Deliver(sent, env.during);
      DeliverTimers(sent, env.during);
      OnlyNewTimersChain(m, sent, after);
      assert OnlyNewTimers(after, Abort(after, d));
      OnlyNewTimersChain(m, after, Abort(after, d));
    }
  }

  lemma {:induction false} DeliverTimers(m: Machine, arrivals: seq<Arrival>)
    ensures OnlyNewTimers(m, Deliver(m, arrivals))
    decreases arrivals, 0
  {
    if arrivals != [] {
      var init, last := arrivals[..|arrivals| - 1], arrivals[|arrivals| - 1];
      DeliverTimers(m, init);
      RespondTimers(Deliver(m, init), last.device, last.register, last.env);
      OnlyNewTimersChain(m, Deliver(m, init), Deliver(m, arrivals));
    }
  }

  lemma {:induction false} RespondTimers(m: Machine, d: string, register: int, env: Env)
    ensures OnlyNewTimers(m, Respond(m, d, register, env))
    decreases env, 2
  {
    var phase := PhaseOf(m, d);
    if phase.Awaiting? && phase.register == register {
      ContinueTimers(m, d, phase.queue, env);
    }
  }

  lemma StepTimers(m: Machine, e: Event)
    ensures OnlyNewTimers(m, Step(m, e))
  {
    match e
    case Expired(d, timer, env) =>
      if TimerOf(m, d) == Some(timer) {
        ContinueTimers(m, d, PhaseOf(m, d).queue, env);
      }
    case Responded(d, register, env) =>
      RespondTimers(m, d, register, env);
    case _ =>
  }

  lemma {:induction false} RunTimers(m: Machine, events: seq<Event>)
    ensures OnlyNewTimers(m, Run(m, events))
    decreases |events|
  {
    if events != [] {
      var before := Run(m, events[..|events| - 1]);
      RunTimers(m, events[..|events| - 1]);
      StepTimers(before, events[|events| - 1]);
      OnlyNewTimersChain(m, before, Run(m, events));
    }
  }

  /** A timer that was cancelled or replaced is dead for good: however late its callback runs, it changes nothing. */
  lemma StaleTimerIsInert(m: Machine, d: string, timer: Timer, events: seq<Event>, env: Env)
    requires timer.id < m.nextTimer && TimerOf(m, d) != Some(timer)
    ensures var later := Run(m, events); Expire(later, d, timer, env) == later
  {
    RunTimers(m, events);
  }
}
