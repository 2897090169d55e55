/** Which registers a device's read cycle asks for, told from the events alone. */
module ReadRuns {
  import opened Wire
  import opened ReadSequence

  // ---- going on never changes what a run is for

  lemma {:induction false} ContinueKeepsPlans(m: Machine, d: string, q: seq<int>, env: Env)
    ensures Continue(m, d, q, env).plan == m.plan
    decreases env, 1
  {
    if env.ready && q != [] && env.timerStarts {
      DeliverKeepsPlans(Send(m, d, q), env.during);
    }
  }

  lemma {:induction false} DeliverKeepsPlans(m: Machine, arrivals: seq<Arrival>)
    ensures Deliver(m, arrivals).plan == m.plan
    decreases arrivals, 0
  {
    if arrivals != [] {
      var init, last := arrivals[..|arrivals| - 1], arrivals[|arrivals| - 1];
      DeliverKeepsPlans(m, init);
      RespondKeepsPlans(Deliver(m, init), last.device, last.register, last.env);
    }
  }

  lemma {:induction false} RespondKeepsPlans(m: Machine, d: string, register: int, env: Env)
    ensures Respond(m, d, register, env).plan == m.plan
    decreases env, 2
  {
    var phase := PhaseOf(m, d);
    if phase.Awaiting? && phase.register == register {
      ContinueKeepsPlans(m, d, phase.queue, env);
    }
  }

  // ---- what was asked for

  /** The registers for which an event fills the device's queue, if it does. */
  function QueuedBy(m: Machine, e: Event, d: string): Option<seq<int>> {
    match e
    case ReadAllPressed(pressed, holding, registers, ready, _) =>
      if pressed == d && PhaseOf(m, d) == Idle && (forall i :: 0 <= i < |holding| ==> holding[i] == Accepted)
        && ready && registers != [] then Some(registers) else None
    case Active(active, registers, ready, _) =>
      if active == d && PhaseOf(m, d) == Idle && d !in m.refreshed && ready && registers != []
        then Some(registers) else None
    case _ => None
  }

  /** The registers of the last event that filled the device's queue. */
  function AskedFor(events: seq<Event>, d: string): seq<int> {
    if events == [] then [] else
    var before := events[..|events| - 1];
    match QueuedBy(Run(START, before), events[|events| - 1], d)
    case Some(registers) => registers
    case None => AskedFor(before, d)
  }

  lemma StepPlans(m: Machine, e: Event, d: string)
    ensures Plan(Step(m, e), d) == if QueuedBy(m, e, d).Some? then QueuedBy(m, e, d).value else Plan(m, d)
  {
    match e
    case Expired(x, timer, env) =>
      if TimerOf(m, x) == Some(timer) {
        ContinueKeepsPlans(m, x, PhaseOf(m, x).queue, env);
      }
    case Responded(x, register, env) =>
      RespondKeepsPlans(m, x, register, env);
    case _ =>
  }

  lemma {:induction false} PlanIsAskedFor(events: seq<Event>, d: string)
    ensures Plan(Run(START, events), d) == AskedFor(events, d)
    decreases |events|
  {
    if events != [] {
      PlanIsAskedFor(events[..|events| - 1], d);
      StepPlans(Run(START, events[..|events| - 1]), events[|events| - 1], d);
    }
  }

  /** In every run the latest cycle of a device has requested the first of the registers that its start named, in order
      and once each, and all of them when it ended by itself. */
  lemma RequestsAreAskedFor(events: seq<Event>, d: string)
    ensures var m := Run(START, events);
      && Requested(m, d) <= AskedFor(events, d)
      && (d in m.completed ==> Requested(m, d) == AskedFor(events, d))
  {
    RunRequestsInOrder(events, d);
    PlanIsAskedFor(events, d);
  }

  // ---- a press, from the button to the last register

  lemma {:induction false} DriveKeepsPlans(m: Machine, d: string, n: nat)
    ensures Drive(m, d, n).plan == m.plan
    decreases n
  {
    if n > 0 && PhaseOf(m, d) != Idle {
      ContinueKeepsPlans(m, d, PhaseOf(m, d).queue, SMOOTH);
      DriveKeepsPlans(Expire(m, d, TimerOf(m, d).value, SMOOTH), d, n - 1);
    }
  }

  /** Read All on an idle device of which every read succeeds requests exactly these registers in this order, even if no
      answer ever arrives, and then is complete. */
  lemma PressRequestsAll(m: Machine, d: string, holding: seq<Outcome>, registers: seq<int>)
    requires AllInOrder(m) && PhaseOf(m, d) == Idle && registers != []
    requires forall i :: 0 <= i < |holding| ==> holding[i] == Accepted
    ensures var done := Drive(PressReadAll(m, d, holding, registers, true, true), d, |registers| + 1);
      Requested(done, d) == registers && d in done.completed && PhaseOf(done, d) == Idle
  {
    var pressed := PressReadAll(m, d, holding, registers, true, true);
    EnqueueKeeps(m, d, registers, true, true);
    SilentRunCompletes(pressed, d);
    DriveKeepsPlans(pressed, d, |registers| + 1);
    DriveKeepsOrder(pressed, d, |registers| + 1);
  }

  lemma {:induction false} DriveKeepsOrder(m: Machine, d: string, n: nat)
    requires AllInOrder(m)
    ensures InOrder(Drive(m, d, n), d)
    decreases n
  {
    assert InOrder(m, d);
    if n > 0 && PhaseOf(m, d) != Idle {
      var timer := TimerOf(m, d).value;
      StepKeeps(m, Expired(d, timer, SMOOTH));
      DriveKeepsOrder(Expire(m, d, timer, SMOOTH), d, n - 1);
    }
  }

  /** A press gets the device going exactly when it is idle, no holding read was refused, there is something to read,
      the source is ready and the timer starts; a refused holding read releases it for the next activity. */
  lemma PressStartsIff(
      m: Machine, d: string, holding: seq<Outcome>, registers: seq<int>, ready: bool, timerStarts: bool)
    requires PhaseOf(m, d) == Idle
    ensures var after := PressReadAll(m, d, holding, registers, ready, timerStarts);
      && (PhaseOf(after, d) == Scheduled(registers, m.nextTimer) <==>
          (forall i :: 0 <= i < |holding| ==> holding[i] == Accepted) && registers != [] && ready && timerStarts)
      && (PhaseOf(after, d) != Scheduled(registers, m.nextTimer) ==> PhaseOf(after, d) == Idle)
      && ((exists i :: 0 <= i < |holding| && holding[i] != Accepted) ==> d !in after.refreshed)
  {}

  /** Whatever way an interrupted request fails, the device is idle afterwards and its next activity starts over with
      every register. */
  lemma FailureIsRetried(m: Machine, d: string, q: seq<int>, env: Env, registers: seq<int>)
    requires !env.ready || (q != [] && (!env.timerStarts || env.outcome != Accepted))
    requires registers != []
    ensures var after := Continue(m, d, q, env);
      PhaseOf(after, d) == Idle
      && PhaseOf(Refresh(after, d, registers, true, true), d) == Scheduled(registers, after.nextTimer)
  {}
}
