/** Shutting down the deleter (src/io/async_deleter.cpp): the job counter, the handlers that
    run on the io threads, and one `stop` call, step by step.

    `working_jobs` changes without the lock; only notifying and waiting happen under
    `cv_lock`.  `stop` holds that lock from the moment it takes it until it returns, except
    while it sleeps. */
module AsyncDeleter {

  /** Where the `stop` call is. */
  datatype Stopper =
    | Before     // not yet at the lock
    | Locked     // holds the lock, about to load the counter
    | Testing    // holds the lock, about to evaluate the predicate of `wait`
    | Sleepy     // holds the lock, saw jobs left, about to sleep
    | Asleep     // in `wait`, lock released
    | Woken      // notified or spuriously woken, about to take the lock again
    | Cleared    // holds the lock, saw no jobs left, about to stop the io context
    | Joining    // holds the lock, waits for the io threads to end
    | Returned

  datatype State = State(
    threads: nat,     // io threads
    jobs: nat,        // working_jobs
    reserved: nat,    // `submit` calls that counted their job and have yet to post it
    posted: nat,      // handlers waiting for an io thread
    executing: nat,   // handlers that have not decremented the counter yet
    due: nat,         // handlers that have, and still have to lock and notify
    stopper: Stopper)

  datatype Step =
    | Count | Post | Take | Finish | Notify
    | Lock | Load | Test | Sleep | Spurious | Relock | IoStop | Join

  function Initial(threads: nat): State {
    State(threads, 0, 0, 0, 0, 0, Before)
  }

  predicate HoldsLock(p: Stopper) {
    p.Locked? || p.Testing? || p.Sleepy? || p.Cleared? || p.Joining?
  }

  predicate IoStopped(p: Stopper) {
    p.Joining? || p.Returned?
  }

  predicate Enabled(s: State, step: Step) {
    match step
    case Count => true
    case Post => s.reserved > 0
    case Take => s.posted > 0 && s.executing + s.due < s.threads && !IoStopped(s.stopper)
    case Finish => s.executing > 0
    case Notify => s.due > 0 && !HoldsLock(s.stopper)
    case Lock => s.stopper.Before?
    case Load => s.stopper.Locked?
    case Test => s.stopper.Testing?
    case Sleep => s.stopper.Sleepy?
    case Spurious => s.stopper.Asleep?
    case Relock => s.stopper.Woken?
    case IoStop => s.stopper.Cleared?
    case Join => s.stopper.Joining? && s.executing == 0 && s.due == 0
  }

  function Apply(s: State, step: Step): State
    requires Enabled(s, step)
  {
    match step
    case Count => s.(jobs := s.jobs + 1, reserved := s.reserved + 1)
    case Post => s.(reserved := s.reserved - 1, posted := s.posted + 1)
    case Take => s.(posted := s.posted - 1, executing := s.executing + 1)
    case Finish =>
      s.(executing := s.executing - 1, jobs := if s.jobs > 0 then s.jobs - 1 else 0,
         due := if s.jobs <= 2 then s.due + 1 else s.due)
    case Notify => s.(due := s.due - 1, stopper := if s.stopper.Asleep? then Woken else s.stopper)
    case Lock => s.(stopper := Locked)
    case Load => s.(stopper := if s.jobs > 0 then Testing else Cleared)
    case Test => s.(stopper := if s.jobs > 0 then Sleepy else Cleared)
    case Sleep => s.(stopper := Asleep)
    case Spurious => s.(stopper := Woken)
    case Relock => s.(stopper := Testing)
    case IoStop => s.(stopper := Joining)
    case Join => s.(stopper := Returned)
  }

  predicate Possible(s: State, steps: seq<Step>)
    decreases |steps|, 0
  {
    steps != [] ==>
      Possible(s, steps[..|steps| - 1]) && Enabled(Run(s, steps[..|steps| - 1]), steps[|steps| - 1])
  }

  function Run(s: State, steps: seq<Step>): State
    requires Possible(s, steps)
    decreases |steps|, 1
  {
    if steps == [] then s else Apply(Run(s, steps[..|steps| - 1]), steps[|steps| - 1])
  }

  // ---------- the counter and the wake-up ----------

  /** The counter is the jobs not yet decremented; and while `stop` sleeps or is about to,
      with no job left, some handler still has to notify. */
  predicate Inv(s: State) {
    && s.jobs == s.reserved + s.posted + s.executing && s.executing + s.due <= s.threads
    && ((s.stopper.Sleepy? || s.stopper.Asleep?) && s.jobs == 0 ==> s.due > 0)
  }

  lemma InvStep(s: State, step: Step)
    requires Inv(s) && Enabled(s, step)
    ensures Inv(Apply(s, step))
  {
  }

  lemma {:induction false} InvRun(s: State, steps: seq<Step>)
    requires Inv(s) && Possible(s, steps)
    ensures Inv(Run(s, steps))
  {
    if steps != [] {
      InvRun(s, steps[..|steps| - 1]);
      InvStep(Run(s, steps[..|steps| - 1]), steps[|steps| - 1]);
    }
  }

  lemma InvInitial(threads: nat)
    ensures Inv(Initial(threads))
  {
  }

  /** In every interleaving the counter is exact, and no state has `stop` asleep with no job
      left and no handler about to notify: one can go ahead, and wakes it. */
  lemma {:induction false} NoLostWakeUp(start: State, steps: seq<Step>)
    requires Inv(start) && Possible(start, steps)
    ensures var s := Run(start, steps);
            s.jobs == s.reserved + s.posted + s.executing
    ensures var s := Run(start, steps);
            s.stopper.Asleep? && s.jobs == 0 ==> Enabled(s, Notify) && Wakes(s)
  {
    InvRun(start, steps);
    hide Run, Possible;
    if Run(start, steps).stopper.Asleep? && Run(start, steps).jobs == 0 { HandlerCanNotify(Run(start, steps)); }
  }

  predicate Wakes(s: State)
    requires Enabled(s, Notify)
  {
    Apply(s, Notify).stopper.Woken?
  }

  lemma HandlerCanNotify(s: State)
    requires Inv(s) && s.stopper.Asleep? && s.jobs == 0
    ensures Enabled(s, Notify) && Wakes(s)
  {
  }

  // ---------- what the wait waits for ----------

  /** `stop` has seen no jobs left. */
  predicate Passed(p: Stopper) {
    p.Cleared? || p.Joining? || p.Returned?
  }

  /** The wait passes only while the counter is zero, and then no job is counted, posted or
      executing. */
  lemma WaitPasses(s: State, step: Step)
    requires Inv(s) && Enabled(s, step) && !Passed(s.stopper) && Passed(Apply(s, step).stopper)
    ensures s.jobs == 0 && s.reserved == 0 && s.posted == 0 && s.executing == 0
    ensures Apply(s, step) == s.(stopper := Cleared)
  {
  }

  /** Every job of the run was submitted before the wait passed. */
  predicate SubmitsPrecede(start: State, steps: seq<Step>)
    requires Possible(start, steps)
  {
    steps != [] ==>
      var before, last := steps[..|steps| - 1], steps[|steps| - 1];
      SubmitsPrecede(start, before) && (last.Count? ==> !Passed(Run(start, before).stopper))
  }

  /** In every such interleaving the io context is stopped, and `stop` returns, only when every
      job that was submitted has been done. */
  lemma {:induction false} StopWaitsForJobs(start: State, steps: seq<Step>)
    requires Inv(start) && !Passed(start.stopper) && Possible(start, steps) && SubmitsPrecede(start, steps)
    requires Passed(Run(start, steps).stopper)
    ensures var s := Run(start, steps);
            s.jobs == 0 && s.reserved == 0 && s.posted == 0 && s.executing == 0
  {
    if steps != [] {
      var before := steps[..|steps| - 1];
      var s, last := Run(start, before), steps[|steps| - 1];
      InvRun(start, before);
      if Passed(s.stopper) { StopWaitsForJobs(start, before); } else { WaitPasses(s, last); }
    }
  }

  // ---------- whether `stop` returns ----------

  /** `stop` joins the io threads and keeps the lock that a handler needs to notify. */
  predicate Hung(s: State) {
    s.stopper.Joining? && s.due > 0
  }

  /** Both then wait for good, whatever else happens. */
  lemma {:induction false} StuckForever(s: State, steps: seq<Step>)
    requires Hung(s) && Possible(s, steps)
    ensures Hung(Run(s, steps))
  {
    if steps != [] { StuckForever(s, steps[..|steps| - 1]); }
  }

  /** Nothing is submitted any more. */
  predicate NoSubmit(steps: seq<Step>) {
    forall i :: 0 <= i < |steps| ==> !steps[i].Count?
  }

  predicate Hangs(s: State, steps: seq<Step>) {
    Possible(s, steps) && NoSubmit(steps) && Hung(Run(s, steps))
  }

  predicate Returns(s: State, steps: seq<Step>) {
    Possible(s, steps) && NoSubmit(steps) && Run(s, steps).stopper.Returned?
  }

  lemma {:induction false} StepFirst(s: State, step: Step, steps: seq<Step>)
    requires Enabled(s, step) && Possible(Apply(s, step), steps)
    ensures Possible(s, [step] + steps) && Run(s, [step] + steps) == Run(Apply(s, step), steps)
  {
    if steps == [] {
      assert ([step] + steps)[..0] == [];
    } else {
      var n := |steps| - 1;
      StepFirst(s, step, steps[..n]);
      assert ([step] + steps)[..n + 1] == [step] + steps[..n];
    }
  }

  lemma NoStep(s: State)
    ensures Possible(s, []) && Run(s, []) == s && NoSubmit([])
  {
  }

  // ---------- at the call ----------

  /** How a call comes to hang: every job ends before it, and a handler notifies too late.  When
      no thread is free for the next job, one of those that wait notifies and is. */
  lemma {:induction false} HangingRun(s: State) returns (steps: seq<Step>)
    requires Inv(s) && s.threads > 0 && (s.jobs > 0 || s.due > 0)
    requires s.stopper.Before? || (s.jobs == 0 && (s.stopper.Locked? || s.stopper.Cleared? || s.stopper.Joining?))
    ensures Hangs(s, steps)
    decreases 4 * s.reserved + 3 * s.posted + 2 * s.executing + (if s.stopper.Before? then s.due else 0),
              if s.stopper.Before? then 3 else if s.stopper.Locked? then 2 else if s.stopper.Cleared? then 1 else 0
  {
    if s.stopper.Joining? {
      NoStep(s);
      steps := [];
    } else {
      var step := if s.reserved > 0 then Post
      else if s.executing > 0 then Finish
      else if s.posted > 0 then (if s.due < s.threads then Take else Notify)
      else if s.stopper.Before? then Lock
      else if s.stopper.Locked? then Load
      else IoStop;
      var rest := HangingRun(Apply(s, step));
      StepFirst(s, step, rest);
      steps := [step] + rest;
    }
  }

  /** Without a thread a job is never taken up, and `stop` waits for it for ever. */
  lemma {:induction false} NoThreadNoReturn(s: State, steps: seq<Step>)
    requires Inv(s) && s.threads == 0 && s.jobs > 0 && s.stopper.Before? && Possible(s, steps)
    ensures var t := Run(s, steps);
            && Inv(t) && t.threads == 0 && t.jobs > 0
            && !t.stopper.Cleared? && !t.stopper.Joining? && !t.stopper.Returned?
  {
    if steps != [] {
      NoThreadNoReturn(s, steps[..|steps| - 1]);
      InvStep(Run(s, steps[..|steps| - 1]), steps[|steps| - 1]);
    }
  }

  /** With no job and no handler under way, `stop` has these steps to take and nothing can come
      between them. */
  const SHUTDOWN := [Lock, Load, IoStop, Join]

  /** No job is counted, waiting or under way, and no notification is due. */
  predicate Idle(s: State) {
    s.jobs == 0 && s.reserved == 0 && s.posted == 0 && s.executing == 0 && s.due == 0
  }

  function ShuttingDown(n: nat): Stopper {
    if n == 0 then Before else if n == 1 then Locked else if n == 2 then Cleared
    else if n == 3 then Joining else Returned
  }

  lemma IdleStep(s: State, n: nat, step: Step)
    requires Idle(s) && n <= 4 && s.stopper == ShuttingDown(n) && Enabled(s, step) && !step.Count?
    ensures n < 4 && step == SHUTDOWN[n] && Apply(s, step) == s.(stopper := ShuttingDown(n + 1))
  {
  }

  /** Every run of an idle deleter is a part of its shutdown, */
  lemma {:induction false} IdleRun(s: State, steps: seq<Step>)
    requires s.stopper.Before? && Idle(s) && Possible(s, steps) && NoSubmit(steps)
    ensures steps <= SHUTDOWN && Run(s, steps) == s.(stopper := ShuttingDown(|steps|))
  {
    if steps != [] {
      var n := |steps| - 1;
      IdleRun(s, steps[..n]);
      IdleStep(Run(s, steps[..n]), n, steps[n]);
      hide Inv, Enabled, Apply, ShuttingDown;
      assert steps[..n] == SHUTDOWN[..n] && SHUTDOWN[..n + 1] == SHUTDOWN[..n] + [SHUTDOWN[n]];
      assert steps == steps[..n] + [steps[n]];
    }
  }

  /** and the shutdown can be completed. */
  lemma IdleReturns(s: State)
    requires s.stopper.Before? && Idle(s)
    ensures Returns(s, SHUTDOWN)
  {
    hide Possible, Run;
    NoStep(Apply(Apply(Apply(Apply(s, Lock), Load), IoStop), Join));
    StepFirst(Apply(Apply(Apply(s, Lock), Load), IoStop), Join, []);
    StepFirst(Apply(Apply(s, Lock), Load), IoStop, [Join] + []);
    StepFirst(Apply(s, Lock), Load, [IoStop] + ([Join] + []));
    StepFirst(s, Lock, [Load] + ([IoStop] + ([Join] + [])));
    assert [Lock] + ([Load] + ([IoStop] + ([Join] + []))) == SHUTDOWN;
  }

  lemma {:induction false} IdleNeverHangs(s: State, steps: seq<Step>)
    requires s.stopper.Before? && Idle(s)
    ensures !Hangs(s, steps)
  {
    if Possible(s, steps) && NoSubmit(steps) { IdleRun(s, steps); }
  }

  lemma NothingLeft(s: State)
    ensures Inv(s) && s.jobs == 0 && s.due == 0 ==> Idle(s)
  {
  }

  /** A call of `stop` after the last `submit` can hang exactly when a job, or the notification
      of one, is still under way, however many threads there are. */
  lemma {:induction false} CallHangsIff(s: State)
    requires Inv(s) && s.threads > 0 && s.stopper.Before?
    ensures (exists steps :: Hangs(s, steps)) <==> s.jobs > 0 || s.due > 0
  {
    hide Inv, Idle, Hangs;
    if s.jobs > 0 || s.due > 0 {
      var steps := HangingRun(s);
    } else {
      NothingLeft(s);
      forall steps
        ensures !Hangs(s, steps)
      {
        IdleNeverHangs(s, steps);
      }
    }
  }

  /** When neither is, the call returns, whatever the order of events: every run is a part of
      one that takes four steps and returns. */
  lemma {:induction false} IdleCallReturns(s: State, steps: seq<Step>)
    requires s.stopper.Before? && Idle(s) && Possible(s, steps) && NoSubmit(steps)
    ensures steps <= SHUTDOWN && Returns(s, SHUTDOWN)
    ensures steps == SHUTDOWN <==> Run(s, steps).stopper.Returned?
  {
    IdleRun(s, steps);
    IdleReturns(s);
    assert steps == SHUTDOWN <==> |steps| == 4;
  }

  // ---------- once the io context is stopped ----------

  /** No handler has still to notify, and none under way will have to: either there is none,
      or jobs that are no longer taken up keep the counter high. */
  predicate Quiet(s: State) {
    s.due == 0 && (s.executing == 0 || s.reserved + s.posted >= 2)
  }

  lemma {:induction false} QuietStays(s: State, steps: seq<Step>)
    requires Inv(s) && s.stopper.Joining? && Quiet(s) && Possible(s, steps)
    ensures var t := Run(s, steps);
            Inv(t) && Quiet(t) && (t.stopper.Joining? || t.stopper.Returned?)
  {
    if steps != [] {
      QuietStays(s, steps[..|steps| - 1]);
      InvStep(Run(s, steps[..|steps| - 1]), steps[|steps| - 1]);
    }
  }

  /** The handlers under way end one after the other. */
  lemma {:induction false} Ending(s: State) returns (steps: seq<Step>)
    requires Inv(s) && s.stopper.Joining?
    ensures if Quiet(s) then Returns(s, steps) else Hangs(s, steps)
    decreases s.executing
  {
    if s.due > 0 {
      NoStep(s);
      steps := [];
    } else {
      var step := if s.executing == 0 then Join else Finish;
      var rest := [];
      if step.Join? { NoStep(Apply(s, step)); } else { rest := Ending(Apply(s, step)); }
      StepFirst(s, step, rest);
      steps := [step] + rest;
    }
  }

  /** From the moment the io context has been stopped, a quiet state is both what lets `stop`
      return and what keeps it from hanging. */
  lemma {:induction false} ReturnsIff(s: State)
    requires Inv(s) && s.stopper.Joining?
    ensures (exists steps :: Returns(s, steps)) <==> Quiet(s)
    ensures (exists steps :: Hangs(s, steps)) <==> !Quiet(s)
  {
    var some := Ending(s);
    forall steps
      ensures Quiet(s) ==> !Hangs(s, steps)
      ensures !Quiet(s) ==> !Returns(s, steps)
    {
      if Possible(s, steps) && NoSubmit(steps) {
        if Quiet(s) { QuietStays(s, steps); } else { NotQuietStays(s, steps); }
      }
    }
  }

  lemma {:induction false} NotQuietStays(s: State, steps: seq<Step>)
    requires Inv(s) && s.stopper.Joining? && !Quiet(s) && Possible(s, steps) && NoSubmit(steps)
    ensures var t := Run(s, steps);
            Inv(t) && !Quiet(t) && t.stopper.Joining?
  {
    if steps != [] {
      var n := |steps| - 1;
      NotQuietStays(s, steps[..n]);
      InvStep(Run(s, steps[..n]), steps[n]);
      assert !steps[n].Count?;
    }
  }

  const RACE := [Count, Post, Take, Finish, Lock, Load, IoStop]

  /** The lock is taken between the last decrement and its notification: one job is enough
      for `stop` never to return. */
  lemma ShutdownCanHang(threads: nat)
    requires threads > 0
    ensures Possible(Initial(threads), RACE)
    ensures var s := Run(Initial(threads), RACE);
            && s.jobs == 0 && s.due == 1
            && forall steps :: Possible(s, steps) ==> Hung(Run(s, steps))
  {
    hide Possible, Run;
    var s0, s := Initial(threads), State(threads, 0, 0, 0, 0, 1, Before);
    NoStep(s0);
    OneMore(s0, [], s0, Count, s0.(jobs := 1, reserved := 1));
    OneMore(s0, [] + [Count], s0.(jobs := 1, reserved := 1), Post, s0.(jobs := 1, posted := 1));
    OneMore(s0, [] + [Count] + [Post], s0.(jobs := 1, posted := 1), Take, s0.(jobs := 1, executing := 1));
    var finished := [] + [Count] + [Post] + [Take] + [Finish];
    OneMore(s0, [] + [Count] + [Post] + [Take], s0.(jobs := 1, executing := 1), Finish, s);
    OneMore(s0, finished, s, Lock, s.(stopper := Locked));
    OneMore(s0, finished + [Lock], s.(stopper := Locked), Load, s.(stopper := Cleared));
    OneMore(s0, finished + [Lock] + [Load], s.(stopper := Cleared), IoStop, s.(stopper := Joining));
    assert finished + [Lock] + [Load] + [IoStop] == RACE;
    forall steps | Possible(s.(stopper := Joining), steps)
      ensures Hung(Run(s.(stopper := Joining), steps))
    {
      StuckForever(s.(stopper := Joining), steps);
    }
  }

  lemma OneMore(s0: State, steps: seq<Step>, s: State, step: Step, t: State)
    requires Possible(s0, steps) && Run(s0, steps) == s
    requires Enabled(s, step) && Apply(s, step) == t
    ensures Possible(s0, steps + [step]) && Run(s0, steps + [step]) == t
  {
    assert (steps + [step])[..|steps|] == steps;
  }
}
