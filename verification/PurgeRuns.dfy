/** Whole runs of the purge queue: the fate of every task, how long the threads can keep busy,
    and the state in which they come to rest. */
module PurgeRuns {
  import opened Options
  import opened PurgeQueue
  import opened PurgeProperties

  /** The steps are possible one after the other from the initial state. */
  predicate Possible(c: Config, steps: seq<Step>)
    decreases |steps|, 0
  {
    steps != [] ==>
      Possible(c, steps[..|steps| - 1]) && Enabled(Run(c, steps[..|steps| - 1]), steps[|steps| - 1])
  }

  function Run(c: Config, steps: seq<Step>): State
    requires Possible(c, steps)
    decreases |steps|, 1
  {
    if steps == [] then Initial(c) else Apply(c, Run(c, steps[..|steps| - 1]), steps[|steps| - 1])
  }

  lemma {:induction false} InvRun(c: Config, steps: seq<Step>)
    requires Possible(c, steps)
    ensures Inv(c, Run(c, steps))
  {
    if steps == [] {
      InvInitial(c);
    } else {
      InvRun(c, steps[..|steps| - 1]);
      InvStep(c, Run(c, steps[..|steps| - 1]), steps[|steps| - 1]);
    }
  }

  // ---------- the fate of a task ----------

  /** In every interleaving an accepted task is queued, in flight, succeeded or reported as
      failed: exactly one of these, once.  It is requested at most `max(1, try_max)` times. */
  lemma {:induction false} TaskFate(c: Config, steps: seq<Step>, id: nat)
    requires Possible(c, steps)
    ensures var s := Run(c, steps);
            && Load(Holding(id), s.queue) + Tally(Holding(id), s.workers) + s.succeeded[id] + s.failed[id]
               == (if id < s.accepted then 1 else 0)
            && s.requests[id] <= (if c.tryMax > 1 then c.tryMax else 1)
            && |s.queue| <= c.queueMax
  {
    InvRun(c, steps);
    assert Conserved(Run(c, steps), id) && Rationed(c, Run(c, steps), id);
  }

  // ---------- wake-ups ----------

  /** While the queue is not stopped and some worker sleeps, queued tasks are matched by
      notifications on their way and workers already woken. */
  lemma NoWakeUpLost(c: Config, steps: seq<Step>)
    requires Possible(c, steps)
    ensures var s := Run(c, steps);
            !s.stop && (exists i :: 0 <= i < |s.workers| && s.workers[i].Asleep?) ==>
              |s.queue| <= s.adds + Tally(AboutToNotify, s.workers) + Tally(WokenUp, s.workers)
  {
    InvRun(c, steps);
    var s := Run(c, steps);
    TallyPositive(Sleeping, s.workers);
    assert forall i :: 0 <= i < |s.workers| && s.workers[i].Asleep? ==> Weigh(Sleeping, s.workers[i]) > 0;
  }

  /** A `notify_all` leaves nobody asleep, and once the stop signal is set nobody falls asleep
      again, whatever happens next. */
  lemma NobodySleepsAfterStop(c: Config, s: State, step: Step)
    requires Enabled(s, step)
    ensures step.StopNotify? ==> Tally(Sleeping, Apply(c, s, step).workers) == 0
    ensures s.stop && Tally(Sleeping, s.workers) == 0 ==>
              Apply(c, s, step).stop && Tally(Sleeping, Apply(c, s, step).workers) == 0
  {
    hide Tally, Wake, WakeAll;
    match step
    case AddNotify(target) => WakeTally(Sleeping, s, target);
    case Notify(w, target) => NotifyTally(Sleeping, s, w, target);
    case StopNotify => WakeAllTally(Live, s.workers);
    case Add =>
    case StopSet =>
    case _ => TallyUpdate(Sleeping, s.workers, step.w, Apply(c, s, step).workers[step.w]);
  }

  /** So in every run one `notify_all` is enough: from then on nobody sleeps. */
  lemma {:induction false} AwakeAfterNotifyAll(c: Config, steps: seq<Step>, i: nat)
    requires Possible(c, steps) && i < |steps| && steps[i].StopNotify?
    ensures Run(c, steps).stop && Tally(Sleeping, Run(c, steps).workers) == 0
  {
    hide Inv, Tally, Apply, Enabled;
    var n := |steps| - 1;
    InvRun(c, steps[..n]);
    if i < n { AwakeAfterNotifyAll(c, steps[..n], i); } else { StopWasSet(c, Run(c, steps[..n])); }
    NobodySleepsAfterStop(c, Run(c, steps[..n]), steps[n]);
  }

  lemma StopWasSet(c: Config, s: State)
    ensures Inv(c, s) && Enabled(s, StopNotify) ==> Apply(c, s, StopNotify).stop
  {
  }

  // ---------- coming to rest ----------

  /** Steps the threads take by themselves: not a new `add` or `stop`, nor a spurious wake-up. */
  predicate Internal(step: Step) {
    !step.Add? && !step.StopSet? && !step.Spurious?
  }

  /** Notifications and worker positions, without the work. */
  function Bustle(s: State): nat {
    Tally(Rank, s.workers) + 2 * s.adds + (|s.workers| + 1) * s.stops
  }

  /** What the threads still have to do. */
  function Pending(c: Config, s: State): nat {
    5 * Mass(Work(c), s) + Bustle(s)
  }

  /** How much a step from outside adds to it. */
  function Allowance(c: Config, step: Step): nat {
    match step
    case Add => 5 * Cap(c) + 2
    case Spurious(_) => 1
    case StopSet => c.threads + 1
    case _ => 0
  }

  lemma WorkerRankStep(c: Config, s: State, step: Step)
    requires Enabled(s, step) && (step.Enter? || step.Spurious? || step.Respond? || step.Retry?)
    ensures var t := Apply(c, s, step);
            Tally(Rank, t.workers) + WorkerRank(s.workers[step.w])
            == Tally(Rank, s.workers) + WorkerRank(t.workers[step.w])
  {
    TallyUpdate(Rank, s.workers, step.w, Apply(c, s, step).workers[step.w]);
  }

  /** Only a request uses up work, and only an accepted task adds some. */
  lemma WorkStep(c: Config, s: State, step: Step)
    requires Shape(c, s) && Enabled(s, step)
    ensures Mass(Work(c), Apply(c, s, step)) + (if Pops(s, step) then 1 else 0)
            <= Mass(Work(c), s) + (if step.Add? then Cap(c) else 0)
  {
    MassStep(c, s, step, Work(c));
    if Pops(s, step) { assert QueuedOk(c, s.queue[0]); }
    hide Mass;
  }

  lemma BustleStep(c: Config, s: State, step: Step)
    requires Shape(c, s) && Enabled(s, step)
    ensures Bustle(Apply(c, s, step)) + (if Internal(step) then 1 else 0)
            <= Bustle(s) + (if Pops(s, step) then 5 else if step.Add? then 2 else Allowance(c, step))
  {
    match step
    case Add =>
    case StopSet => Multiples(|s.workers| + 1, s.stops);
    case StopNotify => StopNotifyBustle(c, s);
    case AddNotify(_) => NotifyBustle(c, s, step);
    case Notify(_, _) => NotifyBustle(c, s, step);
    case _ => WorkerBustle(c, s, step);
  }

  lemma Multiples(n: nat, k: nat)
    ensures n * (k + 1) == n * k + n
  {
  }

  lemma StopNotifyBustle(c: Config, s: State)
    requires Enabled(s, StopNotify)
    ensures Bustle(Apply(c, s, StopNotify)) < Bustle(s)
  {
    WakeAllTally(Rank, s.workers);
    Multiples(|s.workers| + 1, s.stops - 1);
    hide Tally, WakeAll;
  }

  lemma NotifyBustle(c: Config, s: State, step: Step)
    requires Enabled(s, step) && (step.AddNotify? || step.Notify?)
    ensures Bustle(Apply(c, s, step)) < Bustle(s)
  {
    hide Tally, Wake;
    if step.AddNotify? { WakeTally(Rank, s, step.target); } else { NotifyTally(Rank, s, step.w, step.target); }
  }

  lemma WorkerBustle(c: Config, s: State, step: Step)
    requires Enabled(s, step) && (step.Enter? || step.Spurious? || step.Respond? || step.Retry?)
    ensures Bustle(Apply(c, s, step)) + (if Internal(step) then 1 else 0)
            <= Bustle(s) + (if Pops(s, step) then 5 else Allowance(c, step))
  {
    WorkerRankStep(c, s, step);
    hide Tally;
  }

  /** Every step a thread takes by itself leaves less to do. */
  lemma PendingStep(c: Config, s: State, step: Step)
    requires Inv(c, s) && Enabled(s, step)
    ensures Pending(c, Apply(c, s, step)) + (if Internal(step) then 1 else 0)
            <= Pending(c, s) + Allowance(c, step)
  {
    WorkStep(c, s, step);
    BustleStep(c, s, step);
    hide Mass, Bustle, Apply;
  }

  function Internals(steps: seq<Step>): nat {
    if steps == [] then 0
    else Internals(steps[..|steps| - 1]) + if Internal(steps[|steps| - 1]) then 1 else 0
  }

  function Allowances(c: Config, steps: seq<Step>): nat {
    if steps == [] then 0 else Allowances(c, steps[..|steps| - 1]) + Allowance(c, steps[|steps| - 1])
  }

  /** Termination: the threads cannot keep themselves busy.  In every run the steps they take
      are bounded by the number of workers and by what came in from outside: `add` and `stop`
      calls and spurious wake-ups. */
  lemma {:induction false} StepsBounded(c: Config, steps: seq<Step>)
    requires Possible(c, steps)
    ensures Internals(steps) + Pending(c, Run(c, steps)) <= c.threads + Allowances(c, steps)
  {
    if steps == [] {
      AllAtTop(Rank, c.threads);
      AllAtTop(Work(c), c.threads);
    } else {
      StepsBounded(c, steps[..|steps| - 1]);
      InvRun(c, steps[..|steps| - 1]);
      PendingStep(c, Run(c, steps[..|steps| - 1]), steps[|steps| - 1]);
    }
  }

  /** No thread has anything left to do. */
  ghost predicate AtRest(s: State) {
    forall step :: Internal(step) ==> !Enabled(s, step)
  }

  lemma RestingWorkers(s: State, i: nat)
    requires AtRest(s) && i < |s.workers|
    ensures s.workers[i].Asleep? || s.workers[i].Exited?
  {
    assert !Enabled(s, Enter(i)) && !Enabled(s, Respond(i, true)) && !Enabled(s, Retry(i));
    CanNotify(s, i);
  }

  /** Somebody can always be chosen to wake, or nobody sleeps. */
  lemma CanNotify(s: State, i: nat)
    requires AtRest(s) && i < |s.workers|
    ensures !s.workers[i].Notifying? && s.adds == 0
  {
    if t :| 0 <= t < |s.workers| && s.workers[t].Asleep? {
      assert CanWake(s, Some(t));
      assert !Enabled(s, Notify(i, Some(t))) && !Enabled(s, AddNotify(Some(t)));
    } else {
      assert CanWake(s, None);
      assert !Enabled(s, Notify(i, None)) && !Enabled(s, AddNotify(None));
    }
  }

  /** When the threads come to rest without a stop, no accepted task is left behind: each has
      succeeded or was reported as failed.  When they come to rest after a stop, every worker
      has exited, so that `stop` sees `running_worker` at zero. */
  lemma RestIsDone(c: Config, steps: seq<Step>, id: nat)
    requires Possible(c, steps) && c.threads > 0 && AtRest(Run(c, steps))
    ensures var s := Run(c, steps);
            && (!s.stop ==> s.queue == [] && s.succeeded[id] + s.failed[id] == if id < s.accepted then 1 else 0)
            && (s.stop ==> s.running == 0)
  {
    InvRun(c, steps);
    var s := Run(c, steps);
    assert Conserved(s, id);
    assert !Enabled(s, StopNotify);
    forall i | 0 <= i < |s.workers|
      ensures s.workers[i].Asleep? || s.workers[i].Exited?
    {
      RestingWorkers(s, i);
    }
    CanNotify(s, 0);
    RestTallies(s.workers, id);
    TallyPositive(Sleeping, s.workers);
    TallyPositive(Live, s.workers);
  }

  lemma {:induction false} RestTallies(workers: seq<Worker>, id: nat)
    requires forall i :: 0 <= i < |workers| ==> workers[i].Asleep? || workers[i].Exited?
    ensures Tally(Holding(id), workers) == Tally(AboutToNotify, workers) == Tally(WokenUp, workers) == 0
    ensures Tally(Live, workers) == Tally(Sleeping, workers)
  {
    if workers != [] { RestTallies(workers[..|workers| - 1], id); }
  }
}
