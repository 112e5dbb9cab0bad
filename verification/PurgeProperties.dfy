/** What every interleaving of the purge queue keeps: no task lost or settled twice, no more
    attempts than allowed, no wake-up lost, and every run coming to rest. */
module PurgeProperties {
  import opened Options
  import opened PurgeQueue

  // ---------- what a step does to the counts ----------

  lemma WakeTally(m: Measure, s: State, target: Option<nat>)
    requires CanWake(s, target)
    ensures var woken := if target.Some? then 1 else 0;
            Tally(m, Wake(s.workers, target)) + (if m.Sleeping? then woken else 0)
            == Tally(m, s.workers) + (if m.WokenUp? || m.Rank? then woken else 0)
  {
    if target.Some? { TallyUpdate(m, s.workers, target.value, Woken); }
  }

  /** A notification after worker `w` has gone back to the top of the loop. */
  lemma NotifyTally(m: Measure, s: State, w: nat, target: Option<nat>)
    requires Enabled(s, Notify(w, target))
    ensures var woken := if target.Some? then 1 else 0;
            Tally(m, Wake(s.workers[w := AtTop], target)) + (if m.Sleeping? then woken else 0)
            + (if m.AboutToNotify? then 1 else if m.Rank? then 2 else 0)
            == Tally(m, s.workers) + (if m.WokenUp? || m.Rank? then woken else 0)
  {
    TallyUpdate(m, s.workers, w, AtTop);
    if target.Some? { TallyUpdate(m, s.workers[w := AtTop], target.value, Woken); }
  }

  /** How much of a task measure is in the queue and with the workers. */
  function Mass(m: Measure, s: State): nat {
    Load(m, s.queue) + Tally(m, s.workers)
  }

  /** The task a step puts into play, */
  function Entering(c: Config, s: State, step: Step): Option<Task>
    requires Enabled(s, step)
  {
    if Accepts(c, s, step) then Some(Task(s.accepted, 0))
    else if Pops(s, step) then Some(Attempted(s))
    else None
  }

  /** and the one it takes out. */
  function Leaving(c: Config, s: State, step: Step): Option<Task>
    requires Enabled(s, step)
  {
    if Pops(s, step) then Some(s.queue[0])
    else if Succeeds(s, step) || Fails(c, s, step) then Some(s.workers[step.w].task)
    else None
  }

  predicate Accepts(c: Config, s: State, step: Step) {
    step.Add? && |s.queue| < c.queueMax
  }

  predicate Pops(s: State, step: Step) {
    step.Enter? && !s.stop && s.queue != []
  }

  function Attempted(s: State): Task
    requires s.queue != []
  {
    s.queue[0].(tries := s.queue[0].tries + 1)
  }

  predicate Succeeds(s: State, step: Step) {
    step.Respond? && step.ok
  }

  predicate Fails(c: Config, s: State, step: Step)
    requires Enabled(s, step)
  {
    || (step.Respond? && !step.ok && s.workers[step.w].task.tries >= c.tryMax)
    || (step.Retry? && |s.queue| >= c.queueMax)
  }

  function WeighSome(m: Measure, t: Option<Task>): nat {
    if t.Some? then TaskWeigh(m, t.value) else 0
  }

  ghost predicate MassMoves(c: Config, s: State, step: Step, m: Measure)
    requires Enabled(s, step)
  {
    Mass(m, Apply(c, s, step)) + WeighSome(m, Leaving(c, s, step))
    == Mass(m, s) + WeighSome(m, Entering(c, s, step))
  }

  /** What a worker holds, by a measure on tasks. */
  function Held(m: Measure, w: Worker): nat {
    if w.Requesting? || w.Retrying? then TaskWeigh(m, w.task) else 0
  }

  lemma HeldUpdate(m: Measure, workers: seq<Worker>, i: nat, w: Worker)
    requires OnTasks(m) && i < |workers|
    ensures Tally(m, workers[i := w]) + Held(m, workers[i]) == Tally(m, workers) + Held(m, w)
  {
    TallyUpdate(m, workers, i, w);
  }

  lemma MassEnter(c: Config, s: State, w: nat, m: Measure)
    requires Enabled(s, Enter(w)) && OnTasks(m)
    ensures MassMoves(c, s, Enter(w), m)
  {
    hide Tally, Load, Weigh, TaskWeigh;
    if s.stop {
      HeldUpdate(m, s.workers, w, Exited);
    } else if s.queue == [] {
      HeldUpdate(m, s.workers, w, Asleep);
    } else {
      LoadEnds(m, s.queue, s.queue[0]);
      HeldUpdate(m, s.workers, w, Requesting(Attempted(s)));
    }
  }

  lemma MassRespond(c: Config, s: State, w: nat, ok: bool, m: Measure)
    requires Enabled(s, Respond(w, ok)) && OnTasks(m)
    ensures MassMoves(c, s, Respond(w, ok), m)
  {
    hide Tally, Load, Weigh, TaskWeigh;
    HeldUpdate(m, s.workers, w, AtTop);
    HeldUpdate(m, s.workers, w, Retrying(s.workers[w].task));
  }

  lemma MassRetry(c: Config, s: State, w: nat, m: Measure)
    requires Enabled(s, Retry(w)) && OnTasks(m)
    ensures MassMoves(c, s, Retry(w), m)
  {
    hide Tally, Load, Weigh, TaskWeigh;
    LoadEnds(m, s.queue, s.workers[w].task);
    HeldUpdate(m, s.workers, w, Notifying);
    HeldUpdate(m, s.workers, w, AtTop);
  }

  /** Waking threads moves no task. */
  lemma MassWake(c: Config, s: State, step: Step, m: Measure)
    requires Enabled(s, step) && OnTasks(m)
    requires step.AddNotify? || step.Notify? || step.StopNotify? || step.Spurious?
    ensures MassMoves(c, s, step, m)
  {
    hide Tally, Load, Wake, WakeAll, Weigh, TaskWeigh;
    match step
    case AddNotify(target) => WakeTally(m, s, target);
    case Spurious(w) => HeldUpdate(m, s.workers, w, Woken);
    case Notify(w, target) => NotifyTally(m, s, w, target);
    case StopNotify => WakeAllTally(m, s.workers);
  }

  lemma MassAdd(c: Config, s: State, m: Measure)
    ensures MassMoves(c, s, Add, m)
  {
    hide Tally, Load, Weigh, TaskWeigh;
    LoadEnds(m, s.queue, Task(s.accepted, 0));
  }

  lemma MassStop(c: Config, s: State, m: Measure)
    ensures MassMoves(c, s, StopSet, m)
  {
    hide Tally, Load, Weigh, TaskWeigh;
  }

  /** The only tasks a step adds to or takes from the queue and the workers are these. */
  lemma MassStep(c: Config, s: State, step: Step, m: Measure)
    requires Enabled(s, step) && OnTasks(m)
    ensures MassMoves(c, s, step, m)
  {
    hide MassMoves, Apply;
    match step
    case Add => MassAdd(c, s, m);
    case Enter(w) => MassEnter(c, s, w, m);
    case Respond(w, ok) => MassRespond(c, s, w, ok, m);
    case Retry(w) => MassRetry(c, s, w, m);
    case StopSet => MassStop(c, s, m);
    case _ => MassWake(c, s, step, m);
  }

  // ---------- the invariant ----------

  /** Task `id` is in one place if it was accepted, and nowhere otherwise. */
  predicate Conserved(s: State, id: nat) {
    Mass(Holding(id), s) + s.succeeded[id] + s.failed[id] == if id < s.accepted then 1 else 0
  }

  /** The requests made for task `id` and those it has left stay within its allowance. */
  predicate Rationed(c: Config, s: State, id: nat) {
    s.requests[id] + Mass(WorkOn(c, id), s) <= if id < s.accepted then Cap(c) else 0
  }

  predicate QueuedOk(c: Config, t: Task) {
    t.tries < Cap(c)
  }

  predicate WorkerOk(c: Config, w: Worker) {
    w.Retrying? ==> w.task.tries < Cap(c)
  }

  /** While a worker sleeps, every queued task has a notification or a woken worker coming;
      once the stop signal is set, a notification to all is. */
  predicate NoLostWakeUp(s: State) {
    Tally(Sleeping, s.workers) > 0 ==>
      if s.stop then s.stops > 0
      else |s.queue| <= s.adds + Tally(AboutToNotify, s.workers) + Tally(WokenUp, s.workers)
  }

  predicate Shape(c: Config, s: State) {
    && |s.workers| == c.threads && |s.queue| <= c.queueMax
    && s.running == Tally(Live, s.workers)
    && (!s.stop ==> s.stops == 0 && s.running == c.threads)
    && (forall i {:trigger QueuedOk(c, s.queue[i])} :: 0 <= i < |s.queue| ==> QueuedOk(c, s.queue[i]))
    && (forall i {:trigger WorkerOk(c, s.workers[i])} :: 0 <= i < |s.workers| ==> WorkerOk(c, s.workers[i]))
  }

  ghost predicate Inv(c: Config, s: State) {
    && Shape(c, s) && NoLostWakeUp(s)
    && (forall id :: Conserved(s, id))
    && (forall id :: Rationed(c, s, id))
  }

  lemma {:induction false} AllAtTop(m: Measure, n: nat)
    ensures var workers := seq(n, _ => AtTop);
            Tally(m, workers) == if m.Live? || m.Rank? then n else 0
  {
    if n > 0 {
      AllAtTop(m, n - 1);
      var workers: seq<Worker> := seq(n, _ => AtTop);
      assert workers[..n - 1] == seq(n - 1, _ => AtTop);
    }
  }

  lemma InvInitial(c: Config)
    ensures Inv(c, Initial(c))
  {
    AllAtTop(Live, c.threads);
    AllAtTop(Sleeping, c.threads);
    forall id
      ensures Conserved(Initial(c), id) && Rationed(c, Initial(c), id)
    {
      AllAtTop(Holding(id), c.threads);
      AllAtTop(WorkOn(c, id), c.threads);
    }
  }

  lemma ConservedStep(c: Config, s: State, step: Step, id: nat)
    requires Enabled(s, step) && Conserved(s, id)
    ensures Conserved(Apply(c, s, step), id)
  {
    hide Mass, Wake, WakeAll;
    MassStep(c, s, step, Holding(id));
  }

  lemma RationedStep(c: Config, s: State, step: Step, id: nat)
    requires Enabled(s, step) && Shape(c, s) && Rationed(c, s, id)
    ensures Rationed(c, Apply(c, s, step), id)
  {
    MassStep(c, s, step, WorkOn(c, id));
    hide Mass;
    if Pops(s, step) { assert QueuedOk(c, s.queue[0]); }
  }

  lemma LiveStep(c: Config, s: State, step: Step)
    requires Enabled(s, step) && s.running == Tally(Live, s.workers)
    ensures Apply(c, s, step).running == Tally(Live, Apply(c, s, step).workers)
    ensures Apply(c, s, step).running == s.running - if step.Enter? && s.stop then 1 else 0
  {
    hide Tally, Wake, WakeAll;
    match step
    case Add =>
    case AddNotify(target) => WakeTally(Live, s, target);
    case Notify(w, target) => NotifyTally(Live, s, w, target);
    case StopSet =>
    case StopNotify => WakeAllTally(Live, s.workers);
    case _ => TallyUpdate(Live, s.workers, step.w, Apply(c, s, step).workers[step.w]);
  }

  lemma TasksOkStep(c: Config, s: State, step: Step)
    requires Enabled(s, step) && Shape(c, s)
    ensures forall i {:trigger QueuedOk(c, Apply(c, s, step).queue[i])} ::
              0 <= i < |Apply(c, s, step).queue| ==> QueuedOk(c, Apply(c, s, step).queue[i])
    ensures forall i {:trigger WorkerOk(c, Apply(c, s, step).workers[i])} ::
              0 <= i < |Apply(c, s, step).workers| ==> WorkerOk(c, Apply(c, s, step).workers[i])
  {
    var t := Apply(c, s, step);
    forall i | 0 <= i < |t.queue|
      ensures QueuedOk(c, t.queue[i])
    {
      if Pops(s, step) {
        assert QueuedOk(c, s.queue[i + 1]);
      } else if i < |s.queue| {
        assert QueuedOk(c, s.queue[i]);
      } else if step.Retry? {
        assert WorkerOk(c, s.workers[step.w]);
      }
    }
    forall i | 0 <= i < |t.workers|
      ensures WorkerOk(c, t.workers[i])
    {
      assert WorkerOk(c, s.workers[i]);
    }
  }

  /** A sleeping worker is never forgotten, whatever the threads do next. */
  lemma WakeUpStep(c: Config, s: State, step: Step)
    requires Enabled(s, step) && NoLostWakeUp(s)
    ensures NoLostWakeUp(Apply(c, s, step))
  {
    var t := Apply(c, s, step);
    hide Tally, Wake, WakeAll;
    match step
    case Add =>
    case AddNotify(target) =>
      WakeTally(Sleeping, s, target);
      WakeTally(WokenUp, s, target);
      WakeTally(AboutToNotify, s, target);
      NobodyAsleep(s, target);
    case Notify(w, target) =>
      NotifyTally(Sleeping, s, w, target);
      NotifyTally(WokenUp, s, w, target);
      NotifyTally(AboutToNotify, s, w, target);
      NobodyAsleep(s, target);
    case StopSet =>
    case StopNotify => WakeAllTally(Live, s.workers);
    case _ => WorkerWakeUpStep(c, s, step);
  }

  /** `notify_one` finds nobody to wake only when nobody sleeps. */
  lemma NobodyAsleep(s: State, target: Option<nat>)
    requires CanWake(s, target)
    ensures target.None? ==> Tally(Sleeping, s.workers) == 0
  {
    TallyPositive(Sleeping, s.workers);
  }

  lemma WorkerWakeUpStep(c: Config, s: State, step: Step)
    requires Enabled(s, step) && NoLostWakeUp(s)
    requires step.Enter? || step.Spurious? || step.Respond? || step.Retry?
    ensures NoLostWakeUp(Apply(c, s, step))
  {
    hide Tally;
    var t := Apply(c, s, step);
    TallyUpdate(Sleeping, s.workers, step.w, t.workers[step.w]);
    TallyUpdate(WokenUp, s.workers, step.w, t.workers[step.w]);
    TallyUpdate(AboutToNotify, s.workers, step.w, t.workers[step.w]);
  }

  /** The invariant survives every step, in every interleaving. */
  lemma InvStep(c: Config, s: State, step: Step)
    requires Inv(c, s) && Enabled(s, step)
    ensures Inv(c, Apply(c, s, step))
  {
    forall id
      ensures Conserved(Apply(c, s, step), id) && Rationed(c, Apply(c, s, step), id)
    {
      ConservedStep(c, s, step, id);
      RationedStep(c, s, step, id);
    }
    WakeUpStep(c, s, step);
    LiveStep(c, s, step);
    TasksOkStep(c, s, step);
    hide Conserved, Rationed, NoLostWakeUp, Tally;
  }
}
