/** The purge queue (src/utils/purger.cpp) as a protocol of `add` and `stop` calls and worker
    threads.  A step is what one thread does under the queue lock, or one action without it
    (a request ending, a notification), so that a run is any interleaving of the threads.

    `wait` with a predicate is a loop: a worker that is woken, for whatever reason, takes the
    lock and looks at the queue and the stop signal again. */
module PurgeQueue {
  import opened Options

  /** A queued path, by the number of the `add` that accepted it, with its attempts so far. */
  datatype Task = Task(id: nat, tries: nat)

  datatype Worker =
    | AtTop                   // before the lock at the top of the loop
    | Asleep                  // inside `wait`
    | Woken                   // notified or spuriously woken, not yet looked again
    | Requesting(task: Task)  // lock released, purge request under way
    | Retrying(task: Task)    // the request failed with attempts left, before the lock
    | Notifying               // the task is queued again, before `notify_one`
    | Exited

  datatype Config = Config(queueMax: nat, tryMax: int, threads: nat)

  datatype State = State(
    queue: seq<Task>,
    workers: seq<Worker>,
    running: nat,               // running_worker
    stop: bool,                 // stop_signal
    adds: nat,                  // `add` calls that pushed and have yet to notify
    stops: nat,                 // `stop` calls that set the signal and have yet to notify
    accepted: nat,              // `add` calls that returned true
    succeeded: multiset<nat>,   // tasks whose request succeeded
    failed: multiset<nat>,      // tasks reported to the fail callback
    requests: multiset<nat>)    // requests started, by task

  datatype Step =
    | Add
    | AddNotify(target: Option<nat>)
    | Enter(w: nat)
    | Spurious(w: nat)
    | Respond(w: nat, ok: bool)
    | Retry(w: nat)
    | Notify(w: nat, target: Option<nat>)
    | StopSet
    | StopNotify

  function Initial(c: Config): State {
    State([], seq(c.threads, _ => AtTop), c.threads, false, 0, 0, 0, multiset{}, multiset{}, multiset{})
  }

  /** `notify_one` wakes one waiting thread, any one, or nobody if none waits. */
  predicate CanWake(s: State, target: Option<nat>) {
    match target
    case Some(t) => t < |s.workers| && s.workers[t].Asleep?
    case None => forall i :: 0 <= i < |s.workers| ==> !s.workers[i].Asleep?
  }

  predicate Enabled(s: State, step: Step) {
    match step
    case Add => true
    case AddNotify(target) => s.adds > 0 && CanWake(s, target)
    case Enter(w) => w < |s.workers| && (s.workers[w].AtTop? || s.workers[w].Woken?)
    case Spurious(w) => w < |s.workers| && s.workers[w].Asleep?
    case Respond(w, _) => w < |s.workers| && s.workers[w].Requesting?
    case Retry(w) => w < |s.workers| && s.workers[w].Retrying?
    case Notify(w, target) => w < |s.workers| && s.workers[w].Notifying? && CanWake(s, target)
    case StopSet => true
    case StopNotify => s.stops > 0
  }

  function Wake(workers: seq<Worker>, target: Option<nat>): (r: seq<Worker>)
    ensures |r| == |workers|
  {
    if target.Some? && target.value < |workers| then workers[target.value := Woken] else workers
  }

  function WakeAll(workers: seq<Worker>): (r: seq<Worker>)
    ensures |r| == |workers|
  {
    seq(|workers|, i requires 0 <= i < |workers| => if workers[i].Asleep? then Woken else workers[i])
  }

  function Apply(c: Config, s: State, step: Step): State
    requires Enabled(s, step)
  {
    match step
    case Add =>
      if |s.queue| < c.queueMax
      then s.(queue := s.queue + [Task(s.accepted, 0)], adds := s.adds + 1, accepted := s.accepted + 1)
      else s
    case AddNotify(target) => s.(adds := s.adds - 1, workers := Wake(s.workers, target))
    case Enter(w) =>
      if s.stop then
        s.(workers := s.workers[w := Exited], running := if s.running > 0 then s.running - 1 else 0)
      else if s.queue == [] then s.(workers := s.workers[w := Asleep])
      else
        var task := s.queue[0].(tries := s.queue[0].tries + 1);
        s.(queue := s.queue[1..], workers := s.workers[w := Requesting(task)],
           requests := s.requests + multiset{task.id})
    case Spurious(w) => s.(workers := s.workers[w := Woken])
    case Respond(w, ok) =>
      var task := s.workers[w].task;
      if ok then s.(workers := s.workers[w := AtTop], succeeded := s.succeeded + multiset{task.id})
      else if task.tries < c.tryMax then s.(workers := s.workers[w := Retrying(task)])
      else s.(workers := s.workers[w := AtTop], failed := s.failed + multiset{task.id})
    case Retry(w) =>
      var task := s.workers[w].task;
      if |s.queue| < c.queueMax
      then s.(queue := s.queue + [task], workers := s.workers[w := Notifying])
      else s.(workers := s.workers[w := AtTop], failed := s.failed + multiset{task.id})
    case Notify(w, target) => s.(workers := Wake(s.workers[w := AtTop], target))
    case StopSet => s.(stop := true, stops := s.stops + 1)
    case StopNotify => s.(stops := s.stops - 1, workers := WakeAll(s.workers))
  }

  // ---------- counting ----------

  /** The attempts a task is worth: at least one is always made. */
  function Cap(c: Config): nat {
    if c.tryMax > 1 then c.tryMax else 1
  }

  function Left(c: Config, task: Task): nat {
    if task.tries < Cap(c) then Cap(c) - task.tries else 0
  }

  /** What to count over the workers, or over the tasks they hold and the queue. */
  datatype Measure =
    | Sleeping | WokenUp | AboutToNotify | Live | Rank
    | Holding(id: nat)             // the task itself
    | TriesOf(id: nat)             // its attempts so far
    | Work(c: Config)              // attempts left
    | WorkOn(c: Config, id: nat)   // attempts left for one task

  predicate OnTasks(m: Measure) {
    m.Holding? || m.TriesOf? || m.Work? || m.WorkOn?
  }

  function TaskWeigh(m: Measure, t: Task): nat {
    match m
    case Holding(id) => if t.id == id then 1 else 0
    case TriesOf(id) => if t.id == id then t.tries else 0
    case Work(c) => Left(c, t)
    case WorkOn(c, id) => if t.id == id then Left(c, t) else 0
    case _ => 0
  }

  function WorkerRank(w: Worker): nat {
    match w
    case Exited => 0
    case Asleep => 0
    case Woken => 1
    case AtTop => 1
    case Notifying => 3
    case Retrying(_) => 4
    case Requesting(_) => 5
  }

  function Weigh(m: Measure, w: Worker): nat {
    match m
    case Sleeping => if w.Asleep? then 1 else 0
    case WokenUp => if w.Woken? then 1 else 0
    case AboutToNotify => if w.Notifying? then 1 else 0
    case Live => if w.Exited? then 0 else 1
    case Rank => WorkerRank(w)
    case _ => if w.Requesting? || w.Retrying? then TaskWeigh(m, w.task) else 0
  }

  function Tally(m: Measure, workers: seq<Worker>): nat {
    if workers == [] then 0 else Tally(m, workers[..|workers| - 1]) + Weigh(m, workers[|workers| - 1])
  }

  function Load(m: Measure, queue: seq<Task>): nat {
    if queue == [] then 0 else Load(m, queue[..|queue| - 1]) + TaskWeigh(m, queue[|queue| - 1])
  }

  lemma {:induction false} TallyAppend(m: Measure, a: seq<Worker>, b: seq<Worker>)
    ensures Tally(m, a + b) == Tally(m, a) + Tally(m, b)
  {
    if b == [] {
      assert a + b == a;
    } else {
      TallyAppend(m, a, b[..|b| - 1]);
      assert (a + b)[..|a + b| - 1] == a + b[..|b| - 1];
    }
  }

  lemma TallyUpdate(m: Measure, workers: seq<Worker>, i: nat, w: Worker)
    requires i < |workers|
    ensures Tally(m, workers[i := w]) + Weigh(m, workers[i]) == Tally(m, workers) + Weigh(m, w)
  {
    TallyAt(m, workers, i);
    TallyAt(m, workers[i := w], i);
    assert workers[i := w][..i] == workers[..i] && workers[i := w][i + 1..] == workers[i + 1..];
  }

  lemma TallyAt(m: Measure, workers: seq<Worker>, i: nat)
    requires i < |workers|
    ensures Tally(m, workers) == Tally(m, workers[..i]) + Weigh(m, workers[i]) + Tally(m, workers[i + 1..])
  {
    assert [workers[i]][..0] == [];
    TallyAppend(m, workers[..i], [workers[i]]);
    TallyAppend(m, workers[..i] + [workers[i]], workers[i + 1..]);
    assert workers == workers[..i] + [workers[i]] + workers[i + 1..];
  }

  /** A count is positive exactly when some worker contributes to it. */
  lemma {:induction false} TallyPositive(m: Measure, workers: seq<Worker>)
    ensures Tally(m, workers) > 0 <==> exists i :: 0 <= i < |workers| && Weigh(m, workers[i]) > 0
  {
    if workers != [] {
      var n := |workers| - 1;
      TallyPositive(m, workers[..n]);
      if i :| 0 <= i < |workers| && Weigh(m, workers[i]) > 0 {
        if i < n { assert workers[..n][i] == workers[i]; }
      }
      if i :| 0 <= i < n && Weigh(m, workers[..n][i]) > 0 {
        assert Weigh(m, workers[i]) > 0;
      }
    }
  }

  lemma {:induction false} WakeAllTally(m: Measure, workers: seq<Worker>)
    ensures Tally(Sleeping, WakeAll(workers)) == 0
    ensures m.Live? || OnTasks(m) || m.AboutToNotify? ==> Tally(m, WakeAll(workers)) == Tally(m, workers)
    ensures Tally(Rank, WakeAll(workers)) <= Tally(Rank, workers) + |workers|
  {
    if workers != [] {
      var n := |workers| - 1;
      WakeAllTally(m, workers[..n]);
      assert WakeAll(workers)[..n] == WakeAll(workers[..n]);
    }
  }

  lemma {:induction false} LoadAppend(m: Measure, a: seq<Task>, b: seq<Task>)
    ensures Load(m, a + b) == Load(m, a) + Load(m, b)
  {
    if b == [] {
      assert a + b == a;
    } else {
      LoadAppend(m, a, b[..|b| - 1]);
      assert (a + b)[..|a + b| - 1] == a + b[..|b| - 1];
    }
  }

  /** Putting a task at the back, and taking the one at the front. */
  lemma LoadEnds(m: Measure, queue: seq<Task>, t: Task)
    ensures Load(m, queue + [t]) == Load(m, queue) + TaskWeigh(m, t)
    ensures queue != [] ==> Load(m, queue) == Load(m, queue[1..]) + TaskWeigh(m, queue[0])
  {
    assert [t][..0] == [];
    LoadAppend(m, queue, [t]);
    if queue != [] {
      assert queue == [queue[0]] + queue[1..] && [queue[0]][..0] == [];
      LoadAppend(m, [queue[0]], queue[1..]);
    }
  }
}
