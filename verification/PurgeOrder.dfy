/** The order in which the purge queue serves its tasks, and what becomes of each request. */
module PurgeOrder {
  import opened Options
  import opened PurgeQueue
  import opened PurgeProperties
  import opened PurgeRuns

  // ---------- what goes in and what comes out ----------

  /** Everything pushed in the course of a run: accepted tasks and retried ones. */
  function Queued(c: Config, steps: seq<Step>): seq<Task>
    requires Possible(c, steps)
  {
    if steps == [] then []
    else
      var n := |steps| - 1;
      Queued(c, steps[..n]) + Pushed(c, Run(c, steps[..n]), steps[n])
  }

  function Pushed(c: Config, s: State, step: Step): seq<Task>
    requires Enabled(s, step)
  {
    if |s.queue| >= c.queueMax then []
    else
      match step
      case Add => [Task(s.accepted, 0)]
      case Retry(w) => [s.workers[w].task]
      case _ => []
  }

  /** The requests started in the course of a run, as the worker holds the task then. */
  function Requested(c: Config, steps: seq<Step>): seq<Task>
    requires Possible(c, steps)
  {
    if steps == [] then []
    else
      var n := |steps| - 1;
      Requested(c, steps[..n]) + Started(steps[n], Run(c, steps))
  }

  function Started(step: Step, after: State): seq<Task> {
    if step.Enter? && step.w < |after.workers| && after.workers[step.w].Requesting?
    then [after.workers[step.w].task] else []
  }

  function Attempt(t: Task): Task {
    Task(t.id, t.tries + 1)
  }

  predicate AttemptsOf(requested: seq<Task>, queued: seq<Task>) {
    |requested| <= |queued| && forall i :: 0 <= i < |requested| ==> requested[i] == Attempt(queued[i])
  }

  /** First in, first out: the requests are attempts at what was queued, in that order, and the
      queue is the rest. */
  lemma {:induction false} FirstInFirstOut(c: Config, steps: seq<Step>)
    requires Possible(c, steps)
    ensures var queued, requested := Queued(c, steps), Requested(c, steps);
            && |requested| <= |queued| && Run(c, steps).queue == queued[|requested|..]
            && forall i :: 0 <= i < |requested| ==> requested[i] == Task(queued[i].id, queued[i].tries + 1)
  {
    if steps != [] {
      var n := |steps| - 1;
      FirstInFirstOut(c, steps[..n]);
      OneStep(c, Run(c, steps[..n]), steps[n], Queued(c, steps[..n]), Requested(c, steps[..n]));
    }
  }

  lemma OneStep(c: Config, s: State, step: Step, queued: seq<Task>, requested: seq<Task>)
    requires Enabled(s, step) && AttemptsOf(requested, queued) && s.queue == queued[|requested|..]
    ensures var t := Apply(c, s, step);
            var queued', requested' := queued + Pushed(c, s, step), requested + Started(step, t);
            AttemptsOf(requested', queued') && t.queue == queued'[|requested'|..]
  {
  }

  lemma CountStep(c: Config, s: State, step: Step, id: nat)
    requires Enabled(s, step)
    ensures Apply(c, s, step).requests[id] == s.requests[id] + Load(Holding(id), Started(step, Apply(c, s, step)))
  {
    if Pops(s, step) { LoadEnds(Holding(id), [], Attempted(s)); }
  }

  /** `requests` counts them by task. */
  lemma {:induction false} RequestsCounted(c: Config, steps: seq<Step>, id: nat)
    requires Possible(c, steps)
    ensures Run(c, steps).requests[id] == Load(Holding(id), Requested(c, steps))
  {
    if steps != [] {
      hide Apply, Enabled, Started;
      var n := |steps| - 1;
      RequestsCounted(c, steps[..n], id);
      CountStep(c, Run(c, steps[..n]), steps[n], id);
      LoadAppend(Holding(id), Requested(c, steps[..n]), Started(steps[n], Run(c, steps)));
    }
  }

  // ---------- first requests in the order of acceptance ----------

  ghost predicate AcceptedEarlier(queued: seq<Task>, id: nat, before: int) {
    exists q :: 0 <= q < |queued| && q < before && queued[q] == Task(id, 0)
  }

  /** Every accepted task was queued fresh, and before anything queued of a later one. */
  ghost predicate InOrder(queued: seq<Task>, accepted: nat) {
    && (forall id: nat :: id < accepted ==> AcceptedEarlier(queued, id, |queued|))
    && (forall p, id: nat :: 0 <= p < |queued| && id < queued[p].id ==> AcceptedEarlier(queued, id, p))
    && (forall p :: 0 <= p < |queued| ==> queued[p].id < accepted)
  }

  lemma OnePushed(queued: seq<Task>, accepted: nat, t: Task)
    requires InOrder(queued, accepted) && t.id <= accepted && (t.id == accepted ==> t.tries == 0)
    ensures InOrder(queued + [t], if t.id == accepted then accepted + 1 else accepted)
  {
    var more := queued + [t];
    assert more[|queued|] == t;
    forall id: nat, p | p <= |queued| && AcceptedEarlier(queued, id, p)
      ensures AcceptedEarlier(more, id, p) && AcceptedEarlier(more, id, |more|)
    {
      var q :| 0 <= q < |queued| && q < p && queued[q] == Task(id, 0);
      assert more[q] == Task(id, 0);
    }
    forall id: nat | id <= t.id || id < accepted
      ensures id < accepted || t.id == accepted ==> AcceptedEarlier(more, id, |more|)
    {
      if id < accepted { assert AcceptedEarlier(queued, id, |queued|); }
    }
    forall p, id: nat | 0 <= p < |more| && id < more[p].id
      ensures AcceptedEarlier(more, id, p)
    {
      if p < |queued| {
        assert AcceptedEarlier(queued, id, p);
      } else {
        assert AcceptedEarlier(queued, id, |queued|);
      }
    }
  }

  lemma HeldIsAccepted(c: Config, s: State, w: nat)
    requires Inv(c, s) && w < |s.workers| && (s.workers[w].Requesting? || s.workers[w].Retrying?)
    ensures s.workers[w].task.id < s.accepted
  {
    var id := s.workers[w].task.id;
    assert Conserved(s, id);
    TallyAt(Holding(id), s.workers, w);
  }

  lemma StepInOrder(c: Config, s: State, step: Step, queued: seq<Task>)
    requires Inv(c, s) && Enabled(s, step) && InOrder(queued, s.accepted)
    ensures InOrder(queued + Pushed(c, s, step), Apply(c, s, step).accepted)
  {
    hide Inv, InOrder;
    if step.Retry? { HeldIsAccepted(c, s, step.w); }
    var pushed := Pushed(c, s, step);
    if pushed == [] { assert queued + pushed == queued; } else { OnePushed(queued, s.accepted, pushed[0]); }
  }

  lemma {:induction false} QueuedInOrder(c: Config, steps: seq<Step>)
    requires Possible(c, steps)
    ensures InOrder(Queued(c, steps), Run(c, steps).accepted)
  {
    if steps != [] {
      hide Inv, InOrder, Apply, Enabled, Pushed;
      var n := |steps| - 1;
      QueuedInOrder(c, steps[..n]);
      InvRun(c, steps[..n]);
      StepInOrder(c, Run(c, steps[..n]), steps[n], Queued(c, steps[..n]));
    }
  }

  /** No task is requested while one accepted earlier has never been. */
  lemma {:induction false} RequestedInOrder(c: Config, steps: seq<Step>, i: nat, j: nat)
    requires Possible(c, steps) && i < j
    ensures Run(c, steps).requests[j] > 0 ==> Run(c, steps).requests[i] > 0
  {
    if Run(c, steps).requests[j] > 0 {
      var queued, requested := Queued(c, steps), Requested(c, steps);
      RequestsCounted(c, steps, j);
      RequestsCounted(c, steps, i);
      FirstInFirstOut(c, steps);
      QueuedInOrder(c, steps);
      hide Run, Possible;
      var p := Found(requested, j);
      assert AcceptedEarlier(queued, i, p);
      var q :| 0 <= q < p && queued[q] == Task(i, 0);
      assert requested[q].id == i;
      CountedAt(requested, q);
    }
  }

  lemma {:induction false} Found(tasks: seq<Task>, id: nat) returns (p: nat)
    requires Load(Holding(id), tasks) > 0
    ensures p < |tasks| && tasks[p].id == id
  {
    p := |tasks| - 1;
    if tasks[p].id != id { p := Found(tasks[..p], id); }
  }

  lemma {:induction false} CountedAt(tasks: seq<Task>, p: nat)
    requires p < |tasks|
    ensures Load(Holding(tasks[p].id), tasks) > 0
  {
    var n := |tasks| - 1;
    if p < n { CountedAt(tasks[..n], p); }
  }

  // ---------- a task put back waits for all that was queued ----------

  lemma {:induction false} Grows(c: Config, steps: seq<Step>, n: nat)
    requires Possible(c, steps) && n <= |steps|
    ensures Possible(c, steps[..n])
    ensures Queued(c, steps[..n]) <= Queued(c, steps) && Requested(c, steps[..n]) <= Requested(c, steps)
  {
    if n < |steps| {
      Grows(c, steps[..|steps| - 1], n);
      assert steps[..|steps| - 1][..n] == steps[..n];
    } else {
      assert steps[..n] == steps;
    }
  }

  /** Whatever is queued at some moment is requested in that order, before anything else. */
  lemma {:induction false} QueueComesFirst(c: Config, steps: seq<Step>, n: nat)
    requires Possible(c, steps) && n <= |steps|
    ensures Possible(c, steps[..n])
    ensures var queue, done, requested := Run(c, steps[..n]).queue, |Requested(c, steps[..n])|, Requested(c, steps);
            && done <= |requested| && requested[..done] == Requested(c, steps[..n])
            && forall k :: 0 <= k < |queue| && done + k < |requested| ==>
                 requested[done + k] == Task(queue[k].id, queue[k].tries + 1)
  {
    Grows(c, steps, n);
    FirstInFirstOut(c, steps[..n]);
    FirstInFirstOut(c, steps);
  }

  /** A task put back for a retry is not requested again until everything queued at that moment
      has been; then it is the next one. */
  lemma {:induction false} RetryGoesLast(c: Config, steps: seq<Step>, n: nat)
    requires Possible(c, steps) && n < |steps| && steps[n].Retry?
    ensures Possible(c, steps[..n]) && Enabled(Run(c, steps[..n]), steps[n])
    ensures var s, done, requested := Run(c, steps[..n]), |Requested(c, steps[..n])|, Requested(c, steps);
            var task := s.workers[steps[n].w].task;
            |s.queue| < c.queueMax ==>
              && (|requested| <= done + |s.queue| ==> Run(c, steps).requests[task.id] == s.requests[task.id])
              && (|requested| > done + |s.queue| ==> requested[done + |s.queue|] == Task(task.id, task.tries + 1))
  {
    hide Inv, Load, Apply, Pushed, Started, Queued;
    Grows(c, steps, n);
    RetryEnds(c, steps, n);
    QueueComesFirst(c, steps, n + 1);
    var s, after := Run(c, steps[..n]), Run(c, steps[..n + 1]).queue;
    var task, done, requested := s.workers[steps[n].w].task, |Requested(c, steps[..n])|, Requested(c, steps);
    InvRun(c, steps[..n]);
    RequestsCounted(c, steps, task.id);
    RequestsCounted(c, steps[..n], task.id);
    NotQueued(c, s, steps[n].w);
    hide Run, Possible, Enabled, Requested;
    if |s.queue| < c.queueMax {
      assert after[|s.queue|] == task;
      if |requested| <= done + |s.queue| {
        assert forall k :: 0 <= k < |s.queue| ==> after[k] == s.queue[k];
        NoneAmong(requested[done..], s.queue, task.id);
        LoadAppend(Holding(task.id), requested[..done], requested[done..]);
        assert requested == requested[..done] + requested[done..];
      }
    }
  }

  lemma RetryEnds(c: Config, steps: seq<Step>, n: nat)
    requires Possible(c, steps) && n < |steps| && steps[n].Retry?
    ensures Possible(c, steps[..n]) && Enabled(Run(c, steps[..n]), steps[n]) && Possible(c, steps[..n + 1])
    ensures Requested(c, steps[..n + 1]) == Requested(c, steps[..n])
    ensures var s := Run(c, steps[..n]);
            |s.queue| < c.queueMax ==> Run(c, steps[..n + 1]).queue == s.queue + [s.workers[steps[n].w].task]
  {
    Grows(c, steps, n + 1);
    assert steps[..n + 1][..n] == steps[..n] && steps[..n + 1] != [];
  }

  lemma NotQueued(c: Config, s: State, w: nat)
    requires Inv(c, s) && Enabled(s, Retry(w))
    ensures Load(Holding(s.workers[w].task.id), s.queue) == 0
  {
    var id := s.workers[w].task.id;
    assert Conserved(s, id);
    TallyAt(Holding(id), s.workers, w);
  }

  lemma {:induction false} NoneAmong(requested: seq<Task>, queue: seq<Task>, id: nat)
    requires Load(Holding(id), queue) == 0 && |requested| <= |queue|
    requires forall k :: 0 <= k < |requested| ==> requested[k].id == queue[k].id
    ensures Load(Holding(id), requested) == 0
  {
    if Load(Holding(id), requested) > 0 {
      var p := Found(requested, id);
      CountedAt(queue, p);
    }
  }

  // ---------- how requests end ----------

  lemma StoppedStep(c: Config, s: State, step: Step)
    requires Enabled(s, step) && s.stop
    ensures Apply(c, s, step).stop && Started(step, Apply(c, s, step)) == []
  {
  }

  /** After a stop signal no request is started. */
  lemma {:induction false} NoRequestAfterStop(c: Config, steps: seq<Step>, n: nat)
    requires Possible(c, steps) && n <= |steps|
    ensures Possible(c, steps[..n])
    ensures Run(c, steps[..n]).stop ==> Run(c, steps).stop && Requested(c, steps) == Requested(c, steps[..n])
  {
    if n < |steps| {
      var last := |steps| - 1;
      NoRequestAfterStop(c, steps[..last], n);
      assert steps[..last][..n] == steps[..n];
      if Run(c, steps[..n]).stop { StoppedStep(c, Run(c, steps[..last]), steps[last]); }
      hide Apply, Enabled, Started;
    } else {
      assert steps[..n] == steps;
    }
  }

  /** While a task is somewhere, its attempts are the requests made for it. */
  predicate TriesTold(s: State, id: nat) {
    Mass(Holding(id), s) > 0 ==> Mass(TriesOf(id), s) == s.requests[id]
  }

  lemma {:induction false} NoTaskNoTries(id: nat, queue: seq<Task>, workers: seq<Worker>)
    ensures Load(Holding(id), queue) == 0 ==> Load(TriesOf(id), queue) == 0
    ensures Tally(Holding(id), workers) == 0 ==> Tally(TriesOf(id), workers) == 0
    decreases |queue| + |workers|
  {
    if queue != [] { NoTaskNoTries(id, queue[..|queue| - 1], workers); }
    if workers != [] { NoTaskNoTries(id, queue, workers[..|workers| - 1]); }
  }

  lemma TriesStep(c: Config, s: State, step: Step, id: nat)
    requires Inv(c, s) && Enabled(s, step) && TriesTold(s, id)
    ensures TriesTold(Apply(c, s, step), id)
  {
    hide Tally, Load, Wake, WakeAll;
    assert Conserved(s, id) && Rationed(c, s, id);
    var t := Apply(c, s, step);
    MassStep(c, s, step, Holding(id));
    MassStep(c, s, step, TriesOf(id));
    NoTaskNoTries(id, s.queue, s.workers);
    NoTaskNoTries(id, t.queue, t.workers);
  }

  lemma {:induction false} TriesRun(c: Config, steps: seq<Step>, id: nat)
    requires Possible(c, steps)
    ensures TriesTold(Run(c, steps), id)
  {
    if steps == [] {
      AllAtTop(Holding(id), c.threads);
    } else {
      TriesRun(c, steps[..|steps| - 1], id);
      InvRun(c, steps[..|steps| - 1]);
      TriesStep(c, Run(c, steps[..|steps| - 1]), steps[|steps| - 1], id);
    }
  }

  lemma TriesHeld(c: Config, s: State, w: nat)
    requires Inv(c, s) && w < |s.workers| && (s.workers[w].Requesting? || s.workers[w].Retrying?)
    requires TriesTold(s, s.workers[w].task.id)
    ensures s.workers[w].task.tries == s.requests[s.workers[w].task.id]
  {
    var id := s.workers[w].task.id;
    assert Conserved(s, id);
    HeldUpdate(Holding(id), s.workers, w, AtTop);
    HeldUpdate(TriesOf(id), s.workers, w, AtTop);
    NoTaskNoTries(id, s.queue, s.workers[w := AtTop]);
  }

  /** A task succeeds exactly when its request does.  It is reported as failed exactly when a
      request fails and was no fewer than the `try_max`-th, or when the queue is full at its
      retry. */
  lemma {:induction false} Outcomes(c: Config, steps: seq<Step>, step: Step)
    requires Possible(c, steps) && Enabled(Run(c, steps), step)
    ensures var s, t := Run(c, steps), Apply(c, Run(c, steps), step);
            match step
            case Respond(w, ok) =>
              var id := s.workers[w].task.id;
              && t.succeeded == (if ok then s.succeeded + multiset{id} else s.succeeded)
              && t.failed == (if !ok && s.requests[id] >= c.tryMax then s.failed + multiset{id} else s.failed)
            case Retry(w) =>
              && t.succeeded == s.succeeded
              && t.failed == if |s.queue| >= c.queueMax then s.failed + multiset{s.workers[w].task.id} else s.failed
            case _ => t.succeeded == s.succeeded && t.failed == s.failed
  {
    if step.Respond? {
      InvRun(c, steps);
      TriesRun(c, steps, Run(c, steps).workers[step.w].task.id);
      TriesHeld(c, Run(c, steps), step.w);
    }
  }
}
