/** Whole runs of the LFU-DA engine, whatever ties are broken how: the access budget that
    keeps the counters from wrapping, the ledger of residencies, and the bound on how long an
    untouched entry can last. */
module LfudaRuns {
  import opened MachineWords
  import opened CacheEngine
  import opened LfudaRows
  import opened LfudaProperties

  /** A call and the rows it evicted. */
  datatype Step = Step(op: Op, victims: seq<Row>)

  function Final(s: State, steps: seq<Step>): State {
    if steps == [] then s
    else
      var last := steps[|steps| - 1];
      Next(Final(s, steps[..|steps| - 1]), last.op, last.victims)
  }

  ghost predicate LegalRun(s: State, steps: seq<Step>) {
    steps != [] ==>
      var before, last := steps[..|steps| - 1], steps[|steps| - 1];
      && LegalRun(s, before) && Representable(last.op)
      && Legal(Final(s, before), last.op, last.victims)
  }

  function Empty(maxSize: nat): State {
    State(map[], Meta(0, maxSize, 0))
  }

  // ---------- the access budget ----------

  /** The successful accesses of a run: new `put`s, duplicate `put`s and `renew` hits. */
  function AccessCount(s: State, steps: seq<Step>): nat {
    if steps == [] then 0
    else AccessCount(s, steps[..|steps| - 1]) + Access(Final(s, steps[..|steps| - 1]), steps[|steps| - 1].op)
  }

  /** The access counts of every row the run evicted. */
  function EvictedFreq(steps: seq<Step>): nat {
    if steps == [] then 0 else EvictedFreq(steps[..|steps| - 1]) + TotalFreq(steps[|steps| - 1].victims)
  }

  /** The invariant holds at the end of every run shorter than the room left in the counters;
      no access is lost or counted twice; and the aging level lives off evicted accesses. */
  lemma {:induction false} RunBudget(s: State, steps: seq<Step>)
    requires Inv(s) && LegalRun(s, steps) && Budget(s) + |steps| < TWO63
    ensures var t := Final(s, steps);
            && Inv(t) && s.meta.aging <= t.meta.aging
            && Budget(t) <= Budget(s) + AccessCount(s, steps)
            && AccessCount(s, steps) <= |steps|
            && Sum(Accesses, t.rows) + EvictedFreq(steps) == Sum(Accesses, s.rows) + AccessCount(s, steps)
            && t.meta.aging <= s.meta.aging + EvictedFreq(steps)
  {
    if steps != [] {
      var before, last := steps[..|steps| - 1], steps[|steps| - 1];
      RunBudget(s, before);
      InvKept(Final(s, before), last.op, last.victims);
    }
  }

  /** From an empty cache, the counts of resident and evicted rows add up to the accesses
      made, and no `eff` and no aging level exceeds them: the counters cannot wrap, nor reach
      the sign bit of their column, within fewer than 2^63 calls. */
  lemma {:induction false} CountersBounded(maxSize: nat, steps: seq<Step>, k: string)
    requires 1 <= maxSize < TWO63 && LegalRun(Empty(maxSize), steps) && |steps| < TWO63
    ensures var s, t := Empty(maxSize), Final(Empty(maxSize), steps);
            var accesses := AccessCount(s, steps);
            && accesses <= |steps|
            && Sum(Accesses, t.rows) + EvictedFreq(steps) == accesses
            && t.meta.aging <= EvictedFreq(steps) <= accesses
            && (k in t.rows ==> t.meta.aging <= t.rows[k].eff <= accesses)
  {
    RunBudget(Empty(maxSize), steps);
    var t := Final(Empty(maxSize), steps);
    if k in t.rows {
      assert RowOk(t.rows, t.meta.aging, k);
      SumMember(Accesses, t.rows, k);
    }
  }

  // ---------- the ledger ----------

  function InsertedCount(s: State, steps: seq<Step>, key: string): nat {
    if steps == [] then 0
    else
      var before, last := steps[..|steps| - 1], steps[|steps| - 1];
      InsertedCount(s, before, key) + if Inserts(Final(s, before), last.op) && KeyOf(last.op) == key then 1 else 0
  }

  function ReportedCount(steps: seq<Step>, key: string): nat {
    if steps == [] then 0
    else ReportedCount(steps[..|steps| - 1], key) + Count(steps[|steps| - 1].victims, key)
  }

  /** Every residency of a key ends in exactly one report, or is the one still going on. */
  lemma {:induction false} Ledger(s: State, steps: seq<Step>, key: string)
    requires Inv(s) && LegalRun(s, steps) && Budget(s) + |steps| < TWO63
    ensures Presence(s.rows, key) + InsertedCount(s, steps, key)
            == Presence(Final(s, steps).rows, key) + ReportedCount(steps, key)
  {
    if steps != [] {
      var before, last := steps[..|steps| - 1], steps[|steps| - 1];
      Ledger(s, before, key);
      RunBudget(s, before);
      LedgerOfCall(Final(s, before), last.op, last.victims, key);
    }
  }

  // ---------- no starvation ----------

  /** How much longer an entry with effective value `eff` can last, in evictions, in a cache
      of at most `limit` bytes: levels still to climb, and rows still on the current one. */
  ghost function Patience(s: State, eff: nat, limit: nat): int {
    (eff - s.meta.aging) * (limit + 1) + Sum(AtLevel(s.meta.aging), s.rows)
  }

  /** Every eviction that spares the entry costs it patience. */
  lemma EvictionCostsPatience(s: State, v: Row, key: string, limit: nat)
    requires Loose(s) && Worst(s.rows, v) && key in s.rows && key != v.key && s.meta.cacheSize <= limit
    ensures Patience(EvictOne(s, v), s.rows[key].eff, limit) < Patience(s, s.rows[key].eff, limit)
  {
    var t, eff := EvictOne(s, v), s.rows[key].eff;
    assert RowOk(s.rows, s.meta.aging, v.key);
    EvictKeeps(s, v);
    WorstHasLeastEff(s, v, key);
    if v.eff == s.meta.aging {
      SumWithout(AtLevel(v.eff), s.rows, v.key);
    } else {
      LevelWithinBytes(v.eff, t.rows, t.meta.aging);
      LevelsClimbed(eff, s.meta.aging, v.eff, limit);
    }
  }

  lemma LevelsClimbed(eff: nat, from: nat, to: nat, limit: nat)
    requires from < to <= eff
    ensures (eff - to) * (limit + 1) + limit < (eff - from) * (limit + 1)
  {
    Distribute(eff - to, to - from, limit + 1);
  }

  lemma Distribute(a: nat, d: nat, n: nat)
    requires d >= 1
    ensures (a + d) * n >= a * n + n
  {
    assert (a + d) * n == a * n + d * n;
    assert d * n == n + (d - 1) * n;
  }

  lemma {:induction false} RunCostsPatience(s: State, required: nat, victims: seq<Row>, key: string, limit: nat)
    requires Loose(s) && EvictionRun(s, required, victims) && key in After(s, victims).rows
    requires s.meta.cacheSize <= limit
    ensures key in s.rows && After(s, victims).rows[key] == s.rows[key]
    ensures Patience(After(s, victims), s.rows[key].eff, limit) + |victims| <= Patience(s, s.rows[key].eff, limit)
  {
    AfterRows(s, victims, key);
    if victims != [] {
      var before, v := victims[..|victims| - 1], victims[|victims| - 1];
      AfterRows(s, before, key);
      RunKeeps(s, required, before);
      RunCostsPatience(s, required, before, key, limit);
      EvictionCostsPatience(After(s, before), v, key, limit);
    }
  }

  predicate Names(op: Op, key: string) {
    (op.Put? || op.Renew?) && op.key == key
  }

  /** Touching another row does not put it on the current level, */
  lemma BasePatience(s: State, op: Op, key: string, limit: nat)
    requires Inv(s) && CanCount(s, op) && Representable(op) && key in s.rows && !Names(op, key)
    ensures key in Base(s, op).rows && Base(s, op).rows[key] == s.rows[key]
    ensures Patience(Base(s, op), s.rows[key].eff, limit) <= Patience(s, s.rows[key].eff, limit)
  {
    if Hits(s, op) {
      assert RowOk(s.rows, s.meta.aging, op.key);
      SumWrite(AtLevel(s.meta.aging), s.rows, op.key, Base(s, op).rows[op.key]);
    }
  }

  /** nor does inserting or resizing one. */
  lemma NextPatience(s: State, op: Op, victims: seq<Row>, key: string, limit: nat)
    requires !Names(op, key) && Result(s, op).Returned? && key in After(Base(s, op), victims).rows
    ensures var left, t := After(Base(s, op), victims), Next(s, op, victims);
            && key in t.rows && t.rows[key].eff == left.rows[key].eff
            && Patience(t, left.rows[key].eff, limit) <= Patience(left, left.rows[key].eff, limit)
  {
    var left := After(Base(s, op), victims);
    var level := AtLevel(left.meta.aging);
    match op
    case Put(k, size, timestamp) =>
      if k !in s.rows {
        AfterRows(Base(s, op), victims, k);
        SumWrite(level, left.rows, k, Row(k, size, timestamp, 1, left.meta.aging + 1));
      } else if k in left.rows {
        SumWrite(level, left.rows, k, left.rows[k].(size := size));
      }
    case Update(k, size) =>
      if k in left.rows { SumWrite(level, left.rows, k, left.rows[k].(size := size)); }
    case _ =>
  }

  /** A row that is still there and was not put back was there before the call. */
  lemma SurvivorWasThere(s: State, op: Op, victims: seq<Row>, key: string)
    requires !Names(op, key) && key in Next(s, op, victims).rows && Result(s, op).Returned?
    ensures key in After(Base(s, op), victims).rows && key in s.rows
  {
    AfterRows(Base(s, op), victims, key);
  }

  /** A call that leaves the entry alone lowers its patience by at least the evictions made. */
  lemma StepCostsPatience(s: State, op: Op, victims: seq<Row>, key: string, limit: nat)
    requires Inv(s) && CanCount(s, op) && Representable(op) && Legal(s, op, victims)
    requires !Names(op, key) && key in Next(s, op, victims).rows && s.meta.maxSize <= limit
    ensures key in s.rows && Next(s, op, victims).rows[key].eff == s.rows[key].eff
    ensures Patience(Next(s, op, victims), s.rows[key].eff, limit) + |victims| <= Patience(s, s.rows[key].eff, limit)
  {
    if Result(s, op).Returned? {
      SurvivorWasThere(s, op, victims, key);
      BaseKeeps(s, op);
      BasePatience(s, op, key, limit);
      RunCostsPatience(Base(s, op), Required(s, op), victims, key, limit);
      NextPatience(s, op, victims, key, limit);
    }
  }

  predicate LeavesAlone(steps: seq<Step>, key: string) {
    forall i :: 0 <= i < |steps| ==> !Names(steps[i].op, key)
  }

  /** The byte limit never exceeds `limit`. */
  predicate Limited(s: State, steps: seq<Step>, limit: nat) {
    && s.meta.maxSize <= limit
    && forall i :: 0 <= i < |steps| && steps[i].op.Resize? ==> steps[i].op.size <= limit
  }

  function Evictions(steps: seq<Step>): nat {
    if steps == [] then 0 else Evictions(steps[..|steps| - 1]) + |steps[|steps| - 1].victims|
  }

  lemma {:induction false} LimitHolds(s: State, steps: seq<Step>, limit: nat)
    requires Limited(s, steps, limit)
    ensures Final(s, steps).meta.maxSize <= limit
  {
    if steps != [] {
      var before, last := steps[..|steps| - 1], steps[|steps| - 1];
      LimitHolds(s, before, limit);
      AfterMax(Base(Final(s, before), last.op), last.victims);
    }
  }

  lemma {:induction false} AfterMax(s: State, victims: seq<Row>)
    ensures After(s, victims).meta.maxSize == s.meta.maxSize
  {
    if victims != [] { AfterMax(s, victims[..|victims| - 1]); }
  }

  lemma {:induction false} RunOutlasted(s: State, steps: seq<Step>, key: string, limit: nat)
    requires Inv(s) && LegalRun(s, steps) && Budget(s) + |steps| < TWO63
    requires LeavesAlone(steps, key) && Limited(s, steps, limit) && key in Final(s, steps).rows
    ensures key in s.rows && Final(s, steps).rows[key].eff == s.rows[key].eff
    ensures Patience(Final(s, steps), s.rows[key].eff, limit) + Evictions(steps)
            <= Patience(s, s.rows[key].eff, limit)
  {
    if steps != [] {
      var before, last := steps[..|steps| - 1], steps[|steps| - 1];
      RunBudget(s, before);
      LimitHolds(s, before, limit);
      StepCostsPatience(Final(s, before), last.op, last.victims, key, limit);
      RunOutlasted(s, before, key, limit);
    }
  }

  lemma PatienceRange(s: State, key: string, limit: nat)
    requires Loose(s) && key in s.rows && s.meta.cacheSize <= limit
    ensures 0 <= Patience(s, s.rows[key].eff, limit) <= (s.rows[key].eff - s.meta.aging) * (limit + 1) + limit
  {
    assert RowOk(s.rows, s.meta.aging, key);
    LevelWithinBytes(s.meta.aging, s.rows, s.meta.aging);
    assert (s.rows[key].eff - s.meta.aging) * (limit + 1) >= 0;
  }

  /** No starvation: an entry that is never renewed nor put again outlasts at most
      `(eff - aging) * (limit + 1) + limit` evictions, whatever else happens. */
  lemma {:induction false} NoStarvation(s: State, steps: seq<Step>, key: string, limit: nat)
    requires Inv(s) && LegalRun(s, steps) && Budget(s) + |steps| < TWO63
    requires LeavesAlone(steps, key) && Limited(s, steps, limit) && key in s.rows
    requires Evictions(steps) > (s.rows[key].eff - s.meta.aging) * (limit + 1) + limit
    ensures key !in Final(s, steps).rows
  {
    if key in Final(s, steps).rows {
      hide Patience, Final, Evictions, LegalRun;
      RunBudget(s, steps);
      LimitHolds(s, steps, limit);
      RunOutlasted(s, steps, key, limit);
      PatienceRange(s, key, limit);
      PatienceRange(Final(s, steps), key, limit);
    }
  }
}
