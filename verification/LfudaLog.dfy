/** Where the counters of a row come from: the accesses of its key over a whole run. */
module LfudaLog {
  import opened MachineWords
  import opened CacheEngine
  import opened LfudaRows
  import opened LfudaProperties
  import opened LfudaRuns

  /** One access: its time, and the aging level in force. */
  datatype Visit = Visit(timestamp: uint64, aging: nat)

  /** A `put` or `renew` of the key that no argument check refuses. */
  predicate Reaches(s: State, op: Op, key: string) {
    (op.Put? || op.Renew?) && op.key == key != "" && (op.Put? ==> 1 <= op.size <= s.meta.maxSize)
  }

  /** The accesses of the key since it last came in.  A new entry is put in at the aging level
      that the evictions made for it leave behind; a hit happens before any eviction. */
  function Visits(s: State, steps: seq<Step>, key: string): seq<Visit> {
    if steps == [] then []
    else
      var earlier, last := Visits(s, steps[..|steps| - 1], key), steps[|steps| - 1];
      var now := Final(s, steps[..|steps| - 1]);
      if !Reaches(now, last.op, key) then earlier
      else if key in now.rows then earlier + [Visit(last.op.timestamp, now.meta.aging)]
      else if last.op.Put? then [Visit(last.op.timestamp, Final(s, steps).meta.aging)]
      else earlier
  }

  ghost predicate Latest(visits: seq<Visit>, timestamp: uint64) {
    && (forall i :: 0 <= i < |visits| ==> visits[i].timestamp <= timestamp)
    && exists i :: 0 <= i < |visits| && visits[i].timestamp == timestamp
  }

  /** A row that counts these visits: how many, the latest time, and an `eff` that exceeds the
      count by the aging level of the last visit. */
  ghost predicate Counts(r: Row, visits: seq<Visit>) {
    && visits != [] && r.freq == |visits| && Latest(visits, r.timestamp)
    && r.eff == |visits| + visits[|visits| - 1].aging
  }

  /** Every resident row counts the accesses of its key since it came in. */
  lemma {:induction false} RowCountsVisits(maxSize: nat, steps: seq<Step>, key: string)
    requires 1 <= maxSize < TWO63 && LegalRun(Empty(maxSize), steps) && |steps| < TWO63
    requires key in Final(Empty(maxSize), steps).rows
    ensures Counts(Final(Empty(maxSize), steps).rows[key], Visits(Empty(maxSize), steps, key))
  {
    if steps != [] {
      var before, last := steps[..|steps| - 1], steps[|steps| - 1];
      var s, earlier := Final(Empty(maxSize), before), Visits(Empty(maxSize), before, key);
      RunBudget(Empty(maxSize), before);
      CountersAfter(s, last.op, last.victims, key);
      if key in s.rows {
        RowCountsVisits(maxSize, before, key);
        if Reaches(s, last.op, key) { OneMoreVisit(s.rows[key], earlier, last, s.meta.aging); }
      }
    }
  }

  /** What a call does to the counters of a row that is there afterwards. */
  lemma CountersAfter(s: State, op: Op, victims: seq<Row>, key: string)
    requires Inv(s) && CanCount(s, op) && Representable(op) && Legal(s, op, victims) && key in Next(s, op, victims).rows
    ensures var t := Next(s, op, victims);
            if key in s.rows then
              && t.rows[key].freq == s.rows[key].freq + (if Reaches(s, op, key) then 1 else 0)
              && t.rows[key].timestamp
                 == (if Reaches(s, op, key) then Max(s.rows[key].timestamp, op.timestamp) else s.rows[key].timestamp)
              && t.rows[key].eff
                 == (if Reaches(s, op, key) then s.rows[key].freq + 1 + s.meta.aging else s.rows[key].eff)
            else
              && op.Put? && Reaches(s, op, key)
              && t.rows[key] == Row(key, op.size, op.timestamp, 1, t.meta.aging + 1)
  {
    AfterRows(Base(s, op), victims, key);
  }

  lemma OneMoreVisit(r: Row, visits: seq<Visit>, step: Step, aging: nat)
    requires Counts(r, visits) && (step.op.Put? || step.op.Renew?)
    ensures var t := step.op.timestamp;
            var more := visits + [Visit(t, aging)];
            Latest(more, Max(r.timestamp, t))
  {
    var t := step.op.timestamp;
    var more := visits + [Visit(t, aging)];
    var i :| 0 <= i < |visits| && visits[i].timestamp == r.timestamp;
    assert more[i] == visits[i] && more[|visits|].timestamp == t;
  }
}
