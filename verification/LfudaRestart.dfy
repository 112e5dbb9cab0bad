/** Starting the LFU-DA engine on the rows and meta row that it finds. */
module LfudaRestart {
  import opened CacheEngine
  import opened LfudaRows
  import opened LfudaProperties
  import opened LfudaEngine
  import LfudaSteps

  /** What `init` looks at: the empty row, or a row that the DELETE could choose. */
  ghost predicate Found(rows: Rows, worst: Row) {
    if rows == map[] then worst == NO_ROW else Worst(rows, worst)
  }

  /** A limit of zero, bytes stored for no rows, and a worst row larger than all stored bytes
      are refused, in this order, and leave everything as it was. */
  lemma InitRefusals(s: State, worst: Row, r: Outcome, victims: seq<Row>, t: State)
    requires Keyed(s.rows) && "" !in s.rows && Found(s.rows, worst) && Starts(s, worst, r, victims, t)
    ensures r == Threw(ZeroMaxSize) <==> s.meta.maxSize == 0
    ensures r == Threw(EmptyButSized) <==> s.meta.maxSize != 0 && s.rows == map[] && s.meta.cacheSize != 0
    ensures s.meta.maxSize != 0 && s.rows != map[] && worst.size > s.meta.cacheSize ==> r == Threw(CacheSizeMismatch)
    ensures (s.meta.maxSize == 0 || (if s.rows == map[] then s.meta.cacheSize != 0 else worst.size > s.meta.cacheSize))
            ==> victims == [] && t == s
  {
    hide Worst, EvictionRun, Drains, After;
    if s.rows != map[] { WorstMember(s.rows, worst); }
  }

  /** Evicting from a consistent table does not fail. */
  lemma NoFailure(s: State, victims: seq<Row>, error: Error, t: State)
    requires Loose(s)
    ensures !Fails(s, 0, victims, error, t)
  {
    hide Loose, After, Over, Worst;
    assert s.meta.maxSize >= 0;
    if Fails(s, 0, victims, error, t) {
      if error.NothingToEvict? {
        EvictionPossible(s, 0, victims);
      } else {
        var v := victims[|victims| - 1];
        EvictionPossible(s, 0, victims[..|victims| - 1]);
        WorstMember(After(s, victims[..|victims| - 1]).rows, v);
      }
    }
  }

  lemma Accepted(s: State, worst: Row)
    requires Loose(s) && Found(s.rows, worst)
    ensures s.meta.maxSize != 0 && (worst.key == "" ==> s.meta.cacheSize == 0) && worst.size <= s.meta.cacheSize
  {
    if s.rows != map[] {
      assert RowOk(s.rows, s.meta.aging, worst.key);
      WithinBudget(s, worst.key);
    }
  }

  /** `init` brings a consistent table within its limit: worst rows leave and are reported, none
      that did not have to, and nothing else changes. */
  lemma InitEvicts(s: State, worst: Row, r: Outcome, victims: seq<Row>, t: State)
    requires Loose(s) && Found(s.rows, worst) && Starts(s, worst, r, victims, t)
    ensures r == Returned(true) && Inv(t) && LfudaSteps.Evicts(s, 0, victims, t)
    ensures s.meta.cacheSize <= s.meta.maxSize ==> victims == [] && t == s
  {
    hide Loose, After, Over, Worst, Fails, LfudaSteps.Evicts, Found, EvictionRun;
    Accepted(s, worst);
    if r.Threw? {
      NoFailure(s, victims, r.error, t);
    } else {
      RunKeeps(s, 0, victims);
      OverExactly(t, 0);
      LfudaSteps.EvictionTold(s, 0, victims);
      LimitHeld(s, t);
      if s.meta.cacheSize <= s.meta.maxSize { LfudaSteps.NothingToEvictFor(s, victims); }
    }
  }

  lemma LimitHeld(s: State, t: State)
    requires Loose(s) && Loose(t) && !Over(t, 0)
    ensures Inv(t) && (s.meta.cacheSize <= s.meta.maxSize ==> Inv(s))
    ensures After(s, []) == s
  {
    OverExactly(t, 0);
  }
}
