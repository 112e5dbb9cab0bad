/** Restarting the LRU engine: what `backup` then `init` restores, and which stale meta rows
    `init` notices (src/algo/algo_lru_sqlite.cpp:11-47). */
module LruRestart {
  import opened MachineWords
  import opened CacheEngine
  import opened LruRecency
  import opened LruProperties
  import opened LruSteps
  import opened LruRuns
  import opened LruEngine

  /** What `init` refuses on a table of good rows, in this order; nothing is evicted then. */
  lemma InitRefusals(l: seq<Row>, m: Meta)
    requires GoodRows(l)
    ensures var i := Initial(l, m);
            && (m.maxSize == 0 ==> i == Initialized(State(l, m), [], Threw(ZeroMaxSize)))
            && (m.maxSize > 0 && l == [] && m.cacheSize > 0 ==>
                  i == Initialized(State(l, m), [], Threw(EmptyButSized)))
            && (m.maxSize > 0 && l != [] && l[0].sequence != m.sequence ==>
                  i == Initialized(State(l, m), [], Threw(SequenceMismatch)))
            && (m.maxSize > 0 && l != [] && l[0].sequence == m.sequence && l[0].size > m.cacheSize ==>
                  i == Initialized(State(l, m), [], Threw(CacheSizeMismatch)))
  {
    if l != [] { assert GoodRow(l[0]); }
  }

  /** A table whose meta row tells its total and its newest sequence number is taken over even
      if it exceeds the limit: exactly the longest prefix within the limit stays, and the rest
      is reported oldest first. */
  lemma InitEvicts(l: seq<Row>, m: Meta, n: nat)
    requires Sorted(l) && GoodRows(l) && m.cacheSize == Total(l) < TWO64 && 1 <= m.maxSize < TWO63
    requires (l != [] ==> l[0].sequence == m.sequence) && n <= |l|
    ensures var i := Initial(l, m);
            && i.outcome == Returned(true) && Inv(i.state)
            && l == i.state.list + Reversed(i.victims)
            && (n <= |i.state.list| <==> n == 0 || Total(l[..n]) <= m.maxSize)
            && (forall j, k :: 0 <= j < k < |i.victims| ==> i.victims[j].sequence < i.victims[k].sequence)
            && i.state.meta == m.(cacheSize := Total(i.state.list))
  {
    var kept := Keep(l, m.maxSize);
    if l != [] {
      assert GoodRow(l[0]);
      TotalPrefix(l, 1);
      assert Total(l[..1]) == l[0].size;
    }
    InitialKeeps(l, m);
    hide Initial, Keep, Total, Reversed;
    KeptGood(l, m.maxSize);
    KeptTotal(l, m.maxSize);
    SurvivesIffFits(l, m.maxSize, n);
    SplitKept(l, m.maxSize);
    DroppedAreOldest(l, |kept|);
    EmptyTotal();
  }

  lemma ReversedEmpty()
    ensures Reversed([]) == []
  {
  }

  lemma InitialKeeps(l: seq<Row>, m: Meta)
    requires GoodRows(l) && m.cacheSize == Total(l) < TWO64 && 1 <= m.maxSize
    requires l != [] ==> l[0].key != "" && l[0].sequence == m.sequence && l[0].size <= m.cacheSize
    ensures var kept := Keep(l, m.maxSize);
            Initial(l, m)
            == Initialized(State(kept, m.(cacheSize := Total(kept))), Reversed(l[|kept|..]), Returned(true))
  {
    EmptyTotal();
    hide Keep, Total, Reversed, Drain, GoodRow;
    if m.cacheSize > m.maxSize {
      DrainKeeps(l, 0, m.maxSize);
    } else {
      FitsWhole(l, m.maxSize);
      assert l[|l|..] == [];
      assert Reversed([]) == [] by { ReversedEmpty(); }
    }
  }

  /** After a `backup`, a fresh `init` passes every check, evicts nothing and finds the state
      as it was. */
  lemma BackupThenInit(s: State)
    requires Inv(s)
    ensures Initial(s.list, s.meta) == Initialized(s, [], Returned(true))
  {
    if s.list != [] {
      assert GoodRow(s.list[0]);
      TotalPrefix(s.list, 1);
      assert Total(s.list[..1]) == s.list[0].size;
    }
  }

  /** The meta row left by the last `backup` is accepted after `ops` exactly when the table
      became empty over an empty backup, or nothing was touched since and the newest row is
      no larger than the stored total. */
  lemma {:induction false} StaleMetaAcceptedIff(s: State, ops: seq<Op>)
    requires Inv(s) && AllRepresentable(ops)
    ensures var l := Run(s, ops).list;
            Initial(l, s.meta).outcome.Returned?
            <==> (if l == [] then s.meta.cacheSize == 0
                  else Touched(s, ops) == [] && l[0].size <= s.meta.cacheSize)
  {
    RunInv(s, ops);
    SequenceCounts(s, ops);
    var l := Run(s, ops).list;
    if l != [] { assert GoodRow(l[0]); }
  }

  /** Any touch since the last `backup` is noticed while a row remains. */
  lemma {:induction false} StaleTouchNoticed(s: State, ops: seq<Op>)
    requires Inv(s) && AllRepresentable(ops)
    requires Touched(s, ops) != [] && Run(s, ops).list != []
    ensures Initial(Run(s, ops).list, s.meta).outcome == Threw(SequenceMismatch)
  {
    RunInv(s, ops);
    SequenceCounts(s, ops);
    assert GoodRow(Run(s, ops).list[0]);
  }

  lemma {:induction false} SequenceCounts(s: State, ops: seq<Op>)
    ensures Run(s, ops).meta.sequence == s.meta.sequence + |Touched(s, ops)|
  {
    if ops != [] {
      SequenceCounts(s, ops[..|ops| - 1]);
    }
  }

  /** A size change since the last `backup` is not a touch: here `init` accepts a stored
      total of 20 for a table that holds 15. */
  lemma StaleSizeNotNoticed()
    ensures var s := State([Row("b", 10, 2), Row("a", 10, 1)], Meta(20, 100, 2));
            var t := Run(s, [Update("a", 5)]);
            && Inv(s) && Total(t.list) == 15
            && Initial(t.list, s.meta) == Initialized(State(t.list, s.meta), [], Returned(true))
            && !Inv(Initial(t.list, s.meta).state)
  {
    var s := State([Row("b", 10, 2), Row("a", 10, 1)], Meta(20, 100, 2));
    var op := Update("a", 5);
    assert s.list[..1] == [Row("b", 10, 2)];
    assert Total(s.list) == 20;
    PositionAt(s.list, 1);
    NextUpdateHit(s, "a", 5);
    FitsWhole(s.list, 100);
    TotalSetSize(s.list, "a", 5);
    assert [op][..0] == [];
    assert Run(s, [op]) == Next(s, op);
    assert SetSize(s.list, "a", 5) == [Row("b", 10, 2), Row("a", 5, 1)];
  }
}
