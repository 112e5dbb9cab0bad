/** Growing an entry of the LFU-DA engine: when the evictions that make room for it can take,
    or have to take, the entry itself.  Rows that tie in the eviction order leave the choice to
    the database, so the two differ. */
module LfudaGrowth {
  import opened MachineWords
  import opened CacheEngine
  import opened LfudaRows
  import opened LfudaProperties

  /** The rows that are not below `r`: they can outlive it. */
  function NotBelowRows(rows: Rows, r: Row): Rows {
    map k | k in rows && !Below(rows[k], r) :: rows[k]
  }

  /** The row of `key` and those above it: they do outlive it. */
  function AboveRows(rows: Rows, key: string): Rows
    requires key in rows
  {
    map k | k in rows && (k == key || Below(rows[key], rows[k])) :: rows[k]
  }

  // ---------- the order ----------

  /** Counters and sizes that fit their columns. */
  predicate Stored(r: Row) {
    r.eff < TWO64 && r.freq < TWO64 && r.size < TWO64
  }

  lemma StoredRow(s: State, k: string)
    requires Loose(s) && k in s.rows
    ensures Stored(s.rows[k])
  {
    WithinBudget(s, k);
  }

  /** The eviction order is a strict weak one: what ties with a row ties on both sides. */
  lemma BelowIsWeakOrder(a: Row, b: Row, c: Row)
    requires Stored(a) && Stored(b) && Stored(c)
    ensures !Below(a, a)
    ensures Below(a, b) ==> !Below(b, a)
    ensures Below(a, b) && Below(b, c) ==> Below(a, c)
    ensures Below(a, c) ==> Below(a, b) || Below(b, c)
  {
  }

  // ---------- choosing the victims ----------

  /** A run can always be continued until the rest fits. */
  lemma {:induction false} RunOn(s: State, required: nat, victims: seq<Row>) returns (all: seq<Row>)
    requires Loose(s) && required <= s.meta.maxSize && EvictionRun(s, required, victims)
    ensures Drains(s, required, all)
    ensures forall k :: k in After(s, all).rows ==> k in After(s, victims).rows
    decreases |After(s, victims).rows|
  {
    hide Over;
    var t := After(s, victims);
    RunKeeps(s, required, victims);
    OverExactly(t, required);
    if !Over(t, required) {
      all := victims;
    } else {
      WorstExists(t.rows);
      var key :| IsWorst(t.rows, key);
      assert RowOk(t.rows, t.meta.aging, key);
      WorstRow(t.rows, key);
      RunOneMore(s, required, victims, t.rows[key]);
      SumSmaller(t.rows, key);
      all := RunOn(s, required, victims + [t.rows[key]]);
    }
  }

  /** A run that takes the row of `key` as soon as it is a worst one. */
  lemma {:induction false} LosingRun(s: State, required: nat, victims: seq<Row>, key: string)
    returns (all: seq<Row>)
    requires Loose(s) && required <= s.meta.maxSize && EvictionRun(s, required, victims)
    requires key in After(s, victims).rows
    requires var rows := After(s, victims).rows; Sum(Bytes, NotBelowRows(rows, rows[key])) + required > s.meta.maxSize
    ensures Drains(s, required, all) && key !in After(s, all).rows
    decreases |After(s, victims).rows|
  {
    hide Over, Below, After, EvictionRun, Sum, Worst;
    var t := After(s, victims);
    var r := t.rows[key];
    RunKeeps(s, required, victims);
    assert RowOk(t.rows, t.meta.aging, key);
    OverExactly(t, required);
    SumPart(Bytes, NotBelowRows(t.rows, r), t.rows);
    if Worst(t.rows, r) {
      RunOneMore(s, required, victims, r);
      all := RunOn(s, required, victims + [r]);
    } else {
      var v := WorseThan(t, key);
      RunOneMore(s, required, victims, v);
      SumSmaller(t.rows, v.key);
      assert NotBelowRows(t.rows - {v.key}, r) == NotBelowRows(t.rows, r);
      all := LosingRun(s, required, victims + [v], key);
    }
  }

  /** A row that is not a worst one is above every worst one. */
  lemma WorseThan(t: State, key: string) returns (v: Row)
    requires Loose(t) && key in t.rows && !Worst(t.rows, t.rows[key])
    ensures Worst(t.rows, v) && Below(v, t.rows[key]) && v.key != key
  {
    assert RowOk(t.rows, t.meta.aging, key);
    var x :| !NotBelow(t.rows, x, t.rows[key]);
    WorstExists(t.rows);
    var w :| IsWorst(t.rows, w);
    assert RowOk(t.rows, t.meta.aging, w);
    WorstRow(t.rows, w);
    v := t.rows[w];
    StoredRow(t, x);
    StoredRow(t, w);
    StoredRow(t, key);
    BelowIsWeakOrder(t.rows[x], v, t.rows[key]);
  }

  /** A run that spares the row of `key` as long as there is a choice. */
  lemma {:induction false} SparingRun(s: State, required: nat, victims: seq<Row>, key: string)
    returns (all: seq<Row>)
    requires Loose(s) && required <= s.meta.maxSize && EvictionRun(s, required, victims)
    requires key in After(s, victims).rows
    requires Sum(Bytes, AboveRows(After(s, victims).rows, key)) + required <= s.meta.maxSize
    ensures Drains(s, required, all) && key in After(s, all).rows
    decreases |After(s, victims).rows|
  {
    hide Over, Below, After, EvictionRun, Sum, Worst;
    var t := After(s, victims);
    RunKeeps(s, required, victims);
    OverExactly(t, required);
    if !Over(t, required) {
      all := victims;
    } else {
      var v := OtherWorst(t, key);
      RunOneMore(s, required, victims, v);
      SumSmaller(t.rows, v.key);
      assert AboveRows(t.rows - {v.key}, key) == AboveRows(t.rows, key);
      all := SparingRun(s, required, victims + [v], key);
    }
  }

  /** While not every row is above that of `key`, another worst row can be found. */
  lemma OtherWorst(t: State, key: string) returns (v: Row)
    requires Loose(t) && key in t.rows && AboveRows(t.rows, key) != t.rows
    ensures Worst(t.rows, v) && v.key != key && !Below(t.rows[key], v)
  {
    var rest := t.rows - {key};
    var x :| x in t.rows && x !in AboveRows(t.rows, key);
    assert x in rest;
    WorstExists(rest);
    var w :| IsWorst(rest, w);
    assert RowOk(t.rows, t.meta.aging, w);
    v := rest[w];
    StoredRow(t, x);
    StoredRow(t, w);
    StoredRow(t, key);
    if Below(t.rows[key], v) { BelowIsWeakOrder(t.rows[key], t.rows[x], v); }
    forall k
      ensures NotBelow(t.rows, k, v)
    {
      if k in t.rows && k != key { assert !Below(rest[k], rest[w]); }
    }
  }

  // ---------- what every run does ----------

  /** A row goes only when it and all that is not below it no longer fit. */
  lemma {:induction false} EvictedOnlyIf(s: State, required: nat, victims: seq<Row>, key: string)
    requires Loose(s) && key in s.rows && EvictionRun(s, required, victims)
    requires key !in After(s, victims).rows
    ensures Sum(Bytes, NotBelowRows(s.rows, s.rows[key])) + required > s.meta.maxSize
  {
    hide Over, Below;
    var before, v := victims[..|victims| - 1], victims[|victims| - 1];
    var mid := After(s, before);
    RunKeeps(s, required, before);
    OverExactly(mid, required);
    if key in mid.rows {
      AfterRows(s, before, key);
      forall k | k in mid.rows
        ensures k in s.rows && s.rows[k] == mid.rows[k] && !Below(s.rows[k], s.rows[key])
      {
        AfterRows(s, before, k);
        assert NotBelow(mid.rows, k, v);
      }
      SumPart(Bytes, mid.rows, NotBelowRows(s.rows, s.rows[key]));
    } else {
      EvictedOnlyIf(s, required, before, key);
    }
  }

  /** While the row of `key` is there, no row above it goes. */
  lemma {:induction false} AboveStays(s: State, required: nat, victims: seq<Row>, key: string, k: string)
    requires EvictionRun(s, required, victims) && key in After(s, victims).rows
    requires key in s.rows && k in AboveRows(s.rows, key)
    ensures k in After(s, victims).rows && After(s, victims).rows[k] == s.rows[k]
  {
    AfterRows(s, victims, k);
    if victims != [] {
      var before, v := victims[..|victims| - 1], victims[|victims| - 1];
      AboveStays(s, required, before, key, k);
      AfterRows(s, before, key);
      assert NotBelow(After(s, before).rows, key, v);
    }
  }

  /** So the row survives only if it and all that is above it fit. */
  lemma SurvivesOnlyIf(s: State, required: nat, victims: seq<Row>, key: string)
    requires Loose(s) && key in s.rows && Drains(s, required, victims) && key in After(s, victims).rows
    requires required <= s.meta.maxSize
    ensures Sum(Bytes, AboveRows(s.rows, key)) + required <= s.meta.maxSize
  {
    var t := After(s, victims);
    RunKeeps(s, required, victims);
    OverExactly(t, required);
    forall k | k in AboveRows(s.rows, key)
      ensures k in t.rows && t.rows[k] == AboveRows(s.rows, key)[k]
    {
      AboveStays(s, required, victims, key, k);
    }
    SumPart(Bytes, AboveRows(s.rows, key), t.rows);
  }

  // ---------- one call ----------

  /** `put` or `update` of a key that is there, to a larger size. */
  predicate Grows(s: State, op: Op) {
    && (op.Put? || op.Update?) && Result(s, op).Returned?
    && op.key in s.rows && op.size > s.rows[op.key].size
  }

  ghost predicate Loses(s: State, op: Op, victims: seq<Row>)
    requires Grows(s, op)
  {
    Legal(s, op, victims) && op.key !in Next(s, op, victims).rows
  }

  /** A growing entry is reported if and only if it is gone; if it is not, it has the new size. */
  lemma GrowthOutcome(s: State, op: Op, victims: seq<Row>)
    requires Inv(s) && CanCount(s, op) && Grows(s, op) && Legal(s, op, victims)
    ensures Evicted(victims, op.key) <==> op.key !in Next(s, op, victims).rows
    ensures op.key !in Next(s, op, victims).rows <==> op.key !in After(Base(s, op), victims).rows
    ensures op.key in Next(s, op, victims).rows ==> Next(s, op, victims).rows[op.key].size == op.size
  {
    BaseKeeps(s, op);
    RunPartition(Base(s, op), Required(s, op), victims, op.key);
    CountEvicted(victims, op.key);
  }

  /** Whether a growing entry can evict itself, and whether it must, can be told beforehand.
      It can exactly when it and everything not below it leave too little room for the growth,
      and it must exactly when it and everything above it do; the entry counts as renewed, if
      the call renews it. */
  lemma {:induction false} GrowthLosesTargetIff(s: State, op: Op)
    requires Inv(s) && CanCount(s, op) && Grows(s, op)
    ensures var rows, growth := Base(s, op).rows, op.size - s.rows[op.key].size;
            && op.key in rows
            && ((exists victims :: Loses(s, op, victims))
                <==> Sum(Bytes, NotBelowRows(rows, rows[op.key])) + growth > s.meta.maxSize)
            && ((forall victims :: Legal(s, op, victims) ==> Loses(s, op, victims))
                <==> Sum(Bytes, AboveRows(rows, op.key)) + growth > s.meta.maxSize)
  {
    BaseKeeps(s, op);
    MayLoseIff(s, op);
    MustLoseIff(s, op);
  }

  lemma {:induction false} MayLoseIff(s: State, op: Op)
    requires Inv(s) && CanCount(s, op) && Grows(s, op) && op.key in Base(s, op).rows
    ensures (exists victims :: Loses(s, op, victims))
            <==> Sum(Bytes, NotBelowRows(Base(s, op).rows, Base(s, op).rows[op.key])) + Required(s, op) > s.meta.maxSize
  {
    var base, required := Base(s, op), Required(s, op);
    BaseKeeps(s, op);
    NoVictims(base, required);
    if Sum(Bytes, NotBelowRows(base.rows, base.rows[op.key])) + required > s.meta.maxSize {
      var victims := LosingRun(base, required, [], op.key);
      GrowthOutcome(s, op, victims);
      assert Loses(s, op, victims);
    }
    if victims :| Loses(s, op, victims) {
      GrowthOutcome(s, op, victims);
      EvictedOnlyIf(base, required, victims, op.key);
    }
  }

  lemma {:induction false} MustLoseIff(s: State, op: Op)
    requires Inv(s) && CanCount(s, op) && Grows(s, op) && op.key in Base(s, op).rows
    ensures (forall victims :: Legal(s, op, victims) ==> Loses(s, op, victims))
            <==> Sum(Bytes, AboveRows(Base(s, op).rows, op.key)) + Required(s, op) > s.meta.maxSize
  {
    var base, required := Base(s, op), Required(s, op);
    BaseKeeps(s, op);
    NoVictims(base, required);
    if Sum(Bytes, AboveRows(base.rows, op.key)) + required <= s.meta.maxSize {
      var victims := SparingRun(base, required, [], op.key);
      GrowthOutcome(s, op, victims);
      assert Legal(s, op, victims) && !Loses(s, op, victims);
    } else {
      forall victims | Legal(s, op, victims)
        ensures Loses(s, op, victims)
      {
        GrowthOutcome(s, op, victims);
        if op.key in After(base, victims).rows { SurvivesOnlyIf(base, required, victims, op.key); }
      }
    }
  }

  lemma NoVictims(s: State, required: nat)
    ensures EvictionRun(s, required, []) && After(s, []) == s
  {
  }

  /** No other row ties with that of `key` in the eviction order. */
  predicate Untied(rows: Rows, key: string)
    requires key in rows
  {
    forall k :: k in rows && k != key ==> Below(rows[k], rows[key]) || Below(rows[key], rows[k])
  }

  /** Without a tie the database has no say: the two conditions are one. */
  lemma NoTieNoChoice(rows: Rows, key: string)
    requires key in rows && Untied(rows, key)
    ensures NotBelowRows(rows, rows[key]) == AboveRows(rows, key)
  {
  }

  /** Even a duplicate `put` can evict the entry it has just renewed. */
  lemma DuplicatePutMayLoseTarget()
    ensures var a, b := Row("a", 5, 0, 1, 1), Row("b", 5, 0, 9, 9);
            var s, op := State(map["a" := a, "b" := b], Meta(10, 10, 0)), Put("a", 8, 0);
            var victims := [Row("a", 5, 0, 2, 2)];
            && Inv(s) && Headroom(s) && Legal(s, op, victims) && Result(s, op) == Returned(false)
            && Next(s, op, victims) == State(map["b" := b], Meta(5, 10, 2))
  {
    var a, b := Row("a", 5, 0, 1, 1), Row("b", 5, 0, 9, 9);
    var rows := map["a" := a, "b" := b];
    var s, op := State(rows, Meta(10, 10, 0)), Put("a", 8, 0);
    SumWrite(Bytes, map["a" := a], "b", b);
    SumWrite(Accesses, map["a" := a], "b", b);
    SumWrite(Bytes, map[], "a", a);
    SumWrite(Accesses, map[], "a", a);
    assert map["a" := a]["b" := b] == rows && map[]["a" := a] == map["a" := a];
    var v, base := Row("a", 5, 0, 2, 2), Base(s, op);
    assert base.rows == map["a" := v, "b" := b];
    assert [v][..0] == [] && After(base, []) == base;
    assert Worst(base.rows, v);
    assert base.rows - {"a"} == map["b" := b];
    assert After(base, [v]) == EvictOne(base, v);
    assert EvictionRun(base, 3, []) && EvictionRun(base, 3, [v]);
  }
}
