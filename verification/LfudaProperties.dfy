/** What every call of the LFU-DA engine keeps and promises. */
module LfudaProperties {
  import opened MachineWords
  import opened CacheEngine
  import opened LfudaRows

  // ---------- the pieces of a call ----------

  /** Every `eff` and `freq` is within the budget, so signed columns compare them rightly. */
  lemma WithinBudget(s: State, k: string)
    requires Loose(s) && k in s.rows
    ensures s.rows[k].freq <= Budget(s) && s.rows[k].eff <= Budget(s) && s.rows[k].size <= s.meta.cacheSize
  {
    assert RowOk(s.rows, s.meta.aging, k);
    SumMember(Accesses, s.rows, k);
    SumMember(Bytes, s.rows, k);
  }

  lemma WorstHasLeastEff(s: State, v: Row, k: string)
    requires Loose(s) && Worst(s.rows, v) && k in s.rows
    ensures v.eff <= s.rows[k].eff
  {
    assert NotBelow(s.rows, k, v);
    WithinBudget(s, k);
    WithinBudget(s, v.key);
  }

  /** An eviction keeps the two-sided bound on `eff`, never lowers the aging level, and never
      raises the budget. */
  lemma EvictKeeps(s: State, v: Row)
    requires Loose(s) && Worst(s.rows, v)
    ensures Loose(EvictOne(s, v))
    ensures s.meta.aging <= v.eff
    ensures EvictOne(s, v).meta.cacheSize == s.meta.cacheSize - v.size < s.meta.cacheSize
    ensures Budget(EvictOne(s, v)) <= Budget(s)
    ensures Sum(Accesses, EvictOne(s, v).rows) + v.freq == Sum(Accesses, s.rows)
  {
    var t := EvictOne(s, v);
    assert RowOk(s.rows, s.meta.aging, v.key);
    SumWithout(Bytes, s.rows, v.key);
    SumWithout(Accesses, s.rows, v.key);
    forall k
      ensures RowOk(t.rows, t.meta.aging, k)
    {
      assert RowOk(s.rows, s.meta.aging, k);
      if k in t.rows { WorstHasLeastEff(s, v, k); }
    }
  }

  function TotalFreq(victims: seq<Row>): nat {
    if victims == [] then 0 else TotalFreq(victims[..|victims| - 1]) + victims[|victims| - 1].freq
  }

  /** The same over a whole eviction run; the aging level ends at the last victim's `eff`. */
  lemma {:induction false} RunKeeps(s: State, required: nat, victims: seq<Row>)
    requires Loose(s) && EvictionRun(s, required, victims)
    ensures var t := After(s, victims);
            && Loose(t) && s.meta.aging <= t.meta.aging && Budget(t) <= Budget(s)
            && t.meta.cacheSize <= s.meta.cacheSize && t.meta.maxSize == s.meta.maxSize
            && t.meta.aging == (if victims == [] then s.meta.aging else victims[|victims| - 1].eff)
            && t.meta.aging <= s.meta.aging + TotalFreq(victims)
            && Sum(Accesses, t.rows) + TotalFreq(victims) == Sum(Accesses, s.rows)
  {
    if victims != [] {
      var before, v := victims[..|victims| - 1], victims[|victims| - 1];
      RunKeeps(s, required, before);
      EvictKeeps(After(s, before), v);
      assert RowOk(After(s, before).rows, After(s, before).meta.aging, v.key);
    }
  }

  lemma TouchKeeps(s: State, key: string, timestamp: uint64)
    requires Loose(s) && Headroom(s) && key in s.rows
    ensures Loose(Touch(s, key, timestamp))
    ensures Budget(Touch(s, key, timestamp)) == Budget(s) + 1
    ensures Sum(Accesses, Touch(s, key, timestamp).rows) == Sum(Accesses, s.rows) + 1
  {
    var t := Touch(s, key, timestamp);
    assert RowOk(s.rows, s.meta.aging, key);
    SumWrite(Bytes, s.rows, key, t.rows[key]);
    SumWrite(Accesses, s.rows, key, t.rows[key]);
    forall k
      ensures RowOk(t.rows, t.meta.aging, k)
    {
      assert RowOk(s.rows, s.meta.aging, k);
    }
  }

  lemma InsertKeeps(s: State, key: string, size: nat, timestamp: uint64)
    requires Loose(s) && Headroom(s) && key != "" && key !in s.rows && 1 <= size <= s.meta.maxSize && !Over(s, size)
    ensures Inv(Insert(s, key, size, timestamp))
    ensures Budget(Insert(s, key, size, timestamp)) == Budget(s) + 1
    ensures Sum(Accesses, Insert(s, key, size, timestamp).rows) == Sum(Accesses, s.rows) + 1
  {
    var t := Insert(s, key, size, timestamp);
    OverExactly(s, size);
    SumWrite(Bytes, s.rows, key, t.rows[key]);
    SumWrite(Accesses, s.rows, key, t.rows[key]);
    forall k
      ensures RowOk(t.rows, t.meta.aging, k)
    {
      assert RowOk(s.rows, s.meta.aging, k);
    }
  }

  lemma RewriteKeeps(s: State, key: string, size: nat)
    requires Inv(s) && 1 <= size <= s.meta.maxSize
    requires key in s.rows && size > s.rows[key].size ==> !Over(s, size - s.rows[key].size)
    ensures Inv(Rewrite(s, key, size))
    ensures Budget(Rewrite(s, key, size)) == Budget(s)
    ensures Sum(Accesses, Rewrite(s, key, size).rows) == Sum(Accesses, s.rows)
    ensures Rewrite(s, key, size).meta.aging == s.meta.aging
  {
    if key in s.rows {
      var t := Rewrite(s, key, size);
      OverExactly(s, if size > s.rows[key].size then size - s.rows[key].size else 0);
      assert RowOk(s.rows, s.meta.aging, key);
      WithinBudget(s, key);
      SumWrite(Bytes, s.rows, key, t.rows[key]);
      SumWrite(Accesses, s.rows, key, t.rows[key]);
      forall k
        ensures RowOk(t.rows, t.meta.aging, k)
      {
        assert RowOk(s.rows, s.meta.aging, k);
      }
    }
  }

  // ---------- one call ----------

  function Access(s: State, op: Op): nat {
    if Hits(s, op) || Inserts(s, op) then 1 else 0
  }

  lemma BaseKeeps(s: State, op: Op)
    requires Inv(s) && CanCount(s, op) && Representable(op)
    ensures Loose(Base(s, op)) && Base(s, op).meta.aging == s.meta.aging
    ensures var hit := if Hits(s, op) then 1 else 0;
            && Budget(Base(s, op)) == Budget(s) + hit
            && Sum(Accesses, Base(s, op).rows) == Sum(Accesses, s.rows) + hit
    ensures !op.Resize? ==> Inv(Base(s, op)) && Base(s, op).meta.maxSize == s.meta.maxSize
    ensures Base(s, op).meta.cacheSize == s.meta.cacheSize && Base(s, op).rows.Keys == s.rows.Keys
    ensures forall k :: k in s.rows ==> Base(s, op).rows[k].size == s.rows[k].size
  {
    if Hits(s, op) { TouchKeeps(s, op.key, op.timestamp); }
  }

  lemma {:induction false} AfterRows(s: State, victims: seq<Row>, k: string)
    ensures k in After(s, victims).rows ==> k in s.rows && After(s, victims).rows[k] == s.rows[k]
  {
    if victims != [] { AfterRows(s, victims[..|victims| - 1], k); }
  }

  lemma FinishKeeps(s: State, op: Op, left: State)
    requires Inv(s) && Result(s, op).Returned? && Loose(left) && !Over(left, Required(s, op))
    requires Inserts(s, op) ==> Headroom(left) && op.key !in left.rows
    requires op.Put? || op.Update? ==> op.size <= left.meta.maxSize
    requires (op.Put? || op.Update?) && op.key in left.rows && op.key in s.rows ==>
               left.rows[op.key].size == s.rows[op.key].size
    ensures var t, more := Finish(s, op, left), if Inserts(s, op) then 1 else 0;
            && Inv(t) && t.meta.aging == left.meta.aging
            && Budget(t) == Budget(left) + more && Sum(Accesses, t.rows) == Sum(Accesses, left.rows) + more
  {
    OverExactly(left, Required(s, op));
    hide Over, Sum, Insert, Rewrite;
    match op
    case Put(key, size, timestamp) =>
      if key !in s.rows {
        InsertKeeps(left, key, size, timestamp);
        InsertAging(left, key, size, timestamp);
      } else if size > s.rows[key].size {
        RewriteKeeps(left, key, size);
      }
    case Update(key, size) => if key in s.rows { RewriteKeeps(left, key, size); }
    case _ =>
  }

  lemma InsertAging(s: State, key: string, size: nat, timestamp: uint64)
    ensures Insert(s, key, size, timestamp).meta.aging == s.meta.aging
  {
  }

  /** Byte accounting within the limit and the two-sided bound `aging <= eff <= aging + freq`
      survive every call, whichever worst rows it evicts; the aging level never falls; and the
      access counts of the rows, evicted ones included, grow by exactly the one access made. */
  lemma InvKept(s: State, op: Op, victims: seq<Row>)
    requires Inv(s) && CanCount(s, op) && Representable(op) && Legal(s, op, victims)
    ensures var t := Next(s, op, victims);
            && Inv(t) && s.meta.aging <= t.meta.aging
            && Budget(t) <= Budget(s) + Access(s, op)
            && t.meta.aging <= s.meta.aging + TotalFreq(victims)
            && Sum(Accesses, t.rows) + TotalFreq(victims) == Sum(Accesses, s.rows) + Access(s, op)
  {
    if Result(s, op).Returned? {
      hide Over, Sum, Finish, EvictionRun, After, Base, Loose;
      BaseKeeps(s, op);
      RunKeeps(Base(s, op), Required(s, op), victims);
      AfterRows(Base(s, op), victims, KeyOf(op));
      FinishKeeps(s, op, After(Base(s, op), victims));
    } else {
      assert victims == [];
    }
  }

  // ---------- which rows go ----------

  lemma {:induction false} RunStartsOver(s: State, required: nat, victims: seq<Row>)
    requires EvictionRun(s, required, victims) && victims != []
    ensures Over(s, required)
  {
    if |victims| > 1 { RunStartsOver(s, required, victims[..|victims| - 1]); }
  }

  /** A hit moves its row strictly up in eviction order, by at least one in `eff`. */
  lemma RenewMovesUp(s: State, key: string, timestamp: uint64, victims: seq<Row>)
    requires Inv(s) && Headroom(s) && key != "" && key in s.rows
    requires Legal(s, Renew(key, timestamp), victims)
    ensures victims == []
    ensures var t := Next(s, Renew(key, timestamp), victims);
            && key in t.rows && t.rows[key].eff >= s.rows[key].eff + 1
            && t.rows[key].freq == s.rows[key].freq + 1
            && t.rows[key].timestamp >= s.rows[key].timestamp
            && Below(s.rows[key], t.rows[key])
  {
    BaseKeeps(s, Renew(key, timestamp));
    if victims != [] { RunStartsOver(Base(s, Renew(key, timestamp)), 0, victims); }
    var t := Touch(s, key, timestamp);
    assert RowOk(s.rows, s.meta.aging, key);
    WithinBudget(t, key);
    WithinBudget(s, key);
  }

  /** Eviction goes worst first, every victim is no better than any survivor, and the last
      victim was needed: before it went, the limit was exceeded. */
  lemma {:induction false} WorstFirst(s: State, required: nat, victims: seq<Row>)
    requires EvictionRun(s, required, victims)
    ensures forall i, j :: 0 <= i < j < |victims| ==> !Below(victims[j], victims[i])
    ensures forall i, k :: 0 <= i < |victims| && k in After(s, victims).rows
                           ==> !Below(After(s, victims).rows[k], victims[i])
    ensures victims != [] ==> Over(After(s, victims[..|victims| - 1]), required)
  {
    if victims != [] {
      var before, v := victims[..|victims| - 1], victims[|victims| - 1];
      var mid, t := After(s, before), After(s, victims);
      WorstFirst(s, required, before);
      forall i, j | 0 <= i < j < |victims|
        ensures !Below(victims[j], victims[i])
      {
        if j < |before| { assert victims[j] == before[j]; } else { assert victims[j] == mid.rows[v.key]; }
        assert victims[i] == before[i];
      }
      forall i, k | 0 <= i < |victims| && k in t.rows
        ensures !Below(t.rows[k], victims[i])
      {
        assert k in mid.rows && t.rows[k] == mid.rows[k];
        if i < |before| { assert victims[i] == before[i]; } else { assert NotBelow(mid.rows, k, v); }
      }
    }
  }

  function Count(victims: seq<Row>, key: string): nat {
    if victims == [] then 0
    else Count(victims[..|victims| - 1], key) + if victims[|victims| - 1].key == key then 1 else 0
  }

  function Presence(rows: Rows, key: string): nat {
    if key in rows then 1 else 0
  }

  /** A row is either still there or among the victims, once. */
  lemma {:induction false} RunPartition(s: State, required: nat, victims: seq<Row>, key: string)
    requires EvictionRun(s, required, victims)
    ensures Presence(After(s, victims).rows, key) + Count(victims, key) == Presence(s.rows, key)
  {
    if victims != [] { RunPartition(s, required, victims[..|victims| - 1], key); }
  }

  /** Every residency is accounted for: a call adds at most the row it inserts, and every row
      it takes away it reports. */
  lemma LedgerOfCall(s: State, op: Op, victims: seq<Row>, key: string)
    requires Inv(s) && CanCount(s, op) && Representable(op) && Legal(s, op, victims)
    ensures Presence(Next(s, op, victims).rows, key) + Count(victims, key)
            == Presence(s.rows, key) + if Inserts(s, op) && KeyOf(op) == key then 1 else 0
  {
    if Result(s, op).Returned? {
      BaseKeeps(s, op);
      RunPartition(Base(s, op), Required(s, op), victims, key);
      AfterRows(Base(s, op), victims, key);
    }
  }

  predicate Evicted(victims: seq<Row>, key: string) {
    exists i :: 0 <= i < |victims| && victims[i].key == key
  }

  lemma {:induction false} CountEvicted(victims: seq<Row>, key: string)
    ensures Evicted(victims, key) <==> Count(victims, key) > 0
  {
    if victims != [] {
      var before := victims[..|victims| - 1];
      CountEvicted(before, key);
      if Evicted(victims, key) {
        var i :| 0 <= i < |victims| && victims[i].key == key;
        if i < |before| { assert before[i].key == key; }
      }
      if Evicted(before, key) {
        var i :| 0 <= i < |before| && before[i].key == key;
        assert victims[i].key == key;
      }
      assert victims[|before|].key == key ==> Evicted(victims, key);
    }
  }

  // ---------- runs, one victim at a time ----------

  /** A key that ORDER BY ... LIMIT 1 may come up with. */
  predicate IsWorst(rows: Rows, key: string) {
    key in rows && forall k :: k in rows ==> !Below(rows[k], rows[key])
  }

  lemma {:induction false} WorstExists(rows: Rows)
    requires rows != map[]
    ensures exists key :: IsWorst(rows, key)
    decreases |rows|
  {
    var k :| k in rows;
    var rest := rows - {k};
    assert forall j :: j in rows ==> j == k || j in rest;
    if rest == map[] {
      assert IsWorst(rows, k);
    } else {
      SumSmaller(rows, k);
      WorstExists(rest);
      var m :| IsWorst(rest, m);
      var best := if Below(rows[k], rows[m]) then k else m;
      forall j | j in rows
        ensures !Below(rows[j], rows[best])
      {
        assert j == k || !Below(rest[j], rest[m]);
      }
      assert IsWorst(rows, best);
    }
  }

  lemma WorstRow(rows: Rows, key: string)
    requires IsWorst(rows, key) && rows[key].key == key
    ensures Worst(rows, rows[key])
  {
    forall k
      ensures NotBelow(rows, k, rows[key])
    {
    }
  }

  lemma RunNone(s: State, required: nat, key: string)
    ensures EvictionRun(s, required, []) && After(s, []) == s && !Evicted([], key)
  {
  }

  lemma RunOneMore(s: State, required: nat, victims: seq<Row>, v: Row)
    requires EvictionRun(s, required, victims) && Over(After(s, victims), required)
    ensures After(s, victims + [v]) == EvictOne(After(s, victims), v)
    ensures Worst(After(s, victims).rows, v) ==> EvictionRun(s, required, victims + [v])
  {
    assert (victims + [v])[..|victims|] == victims;
  }
}
