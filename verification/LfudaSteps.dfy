/** What each call of the LFU-DA engine does to the table, told by rows, bytes and numbers alone:
    the counters it writes, the rows it may take and the rows it leaves as they are. */
module LfudaSteps {
  import opened MachineWords
  import opened CacheEngine
  import opened LfudaRows
  import opened LfudaProperties

  // ---------- eviction ----------

  function BytesOf(victims: seq<Row>): nat {
    if victims == [] then 0 else BytesOf(victims[..|victims| - 1]) + victims[|victims| - 1].size
  }

  /** When victim `k` went, what was left and the bytes needed still exceeded the limit. */
  predicate Needed(s: State, need: nat, victims: seq<Row>, k: int) {
    0 <= k < |victims| ==>
      && BytesOf(victims[..k]) <= s.meta.cacheSize
      && s.meta.cacheSize - BytesOf(victims[..k]) + need > s.meta.maxSize
  }

  predicate TakenFrom(s: State, victims: seq<Row>, left: State, k: int) {
    0 <= k < |victims| ==>
      victims[k].key in s.rows && s.rows[victims[k].key] == victims[k] && victims[k].key !in left.rows
  }

  predicate StaysOrGoes(s: State, victims: seq<Row>, left: State, key: string) {
    && (key in left.rows ==> key in s.rows && left.rows[key] == s.rows[key])
    && (key in s.rows && key !in left.rows ==> s.rows[key] in victims)
  }

  /** `victims` leave and nothing else changes but the two figures that tell of them; each of
      them had to go. */
  ghost predicate Evicts(s: State, need: nat, victims: seq<Row>, left: State) {
    && (forall k :: Needed(s, need, victims, k))
    && (forall k :: TakenFrom(s, victims, left, k))
    && (forall key :: StaysOrGoes(s, victims, left, key))
    && BytesOf(victims) <= s.meta.cacheSize
    && left.meta == Meta(s.meta.cacheSize - BytesOf(victims), s.meta.maxSize,
                         if victims == [] then s.meta.aging else victims[|victims| - 1].eff)
  }

  lemma {:induction false} EvictionTold(s: State, need: nat, victims: seq<Row>)
    requires Loose(s) && EvictionRun(s, need, victims)
    ensures Evicts(s, need, victims, After(s, victims))
  {
    if victims != [] {
      var n := |victims| - 1;
      var before, v, mid, left := victims[..n], victims[n], After(s, victims[..n]), After(s, victims);
      RunKeeps(s, need, before);
      EvictionTold(s, need, before);
      assert RowOk(mid.rows, mid.meta.aging, v.key);
      OneMoreTold(s, need, before, v, mid);
      assert victims == before + [v];
    }
  }

  lemma OneMoreTold(s: State, need: nat, before: seq<Row>, v: Row, mid: State)
    requires Loose(mid) && Over(mid, need) && v.key in mid.rows && mid.rows[v.key] == v
    requires Evicts(s, need, before, mid)
    ensures Evicts(s, need, before + [v], EvictOne(mid, v))
  {
    var victims, left := before + [v], EvictOne(mid, v);
    OverExactly(mid, need);
    WithinBudget(mid, v.key);
    hide Over, Loose;
    assert victims[..|before|] == before;
    assert StaysOrGoes(s, before, mid, v.key);
    forall k
      ensures Needed(s, need, victims, k) && TakenFrom(s, victims, left, k)
    {
      assert Needed(s, need, before, k) && TakenFrom(s, before, mid, k);
      if 0 <= k < |before| { assert victims[..k] == before[..k]; }
    }
    forall key
      ensures StaysOrGoes(s, victims, left, key)
    {
      assert StaysOrGoes(s, before, mid, key);
    }
  }

  // ---------- the calls ----------

  function Later(a: uint64, b: uint64): (t: uint64)
    ensures t >= a && t >= b && (t == a || t == b)
  {
    if a < b then b else a
  }

  /** `renew` of a key that is there writes that row and nothing else. */
  lemma RenewTold(s: State, key: string, timestamp: uint64, victims: seq<Row>)
    requires Inv(s) && Headroom(s) && key in s.rows && Legal(s, Renew(key, timestamp), victims)
    ensures var op, r := Renew(key, timestamp), s.rows[key];
            && Result(s, op) == Returned(true) && victims == []
            && Next(s, op, victims)
               == State(s.rows[key := Row(key, r.size, Later(r.timestamp, timestamp), r.freq + 1,
                                          r.freq + 1 + s.meta.aging)], s.meta)
  {
    assert RowOk(s.rows, s.meta.aging, key);
    RenewMovesUp(s, key, timestamp, victims);
  }

  /** `put` of a new key: what was needed for it leaves, and the row comes in with one access,
      at the aging level that the last victim leaves behind. */
  lemma PutNewTold(s: State, key: string, size: nat, timestamp: uint64, victims: seq<Row>)
    requires Inv(s) && Headroom(s) && key != "" && key !in s.rows && 1 <= size <= s.meta.maxSize
    requires Legal(s, Put(key, size, timestamp), victims)
    ensures var op := Put(key, size, timestamp);
            var left, t := After(s, victims), Next(s, op, victims);
            && Result(s, op) == Returned(true) && Evicts(s, size, victims, left)
            && t.rows == left.rows[key := Row(key, size, timestamp, 1, left.meta.aging + 1)]
            && t.meta == left.meta.(cacheSize := left.meta.cacheSize + size)
            && t.meta.cacheSize <= s.meta.maxSize
  {
    hide Loose, Sum, Over, EvictionRun, Evicts, After, Worst, Budget;
    EvictionTold(s, size, victims);
    InvKept(s, Put(key, size, timestamp), victims);
  }

  /** `put` of a key that is there: an access, and then growth if the size is larger, for which
      what is needed leaves, perhaps the row itself. */
  lemma PutAgainTold(s: State, key: string, size: nat, timestamp: uint64, victims: seq<Row>)
    requires Inv(s) && Headroom(s) && key in s.rows && 1 <= size <= s.meta.maxSize
    requires Legal(s, Put(key, size, timestamp), victims)
    ensures var op, r := Put(key, size, timestamp), s.rows[key];
            var renewed := State(s.rows[key := Row(key, r.size, Later(r.timestamp, timestamp), r.freq + 1,
                                                   r.freq + 1 + s.meta.aging)], s.meta);
            var left, t := After(renewed, victims), Next(s, op, victims);
            && Result(s, op) == Returned(false)
            && Evicts(renewed, if size > r.size then size - r.size else 0, victims, left)
            && Grown(left, key, size, t) && t.meta.cacheSize <= s.meta.maxSize
            && (size <= r.size ==> victims == [] && t == renewed)
  {
    hide Loose, Sum, Over, EvictionRun, Evicts, Grown, After, Worst, Budget;
    var op, r := Put(key, size, timestamp), s.rows[key];
    RowKey(s, key);
    BaseKeeps(s, op);
    InvKept(s, op, victims);
    EvictionTold(Base(s, op), Required(s, op), victims);
    RewriteTold(s, op, victims);
    if size <= r.size {
      NothingToEvictFor(Base(s, op), victims);
      SameOrGrown(s, op);
    }
  }

  lemma RowKey(s: State, key: string)
    requires Loose(s) && key in s.rows
    ensures s.rows[key].key == key && key != ""
  {
    assert RowOk(s.rows, s.meta.aging, key);
  }

  lemma SameOrGrown(s: State, op: Op)
    requires op.Put? && op.key in s.rows && op.size <= s.rows[op.key].size && Result(s, op).Returned?
    ensures Next(s, op, []) == Base(s, op)
  {
  }

  /** A row that is still there takes on a larger size; nothing else changes. */
  predicate Grown(left: State, key: string, size: nat, t: State) {
    if key in left.rows && size > left.rows[key].size then
      && t.rows == left.rows[key := left.rows[key].(size := size)]
      && t.meta == left.meta.(cacheSize := left.meta.cacheSize + (size - left.rows[key].size))
    else t == left
  }

  lemma RewriteTold(s: State, op: Op, victims: seq<Row>)
    requires Inv(s) && CanCount(s, op) && Legal(s, op, victims) && Result(s, op).Returned?
    requires (op.Put? || op.Update?) && op.key in s.rows && (op.Put? || op.size > s.rows[op.key].size)
    ensures Grown(After(Base(s, op), victims), op.key, op.size, Next(s, op, victims))
  {
    var base, left := Base(s, op), After(Base(s, op), victims);
    BaseKeeps(s, op);
    RunKeeps(base, Required(s, op), victims);
    AfterRows(base, victims, op.key);
    if op.key in left.rows { WithinBudget(left, op.key); }
  }

  lemma NothingToEvictFor(s: State, victims: seq<Row>)
    requires Inv(s) && EvictionRun(s, 0, victims)
    ensures victims == []
  {
    OverExactly(s, 0);
    if victims != [] { RunStartsOver(s, 0, victims); }
  }

  /** `update` of a key that is there touches no counter: a smaller size is written at once, a
      larger one after what is needed for it has left, if the row has not. */
  lemma UpdateTold(s: State, key: string, size: nat, victims: seq<Row>)
    requires Inv(s) && key in s.rows && 1 <= size <= s.meta.maxSize && Legal(s, Update(key, size), victims)
    ensures var op, r := Update(key, size), s.rows[key];
            var left, t := After(s, victims), Next(s, op, victims);
            && Result(s, op) == Returned(true)
            && (size > r.size ==> Evicts(s, size - r.size, victims, left) && Grown(left, key, size, t))
            && (size <= r.size ==>
                  && victims == [] && t.rows == s.rows[key := r.(size := size)]
                  && r.size <= s.meta.cacheSize
                  && t.meta == s.meta.(cacheSize := s.meta.cacheSize - (r.size - size)))
            && t.meta.cacheSize <= s.meta.maxSize
  {
    var op := Update(key, size);
    assert RowOk(s.rows, s.meta.aging, key);
    InvKept(s, op, victims);
    WithinBudget(s, key);
    EvictionTold(s, Required(s, op), victims);
    if size > s.rows[key].size { RewriteTold(s, op, victims); } else { NothingToEvictFor(s, victims); }
  }

  /** `resize`: what exceeds the new limit leaves, and nothing if nothing does. */
  lemma ResizeTold(s: State, size: nat, victims: seq<Row>)
    requires Inv(s) && 1 <= size < TWO63 && Legal(s, Resize(size), victims)
    ensures var op, t := Resize(size), Next(s, Resize(size), victims);
            && Result(s, op) == Returned(true) && t.meta.maxSize == size && t.meta.cacheSize <= size
            && Evicts(State(s.rows, s.meta.(maxSize := size)), 0, victims, t)
            && (s.meta.cacheSize <= size ==> victims == [] && t == State(s.rows, s.meta.(maxSize := size)))
  {
    var op := Resize(size);
    BaseKeeps(s, op);
    InvKept(s, op, victims);
    EvictionTold(Base(s, op), 0, victims);
    if s.meta.cacheSize <= size { NothingToEvictFor(Base(s, op), victims); }
  }

  /** `renew` and `update` of a key that is not there return false and change nothing. */
  lemma AbsentTold(s: State, op: Op, victims: seq<Row>)
    requires Inv(s) && (op.Renew? || op.Update?) && op.key != "" && op.key !in s.rows && Legal(s, op, victims)
    requires op.Update? ==> 1 <= op.size <= s.meta.maxSize
    ensures Result(s, op) == Returned(false) && victims == [] && Next(s, op, victims) == s
  {
    NothingToEvictFor(s, victims);
  }

  /** What the calls refuse, in this order: a null key, then a size that is zero or larger than
      the limit; `resize` refuses the limit zero.  A refused call changes nothing. */
  lemma Refusals(s: State, op: Op, victims: seq<Row>)
    requires Legal(s, op, victims)
    ensures Result(s, op) == Threw(NullKey) <==> !op.Resize? && op.key == ""
    ensures Result(s, op) == Threw(BadSize)
            <==> (op.Put? || op.Update?) && op.key != "" && (op.size == 0 || op.size > s.meta.maxSize)
    ensures Result(s, op) == Threw(ZeroMaxSize) <==> op.Resize? && op.size == 0
    ensures Result(s, op).Threw? ==> Result(s, op).error in {NullKey, BadSize, ZeroMaxSize}
    ensures Result(s, op).Threw? ==> victims == [] && Next(s, op, victims) == s
  {
  }

  // ---------- the order ----------

  /** A timestamp as its signed column stores it: one of 2^63 or more turns negative. */
  function Stored(timestamp: uint64): int {
    if timestamp >= 0x8000_0000_0000_0000 then timestamp - 0x1_0000_0000_0000_0000 else timestamp
  }

  /** Lexicographic order of eff, freq, timestamp and size as plain numbers. */
  predicate LexLess(a: Row, b: Row) {
    || a.eff < b.eff
    || (a.eff == b.eff && a.freq < b.freq)
    || (a.eff == b.eff && a.freq == b.freq && Stored(a.timestamp) < Stored(b.timestamp))
    || (a.eff == b.eff && a.freq == b.freq && a.timestamp == b.timestamp && a.size < b.size)
  }

  /** On a consistent table the DELETE may choose exactly the rows that are least in this order. */
  lemma WorstIff(s: State, v: Row)
    requires Loose(s)
    ensures Worst(s.rows, v)
            <==> v.key in s.rows && s.rows[v.key] == v && forall k :: k in s.rows ==> !LexLess(s.rows[k], v)
  {
    if v.key in s.rows && s.rows[v.key] == v {
      forall k | k in s.rows
        ensures Below(s.rows[k], v) <==> LexLess(s.rows[k], v)
      {
        WithinBudget(s, k);
        WithinBudget(s, v.key);
      }
      if Worst(s.rows, v) {
        forall k | k in s.rows
          ensures !LexLess(s.rows[k], v)
        {
          assert NotBelow(s.rows, k, v);
        }
      }
    }
  }
}
