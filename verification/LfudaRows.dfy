/** The LFU-DA engine as a table with an aging level (src/algo/algo_lfuda_sqlite.cpp).

    Eviction deletes a worst row in the order of SQL_DELETE_WORST_LFUDA.  The statement does
    not resolve ties, so a call is a relation: whatever worst rows it happens to delete are
    an argument of the step. */
module LfudaRows {
  import opened MachineWords
  import opened CacheEngine

  datatype Row = Row(key: string, size: nat, timestamp: uint64, freq: nat, eff: nat)

  datatype Meta = Meta(cacheSize: nat, maxSize: nat, aging: nat)

  type Rows = map<string, Row>

  datatype State = State(rows: Rows, meta: Meta)

  datatype Op =
    | Put(key: string, size: nat, timestamp: uint64)
    | Renew(key: string, timestamp: uint64)
    | Update(key: string, size: nat)
    | Resize(size: nat)

  // ---------- the order of eviction ----------

  /** An unsigned 64-bit value as the signed column that stores it compares. */
  function Column(v: nat): int {
    if v < TWO63 then v else v - TWO64
  }

  /** ORDER BY eff, freq, timestamp, size. */
  predicate Below(a: Row, b: Row) {
    if a.eff != b.eff then Column(a.eff) < Column(b.eff)
    else if a.freq != b.freq then Column(a.freq) < Column(b.freq)
    else if a.timestamp != b.timestamp then Column(a.timestamp) < Column(b.timestamp)
    else Column(a.size) < Column(b.size)
  }

  predicate NotBelow(rows: Rows, k: string, r: Row) {
    k in rows ==> !Below(rows[k], r)
  }

  /** A row that the DELETE may choose. */
  ghost predicate Worst(rows: Rows, r: Row) {
    r.key in rows && rows[r.key] == r && forall k :: NotBelow(rows, k, r)
  }

  // ---------- sums over the table ----------

  datatype Measure = Bytes | Accesses | AtLevel(level: nat)

  function Weigh(m: Measure, r: Row): nat {
    match m
    case Bytes => r.size
    case Accesses => r.freq
    case AtLevel(level) => if r.eff == level then 1 else 0
  }

  ghost function Sum(m: Measure, rows: Rows): nat {
    if rows == map[] then 0
    else
      var k :| k in rows;
      Weigh(m, rows[k]) + Sum(m, rows - {k})
  }

  // ---------- the state machine ----------

  predicate RowOk(rows: Rows, aging: nat, k: string) {
    k in rows ==>
      && rows[k].key == k && k != "" && rows[k].size >= 1
      && rows[k].freq >= 1 && aging <= rows[k].eff <= aging + rows[k].freq
  }

  /** The aging level plus all access counts: what every `eff` stays within. */
  ghost function Budget(s: State): nat {
    s.meta.aging + Sum(Accesses, s.rows)
  }

  /** What holds throughout a call; only the byte limit may be exceeded meanwhile. */
  ghost predicate Loose(s: State) {
    && (forall k :: RowOk(s.rows, s.meta.aging, k))
    && s.meta.cacheSize == Sum(Bytes, s.rows) < TWO63
    && 1 <= s.meta.maxSize < TWO63
    && Budget(s) < TWO63
  }

  ghost predicate Inv(s: State) {
    Loose(s) && s.meta.cacheSize <= s.meta.maxSize
  }

  predicate Over(s: State, required: nat) {
    Add64(s.meta.cacheSize, required) > s.meta.maxSize
  }

  /** One turn of the eviction loop. */
  function EvictOne(s: State, v: Row): State {
    State(s.rows - {v.key},
          s.meta.(cacheSize := if s.meta.cacheSize >= v.size then s.meta.cacheSize - v.size else 0,
                  aging := v.eff))
  }

  function After(s: State, victims: seq<Row>): State {
    if victims == [] then s else EvictOne(After(s, victims[..|victims| - 1]), victims[|victims| - 1])
  }

  /** Every victim was deleted while the limit was exceeded, and was a worst row then. */
  ghost predicate EvictionRun(s: State, required: nat, victims: seq<Row>) {
    victims != [] ==>
      var before, v := victims[..|victims| - 1], victims[|victims| - 1];
      && EvictionRun(s, required, before)
      && Over(After(s, before), required)
      && Worst(After(s, before).rows, v)
  }

  ghost predicate Drains(s: State, required: nat, victims: seq<Row>) {
    EvictionRun(s, required, victims) && !Over(After(s, victims), required)
  }

  function Max(a: uint64, b: uint64): uint64 {
    if a > b then a else b
  }

  /** `renew`: one more access, never an earlier timestamp, and a fresh `eff`. */
  function Touch(s: State, key: string, timestamp: uint64): State
    requires key in s.rows
  {
    var r := s.rows[key];
    s.(rows := s.rows[key := r.(timestamp := Max(r.timestamp, timestamp), freq := r.freq + 1,
                                eff := r.freq + 1 + s.meta.aging)])
  }

  function Insert(s: State, key: string, size: nat, timestamp: uint64): State {
    State(s.rows[key := Row(key, size, timestamp, 1, s.meta.aging + 1)],
          s.meta.(cacheSize := s.meta.cacheSize + size))
  }

  /** Rewrites the size if the row is still there. */
  function Rewrite(s: State, key: string, size: nat): State {
    if key !in s.rows then s
    else
      var others := if s.meta.cacheSize >= s.rows[key].size then s.meta.cacheSize - s.rows[key].size else 0;
      State(s.rows[key := s.rows[key].(size := size)], s.meta.(cacheSize := others + size))
  }

  /** What a call returns or throws; none of the database errors is among it. */
  function Result(s: State, op: Op): Outcome {
    match op
    case Put(key, size, _) =>
      if key == "" then Threw(NullKey)
      else if size == 0 || size > s.meta.maxSize then Threw(BadSize)
      else Returned(key !in s.rows)
    case Renew(key, _) => if key == "" then Threw(NullKey) else Returned(key in s.rows)
    case Update(key, size) =>
      if key == "" then Threw(NullKey)
      else if size == 0 || size > s.meta.maxSize then Threw(BadSize)
      else Returned(key in s.rows)
    case Resize(size) => if size == 0 then Threw(ZeroMaxSize) else Returned(true)
  }

  function KeyOf(op: Op): string {
    if op.Resize? then "" else op.key
  }

  predicate Hits(s: State, op: Op) {
    Result(s, op).Returned? && (op.Put? || op.Renew?) && op.key in s.rows
  }

  predicate Inserts(s: State, op: Op) {
    op.Put? && Result(s, op) == Returned(true)
  }

  /** The state the eviction loop starts from. */
  function Base(s: State, op: Op): State {
    if Hits(s, op) then Touch(s, op.key, op.timestamp)
    else if op.Resize? && op.size != 0 then s.(meta := s.meta.(maxSize := op.size))
    else s
  }

  /** How many bytes the call needs on top of what is there. */
  function Required(s: State, op: Op): nat {
    if (op.Put? || op.Update?) && op.key in s.rows then
      if op.size > s.rows[op.key].size then op.size - s.rows[op.key].size else 0
    else if op.Put? then op.size
    else 0
  }

  /** `victims` are rows that this call may evict. */
  ghost predicate Legal(s: State, op: Op, victims: seq<Row>) {
    if Result(s, op).Threw? then victims == [] else Drains(Base(s, op), Required(s, op), victims)
  }

  /** What the call does once eviction has left `left`. */
  function Finish(s: State, op: Op, left: State): State {
    match op
    case Put(key, size, timestamp) =>
      if key !in s.rows then Insert(left, key, size, timestamp)
      else if size > s.rows[key].size then Rewrite(left, key, size)
      else left
    case Renew(_, _) => left
    case Update(key, size) => if key in s.rows then Rewrite(left, key, size) else left
    case Resize(_) => left
  }

  function Next(s: State, op: Op, victims: seq<Row>): State {
    if Result(s, op).Threw? then s else Finish(s, op, After(Base(s, op), victims))
  }

  /** Sizes come through a signed 64-bit column, */
  predicate Representable(op: Op) {
    op.Resize? ==> op.size < TWO63
  }

  /** and so do the counters, which one more access must not exhaust. */
  ghost predicate Headroom(s: State) {
    Budget(s) + 1 < TWO63
  }

  ghost predicate CanCount(s: State, op: Op) {
    Hits(s, op) || Inserts(s, op) ==> Headroom(s)
  }

  // ---------- facts about sums ----------

  /** A sum that wraps around looks smaller than it is, but none does on a consistent table. */
  lemma OverExactly(s: State, required: nat)
    ensures Over(s, required) ==> s.meta.cacheSize + required > s.meta.maxSize
    ensures s.meta.cacheSize + required < TWO64 ==>
              (Over(s, required) <==> s.meta.cacheSize + required > s.meta.maxSize)
  {
    Add64Exact(s.meta.cacheSize, required);
  }

  lemma {:induction false} SumWithout(m: Measure, rows: Rows, k: string)
    requires k in rows
    ensures Sum(m, rows) == Weigh(m, rows[k]) + Sum(m, rows - {k})
    decreases |rows|
  {
    var j :| j in rows && Sum(m, rows) == Weigh(m, rows[j]) + Sum(m, rows - {j});
    if j != k {
      SumSmaller(rows, j);
      SumSmaller(rows, k);
      SumWithout(m, rows - {j}, k);
      SumWithout(m, rows - {k}, j);
      assert rows - {j} - {k} == rows - {k} - {j};
    }
  }

  lemma SumSmaller(rows: Rows, k: string)
    requires k in rows
    ensures |rows - {k}| < |rows|
  {
    assert (rows - {k}).Keys == rows.Keys - {k};
  }

  lemma SumMember(m: Measure, rows: Rows, k: string)
    requires k in rows
    ensures Weigh(m, rows[k]) <= Sum(m, rows)
  {
    SumWithout(m, rows, k);
  }

  lemma SumWrite(m: Measure, rows: Rows, k: string, r: Row)
    ensures Sum(m, rows[k := r])
            == Sum(m, rows) + Weigh(m, r) - if k in rows then Weigh(m, rows[k]) else 0
  {
    SumWithout(m, rows[k := r], k);
    assert rows[k := r] - {k} == rows - {k};
    if k in rows { SumWithout(m, rows, k); } else { assert rows - {k} == rows; }
  }

  /** A part of a table weighs no more than the table. */
  lemma {:induction false} SumPart(m: Measure, part: Rows, rows: Rows)
    requires forall k :: k in part ==> k in rows && rows[k] == part[k]
    ensures Sum(m, part) <= Sum(m, rows)
    decreases |part|
  {
    if part != map[] {
      var k :| k in part;
      SumSmaller(part, k);
      SumWithout(m, part, k);
      SumWithout(m, rows, k);
      SumPart(m, part - {k}, rows - {k});
    }
  }

  /** There are no more rows at one level than bytes in the table. */
  lemma {:induction false} LevelWithinBytes(level: nat, rows: Rows, aging: nat)
    requires forall k :: RowOk(rows, aging, k)
    ensures Sum(AtLevel(level), rows) <= Sum(Bytes, rows)
    decreases |rows|
  {
    if rows != map[] {
      var k :| k in rows;
      assert RowOk(rows, aging, k);
      SumSmaller(rows, k);
      SumWithout(AtLevel(level), rows, k);
      SumWithout(Bytes, rows, k);
      forall j
        ensures RowOk(rows - {k}, aging, j)
      {
        assert RowOk(rows, aging, j);
      }
      LevelWithinBytes(level, rows - {k}, aging);
    }
  }
}
