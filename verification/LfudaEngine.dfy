/** The SQLite LFU-DA engine (src/algo/algo_lfuda_sqlite.cpp) over the cacheLFUDA and
    metaLFUDA tables (src/sqlite/sql_statement.h, src/db_adapter/db_sqlite_lfuda.h): every
    method is proved to take the table through one legal step of LfudaRows.dfy. */
module LfudaEngine {
  import opened MachineWords
  import opened CacheEngine
  import opened LfudaRows
  import opened LfudaProperties
  import opened Options
  import opened RemoveCallback

  // ---------- the adapter ----------

  const NO_ROW := Row("", 0, 0, 0, 0)

  /** The columns SQL_QUERY_TFE_LFUDA reads. */
  datatype TimeFreqEff = TimeFreqEff(key: string, timestamp: uint64, freq: nat, eff: nat)

  /** PRIMARY KEY on `key`. */
  predicate Keyed(rows: Rows) {
    forall k :: k in rows ==> rows[k].key == k
  }

  class SqliteLfuda {
    var rows: Rows
    var meta: Meta

    constructor (meta: Meta)
      ensures rows == map[] && this.meta == meta
    {
      rows, this.meta := map[], meta;
    }

    /** Inserting a key twice violates the primary key. */
    method InsertLru(r: Row) returns (e: Executed)
      modifies this`rows
      ensures e == if r.key in old(rows) then Violated else Changed(1)
      ensures rows == if r.key in old(rows) then old(rows) else old(rows)[r.key := r]
    {
      if r.key in rows { return Violated; }
      rows := rows[r.key := r];
      e := Changed(1);
    }

    method UpdateLfudaTfe(key: string, timestamp: uint64, freq: nat, eff: nat) returns (changed: nat)
      modifies this`rows
      ensures changed == if key in old(rows) then 1 else 0
      ensures rows == if key !in old(rows) then old(rows)
                      else old(rows)[key := old(rows)[key].(timestamp := timestamp, freq := freq, eff := eff)]
    {
      if key !in rows { return 0; }
      rows := rows[key := rows[key].(timestamp := timestamp, freq := freq, eff := eff)];
      changed := 1;
    }

    method UpdateLfudaContent(key: string, size: nat) returns (changed: nat)
      modifies this`rows
      ensures changed == if key in old(rows) then 1 else 0
      ensures rows == if key in old(rows) then old(rows)[key := old(rows)[key].(size := size)] else old(rows)
    {
      if key !in rows { return 0; }
      rows := rows[key := rows[key].(size := size)];
      changed := 1;
    }

    method UpdateMeta(m: Meta)
      modifies this`meta
      ensures meta == m
    {
      meta := m;
    }

    method QueryMeta() returns (m: Meta)
      ensures m == meta
    {
      m := meta;
    }

    /** A row with an empty key stands for "no such row". */
    method QueryLfudaSingle(key: string) returns (r: Row)
      ensures r == if key in rows then rows[key] else NO_ROW
    {
      r := if key in rows then rows[key] else NO_ROW;
    }

    method QueryLfudaTime(key: string) returns (t: TimeFreqEff)
      ensures key !in rows ==> t == TimeFreqEff("", 0, 0, 0)
      ensures key in rows ==> var r := rows[key]; t == TimeFreqEff(r.key, r.timestamp, r.freq, r.eff)
    {
      if key !in rows { return TimeFreqEff("", 0, 0, 0); }
      t := TimeFreqEff(rows[key].key, rows[key].timestamp, rows[key].freq, rows[key].eff);
    }

    method QueryLfudaWorst() returns (r: Row)
      requires Keyed(rows)
      ensures if rows == map[] then r == NO_ROW else Worst(rows, r)
    {
      if rows == map[] { return NO_ROW; }
      WorstExists(rows);
      var key :| IsWorst(rows, key);
      WorstRow(rows, key);
      r := rows[key];
    }

    /** Deletes some worst row: the statement leaves ties to the database. */
    method DeleteLfudaOld() returns (r: Row)
      requires Keyed(rows)
      modifies this`rows
      ensures Keyed(rows)
      ensures if old(rows) == map[] then r == NO_ROW && rows == map[]
              else Worst(old(rows), r) && rows == old(rows) - {r.key} && |rows| < |old(rows)|
    {
      if rows == map[] { return NO_ROW; }
      WorstExists(rows);
      var key :| IsWorst(rows, key);
      WorstRow(rows, key);
      SumSmaller(rows, key);
      r := rows[key];
      rows := rows - {key};
    }
  }

  // ---------- the engine ----------

  /** How the eviction loop fails: with nothing left or a row with an empty key, or with a row
      that `cache_size` does not cover, which is reported but not counted. */
  ghost predicate Fails(s: State, required: nat, victims: seq<Row>, error: Error, t: State) {
    && EvictionRun(s, required, victims)
    && match error
       case NothingToEvict =>
         var left := After(s, victims);
         && Over(left, required) && t == State(left.rows - {""}, left.meta)
         && (left.rows != map[] ==> "" in left.rows && Worst(left.rows, left.rows[""]))
       case CacheSizeMismatch =>
         victims != [] &&
         var left, v := After(s, victims[..|victims| - 1]), victims[|victims| - 1];
         && v.key != "" && v.size > left.meta.cacheSize && t == State(left.rows - {v.key}, left.meta)
       case _ => false
  }

  lemma RunsDry(s: State, required: nat, removed: seq<Row>, entry: Row)
    requires EvictionRun(s, required, removed) && Over(After(s, removed), required) && entry.key == ""
    requires After(s, removed).rows != map[] ==> Worst(After(s, removed).rows, entry)
    ensures var left := After(s, removed);
            Fails(s, required, removed, NothingToEvict, State(left.rows - {""}, left.meta))
  {
  }

  lemma RunsOver(s: State, required: nat, removed: seq<Row>, entry: Row)
    requires EvictionRun(s, required, removed) && Over(After(s, removed), required)
    requires Worst(After(s, removed).rows, entry) && entry.key != "" && entry.size > After(s, removed).meta.cacheSize
    ensures var left := After(s, removed);
            Fails(s, required, removed + [entry], CacheSizeMismatch, State(left.rows - {entry.key}, left.meta))
  {
    assert (removed + [entry])[..|removed|] == removed;
    RunOneMore(s, required, removed, entry);
  }

  /** One turn of the eviction loop, from the state `here`, once `entry` has been deleted. */
  lemma Turn(s: State, required: nat, removed: seq<Row>, mark: string, here: State, entry: Row)
    requires EvictionRun(s, required, removed) && here == After(s, removed) && Over(here, required)
    requires if here.rows == map[] then entry == NO_ROW else Worst(here.rows, entry)
    ensures here.rows == map[] ==> here.rows - {entry.key} == here.rows
    ensures entry.key == "" ==>
              && Fails(s, required, removed, NothingToEvict, State(here.rows - {entry.key}, here.meta))
              && !(Loose(s) && required <= s.meta.maxSize)
    ensures entry.key != "" && entry.size > here.meta.cacheSize ==>
              && Fails(s, required, removed + [entry], CacheSizeMismatch, State(here.rows - {entry.key}, here.meta))
              && !Loose(s)
    ensures entry.key != "" && entry.size <= here.meta.cacheSize ==>
              && EvictionRun(s, required, removed + [entry])
              && After(s, removed + [entry])
                 == State(here.rows - {entry.key}, Meta(here.meta.cacheSize - entry.size, here.meta.maxSize, entry.eff))
              && (Evicted(removed + [entry], mark) <==> Evicted(removed, mark) || entry.key == mark)
  {
    hide Loose, EvictionRun, After, Evicted, Worst, Over, Fails;
    EvictionPossible(s, required, removed);
    WorstMember(here.rows, entry);
    if entry.key == "" {
      RunsDry(s, required, removed, entry);
    } else if entry.size > here.meta.cacheSize {
      RunsOver(s, required, removed, entry);
    } else {
      RunOneMore(s, required, removed, entry);
      EvictedAppend(removed, entry, mark);
    }
  }

  class Lfuda {
    const db: SqliteLfuda
    var meta: Meta
    /** The vectors handed to the remove callback so far. */
    var removals: seq<seq<Row>>

    function View(): State
      reads this, db
    {
      State(db.rows, meta)
    }

    ghost predicate Valid()
      reads this, db
    {
      Inv(View())
    }

    constructor (db: SqliteLfuda)
      ensures this.db == db && meta == Meta(0, 0, 0) && removals == []
    {
      this.db, meta, removals := db, Meta(0, 0, 0), [];
    }

    /** On any table the loop evicts as few worst rows as it takes, or fails in one of two ways;
        on a consistent one it cannot fail. */
    method RemoveCache(required: nat, mark: string) returns (r: Outcome, ghost victims: seq<Row>)
      requires Keyed(db.rows)
      modifies this`meta, this`removals, db`rows
      ensures Keyed(db.rows) && removals == Logged(old(removals), victims)
      ensures r.Returned? ==> && Drains(old(View()), required, victims)
                              && View() == After(old(View()), victims)
                              && r.value == Evicted(victims, mark)
      ensures r.Threw? ==> Fails(old(View()), required, victims, r.error, View())
      ensures !Over(old(View()), required) ==> r == Returned(false) && victims == []
      ensures Loose(old(View())) && required <= old(meta.maxSize) ==> r.Returned?
    {
      hide Loose, EvictionRun, After, Evicted, Worst, Add64, Fails;
      ghost var s := View();
      victims := [];
      RunNone(s, required, mark);
      if Add64(meta.cacheSize, required) <= meta.maxSize { return Returned(false), []; }
      var removed: seq<Row> := [];
      var flag := false;
      while Add64(meta.cacheSize, required) > meta.maxSize
        invariant Keyed(db.rows) && removals == old(removals) && meta.maxSize == old(meta.maxSize)
        invariant EvictionRun(s, required, removed) && View() == After(s, removed)
        invariant flag == Evicted(removed, mark)
        decreases |db.rows|
      {
        ghost var here := View();
        var entry := db.DeleteLfudaOld();
        Turn(s, required, removed, mark, here, entry);
        if entry.key == "" {
          if removed != [] { removals := removals + [removed]; }
          return Threw(NothingToEvict), removed;
        }
        if meta.cacheSize >= entry.size {
          meta := meta.(cacheSize := meta.cacheSize - entry.size);
          meta := meta.(aging := entry.eff);
          removed := removed + [entry];
        } else {
          removed := removed + [entry];
          removals := removals + [removed];
          return Threw(CacheSizeMismatch), removed;
        }
        flag := flag || entry.key == mark;
      }
      if removed != [] { removals := removals + [removed]; }
      return Returned(flag), removed;
    }

    /** `entry` is the row as it was read; only its key and size are used. */
    method UpdateSize(entry: Row, newSize: nat) returns (r: Outcome, ghost victims: seq<Row>)
      requires Valid() && entry.key in db.rows && db.rows[entry.key].size == entry.size
      requires 1 <= newSize <= meta.maxSize
      modifies this`meta, this`removals, db`rows
      ensures r.Returned? && removals == Logged(old(removals), victims)
      ensures Drains(old(View()), Growth(entry.size, newSize), victims)
      ensures View() == Rewrite(After(old(View()), victims), entry.key, newSize)
    {
      hide Inv, Drains, After, Rewrite, Add64, Evicted;
      victims := [];
      ghost var s := View();
      GrowthFacts(s, entry.key, newSize);
      if newSize == entry.size { return Returned(true), []; }
      if newSize > entry.size {
        var lost;
        lost, victims := RemoveCache(newSize - entry.size, entry.key);
        LostFacts(s, entry.key, newSize, victims);
        if lost.Threw? { return lost, victims; }
        if lost.value { return Returned(true), victims; }
      }
      if meta.cacheSize >= entry.size {
        meta := meta.(cacheSize := meta.cacheSize - entry.size);
      } else {
        return Threw(CacheSizeMismatch), victims;
      }
      Add64Exact(meta.cacheSize, newSize);
      meta := meta.(cacheSize := Add64(meta.cacheSize, newSize));
      var changed := db.UpdateLfudaContent(entry.key, newSize);
      if changed == 0 { return Threw(FatalLogic), victims; }
      return Returned(true), victims;
    }

    method Put(key: string, size: nat, timestamp: uint64) returns (r: Outcome, ghost victims: seq<Row>)
      requires Valid() && Headroom(View())
      modifies this`meta, this`removals, db`rows
      ensures Legal(old(View()), Op.Put(key, size, timestamp), victims)
      ensures View() == Next(old(View()), Op.Put(key, size, timestamp), victims)
      ensures r == Result(old(View()), Op.Put(key, size, timestamp))
      ensures removals == Logged(old(removals), victims)
      ensures Valid()
    {
      ghost var s, op := View(), Op.Put(key, size, timestamp);
      if key == "" { return Threw(NullKey), []; }
      if size == 0 || size > meta.maxSize { return Threw(BadSize), []; }
      KeyedRows(s);
      var entry := db.QueryLfudaSingle(key);
      hide Inv, Loose, Drains, After, Rewrite, Touch, Next, Legal, Insert, Budget, Base;
      if entry.key == "" {
        NewKeyFacts(s, op);
        var removed;
        removed, victims := RemoveCache(size, "");
        if removed.Threw? { return removed, victims; }
        NewKeyNext(s, op, victims);
        var tmp := Row(key, size, timestamp, 1, Add64(meta.aging, 1));
        var e := db.InsertLru(tmp);
        if e.Violated? { return Threw(Violation), victims; }
        if e == Changed(0) { return Threw(FatalLogic), victims; }
        meta := meta.(cacheSize := Add64(meta.cacheSize, tmp.size));
        return Returned(true), victims;
      }
      DuplicateFacts(s, op);
      var renewed := Renew(entry.key, timestamp);
      if renewed.Threw? { return renewed, []; }
      if !renewed.value { return Threw(FatalLogic), []; }
      victims := [];
      if size > entry.size {
        var grown;
        grown, victims := UpdateSize(entry, size);
        if grown.Threw? { return grown, victims; }
      }
      DuplicateNext(s, op, victims);
      return Returned(false), victims;
    }

    method Renew(key: string, timestamp: uint64) returns (r: Outcome)
      requires Valid() && Headroom(View())
      modifies db`rows
      ensures Legal(old(View()), Op.Renew(key, timestamp), [])
      ensures View() == Next(old(View()), Op.Renew(key, timestamp), [])
      ensures r == Result(old(View()), Op.Renew(key, timestamp))
      ensures Valid()
    {
      ghost var s, op := View(), Op.Renew(key, timestamp);
      RenewFacts(s, op);
      if key == "" { return Threw(NullKey); }
      hide Inv, Loose, Drains, After, Next, Legal, Budget;
      KeyedRows(s);
      var entry := db.QueryLfudaTime(key);
      if entry.key != "" {
        var time := timestamp;
        if entry.timestamp > time {
          time := entry.timestamp;
        }
        var freq := Add64(entry.freq, 1);
        var eff := Add64(freq, meta.aging);
        var changed := db.UpdateLfudaTfe(key, time, freq, eff);
        if changed == 0 { return Threw(FatalLogic); }
        return Returned(true);
      }
      r := Returned(false);
    }

    method Update(key: string, newSize: nat) returns (r: Outcome, ghost victims: seq<Row>)
      requires Valid()
      modifies this`meta, this`removals, db`rows
      ensures Legal(old(View()), Op.Update(key, newSize), victims)
      ensures View() == Next(old(View()), Op.Update(key, newSize), victims)
      ensures r == Result(old(View()), Op.Update(key, newSize))
      ensures removals == Logged(old(removals), victims)
      ensures Valid()
    {
      ghost var s, op := View(), Op.Update(key, newSize);
      if key == "" { return Threw(NullKey), []; }
      if newSize == 0 || newSize > meta.maxSize { return Threw(BadSize), []; }
      KeyedRows(s);
      hide Inv, Loose, Drains, After, Rewrite, Next, Legal, Budget, Base;
      var entry := db.QueryLfudaSingle(key);
      if entry.key != "" {
        var updated;
        updated, victims := UpdateSize(entry, newSize);
        if updated.Threw? { return updated, victims; }
        UpdateNext(s, op, victims);
        return Returned(true), victims;
      }
      UpdateNext(s, op, []);
      return Returned(false), [];
    }

    /** Limits of 2^63 and more are taken too; but they do not fit the signed column that stores
        them, and sums up to such a limit can wrap around. */
    method Resize(newSize: uint64) returns (r: Outcome, ghost victims: seq<Row>)
      requires Valid()
      modifies this`meta, this`removals, db`rows
      ensures Legal(old(View()), Op.Resize(newSize), victims)
      ensures View() == Next(old(View()), Op.Resize(newSize), victims)
      ensures r == Result(old(View()), Op.Resize(newSize))
      ensures removals == Logged(old(removals), victims)
      ensures Representable(Op.Resize(newSize)) ==> Valid()
    {
      ghost var s, op := View(), Op.Resize(newSize);
      KeyedRows(s);
      if newSize == 0 { return Threw(ZeroMaxSize), []; }
      meta := meta.(maxSize := newSize);
      if Representable(op) { BaseKeeps(s, op); }
      var removed;
      removed, victims := RemoveCache(0, "");
      if removed.Threw? { return removed, victims; }
      if Representable(op) { InvKept(s, op, victims); }
      return Returned(true), victims;
    }

    method Query(key: string) returns (r: Row, thrown: Option<Error>)
      ensures thrown == if key == "" then Some(NullKey) else None
      ensures r == if key != "" && key in db.rows then db.rows[key] else NO_ROW
    {
      if key == "" { return NO_ROW, Some(NullKey); }
      r := db.QueryLfudaSingle(key);
      thrown := None;
    }

    method Backup()
      modifies db`meta
      ensures db.meta == meta
    {
      db.UpdateMeta(meta);
    }

    /** Restores a consistent backup as it was.  Any other table fails a check, on the worst row
        the database happens to find, or is evicted down to the limit. */
    method Init() returns (r: Outcome, ghost victims: seq<Row>, ghost worst: Row)
      requires Keyed(db.rows)
      modifies this`meta, this`removals, db`rows
      ensures Keyed(db.rows) && removals == Logged(old(removals), victims)
      ensures db.meta.maxSize != 0 ==> if old(db.rows) == map[] then worst == NO_ROW else Worst(old(db.rows), worst)
      ensures Starts(State(old(db.rows), db.meta), worst, r, victims, View())
      ensures Inv(State(old(db.rows), db.meta)) ==>
                r == Returned(true) && victims == [] && View() == State(old(db.rows), db.meta)
    {
      hide Loose, EvictionRun, After, Worst, Fails;
      victims, worst := [], NO_ROW;
      meta := db.QueryMeta();
      RunNone(View(), 0, "");
      LimitFacts(View());
      if meta.maxSize == 0 { return Threw(ZeroMaxSize), [], worst; }
      var entry := db.QueryLfudaWorst();
      worst := entry;
      InitFacts(View(), entry);
      if entry.key == "" && meta.cacheSize != 0 { return Threw(EmptyButSized), [], worst; }
      if entry.key != "" && entry.size > meta.cacheSize { return Threw(CacheSizeMismatch), [], worst; }
      if meta.cacheSize > meta.maxSize {
        var removed;
        removed, victims := RemoveCache(0, "");
        if removed.Threw? { return removed, victims, worst; }
      }
      return Returned(true), victims, worst;
    }
  }

  /** The outcome of `init` on the rows and meta row of `s`, with `worst` the row it looks at. */
  ghost predicate Starts(s: State, worst: Row, r: Outcome, victims: seq<Row>, t: State) {
    if s.meta.maxSize == 0 then r == Threw(ZeroMaxSize) && victims == [] && t == s
    else if worst.key == "" && s.meta.cacheSize != 0 then r == Threw(EmptyButSized) && victims == [] && t == s
    else if worst.key != "" && worst.size > s.meta.cacheSize then
      r == Threw(CacheSizeMismatch) && victims == [] && t == s
    else
      match r
      case Returned(value) => value && Drains(s, 0, victims) && t == After(s, victims)
      case Threw(error) => Fails(s, 0, victims, error, t)
  }

  // ---------- facts the methods use ----------

  function Growth(size: nat, newSize: nat): nat {
    if newSize > size then newSize - size else 0
  }

  lemma KeyedRows(s: State)
    requires Inv(s)
    ensures Keyed(s.rows) && "" !in s.rows
    ensures s.meta.cacheSize <= s.meta.maxSize < TWO63
  {
    forall k | k in s.rows
      ensures s.rows[k].key == k && k != ""
    {
      assert RowOk(s.rows, s.meta.aging, k);
    }
  }

  lemma LimitFacts(s: State)
    ensures Inv(s) ==> 1 <= s.meta.maxSize && s.meta.cacheSize <= s.meta.maxSize
  {
  }

  lemma InitFacts(s: State, worst: Row)
    requires if s.rows == map[] then worst == NO_ROW else Worst(s.rows, worst)
    ensures Inv(s) ==> (worst.key == "" ==> s.meta.cacheSize == 0) && worst.size <= s.meta.cacheSize
  {
    if Inv(s) && s.rows != map[] {
      assert RowOk(s.rows, s.meta.aging, worst.key);
      WithinBudget(s, worst.key);
    }
  }

  lemma GrowthFacts(s: State, key: string, newSize: nat)
    requires Inv(s) && key in s.rows && 1 <= newSize <= s.meta.maxSize
    ensures var size := s.rows[key].size;
            && Keyed(s.rows) && Loose(s) && s.meta.cacheSize <= s.meta.maxSize < TWO63
            && size <= s.meta.cacheSize
            && After(s, []) == s
            && (newSize <= size ==> Drains(s, 0, []))
            && (newSize == size ==> Rewrite(s, key, newSize) == s)
            && Rewrite(s, key, newSize)
               == State(s.rows[key := s.rows[key].(size := newSize)],
                        s.meta.(cacheSize := s.meta.cacheSize - size + newSize))
  {
    KeyedRows(s);
    WithinBudget(s, key);
    RunNone(s, 0, key);
    assert s.rows[key].(size := s.rows[key].size) == s.rows[key];
    assert s.rows[key := s.rows[key]] == s.rows;
  }

  /** After making room: either the target is gone, or it is as it was and fits grown. */
  lemma LostFacts(s: State, key: string, newSize: nat, victims: seq<Row>)
    requires Inv(s) && key in s.rows && s.rows[key].size < newSize <= s.meta.maxSize
    ensures Drains(s, newSize - s.rows[key].size, victims) ==>
              var size, t := s.rows[key].size, After(s, victims);
              && (Evicted(victims, key) ==> Rewrite(t, key, newSize) == t)
              && (!Evicted(victims, key) ==>
                    && key in t.rows && t.rows[key] == s.rows[key] && size <= t.meta.cacheSize < TWO63
                    && t.meta.cacheSize - size + newSize < TWO63
                    && Rewrite(t, key, newSize)
                       == State(t.rows[key := t.rows[key].(size := newSize)],
                                t.meta.(cacheSize := t.meta.cacheSize - size + newSize)))
  {
    var required := newSize - s.rows[key].size;
    if Drains(s, required, victims) {
      RunKeeps(s, required, victims);
      RunPartition(s, required, victims, key);
      CountEvicted(victims, key);
      AfterRows(s, victims, key);
      if key in After(s, victims).rows { WithinBudget(After(s, victims), key); }
    }
  }

  lemma NewKeyFacts(s: State, op: Op)
    requires Inv(s) && op.Put? && op.key !in s.rows && op.key != "" && 1 <= op.size <= s.meta.maxSize
    ensures Loose(s) && Result(s, op) == Returned(true)
  {
  }

  lemma NewKeyNext(s: State, op: Op, victims: seq<Row>)
    requires Inv(s) && Headroom(s) && op.Put? && op.key !in s.rows && op.key != "" && 1 <= op.size <= s.meta.maxSize
    requires Drains(s, op.size, victims)
    ensures var t := After(s, victims);
            && op.key !in t.rows && t.meta.cacheSize + op.size < TWO63
            && Add64(t.meta.aging, 1) == t.meta.aging + 1
            && Add64(t.meta.cacheSize, op.size) == t.meta.cacheSize + op.size
            && Legal(s, op, victims)
            && Next(s, op, victims) == State(t.rows[op.key := Row(op.key, op.size, op.timestamp, 1, t.meta.aging + 1)],
                                             t.meta.(cacheSize := t.meta.cacheSize + op.size))
            && Inv(Next(s, op, victims))
  {
    var t := After(s, victims);
    hide Sum, EvictionRun, After, Over, Add64;
    RunKeeps(s, op.size, victims);
    AfterRows(s, victims, op.key);
    OverExactly(t, op.size);
    Add64Exact(t.meta.aging, 1);
    Add64Exact(t.meta.cacheSize, op.size);
    InvKept(s, op, victims);
  }

  lemma RenewFacts(s: State, op: Op)
    requires Inv(s) && Headroom(s) && op.Renew?
    ensures Legal(s, op, []) && Inv(Next(s, op, []))
    ensures op.key == "" || op.key !in s.rows ==> Next(s, op, []) == s
    ensures op.key != "" && op.key in s.rows ==>
              var r := s.rows[op.key];
              && Add64(r.freq, 1) == r.freq + 1
              && Add64(r.freq + 1, s.meta.aging) == r.freq + 1 + s.meta.aging
              && Next(s, op, []) == Touch(s, op.key, op.timestamp)
  {
    BaseKeeps(s, op);
    RunNone(Base(s, op), 0, "");
    if Hits(s, op) { WithinBudget(s, op.key); SumMember(Accesses, s.rows, op.key); }
    InvKept(s, op, []);
  }

  lemma DuplicateFacts(s: State, op: Op)
    requires Inv(s) && Headroom(s) && op.Put? && op.key in s.rows && op.key != "" && 1 <= op.size <= s.meta.maxSize
    ensures var t := Next(s, Renew(op.key, op.timestamp), []);
            && t == Base(s, op) && Inv(t) && t.meta == s.meta
            && op.key in t.rows && t.rows[op.key].size == s.rows[op.key].size
            && Drains(t, 0, []) && After(t, []) == t
  {
    RenewFacts(s, Renew(op.key, op.timestamp));
    RunNone(Base(s, op), 0, "");
  }

  lemma DuplicateNext(s: State, op: Op, victims: seq<Row>)
    requires Inv(s) && Headroom(s) && op.Put? && op.key in s.rows && op.key != "" && 1 <= op.size <= s.meta.maxSize
    requires Drains(Base(s, op), Growth(s.rows[op.key].size, op.size), victims)
    ensures Legal(s, op, victims) && Inv(Next(s, op, victims))
    ensures Result(s, op) == Returned(false)
    ensures Next(s, op, victims)
            == if op.size > s.rows[op.key].size then Rewrite(After(Base(s, op), victims), op.key, op.size)
               else After(Base(s, op), victims)
  {
    InvKept(s, op, victims);
  }

  lemma UpdateNext(s: State, op: Op, victims: seq<Row>)
    requires Inv(s) && op.Update? && op.key != "" && 1 <= op.size <= s.meta.maxSize
    requires if op.key in s.rows then Drains(s, Growth(s.rows[op.key].size, op.size), victims) else victims == []
    ensures Legal(s, op, victims) && Inv(Next(s, op, victims))
    ensures Next(s, op, victims) == if op.key in s.rows then Rewrite(After(s, victims), op.key, op.size) else s
  {
    RunNone(s, 0, "");
    InvKept(s, op, victims);
  }

  lemma WorstMember(rows: Rows, r: Row)
    ensures Worst(rows, r) ==> r.key in rows && rows[r.key] == r
  {
  }

  lemma EvictedAppend(victims: seq<Row>, v: Row, key: string)
    ensures Evicted(victims + [v], key) <==> Evicted(victims, key) || v.key == key
  {
    if Evicted(victims, key) {
      var i :| 0 <= i < |victims| && victims[i].key == key;
      assert (victims + [v])[i].key == key;
    }
    assert (victims + [v])[|victims|] == v;
  }

  /** While a consistent table is over the limit there is a row to evict, with a proper key
      and a size that `cache_size` covers. */
  lemma EvictionPossible(s: State, required: nat, victims: seq<Row>)
    requires EvictionRun(s, required, victims) && Over(After(s, victims), required)
    ensures Loose(s) && required <= s.meta.maxSize ==> After(s, victims).rows != map[]
    ensures Loose(s) ==> forall k :: k in After(s, victims).rows ==>
                           k != "" && After(s, victims).rows[k].size <= After(s, victims).meta.cacheSize
  {
    if Loose(s) {
      RunKeeps(s, required, victims);
      var t := After(s, victims);
      forall k | k in t.rows
        ensures k != "" && t.rows[k].size <= t.meta.cacheSize
      {
        assert RowOk(t.rows, t.meta.aging, k);
        WithinBudget(t, k);
      }
    }
  }
}
