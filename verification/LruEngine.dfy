/** The SQLite LRU engine (src/algo/algo_lru_sqlite.cpp): `cache_size`, the sequence counter
    and the table are updated step by step, as in the source, and every method is proved to
    take the recency list through one step of LruRecency.dfy. */
module LruEngine {
  import opened MachineWords
  import opened CacheEngine
  import opened LruRecency
  import opened LruProperties
  import opened LruTable
  import opened Options
  import opened RemoveCallback

  // ---------- the eviction loop, errors included ----------

  datatype Drained = Drained(list: seq<Row>, cacheSize: nat, victims: seq<Row>, error: Option<Error>)

  /** What `remove_cache` makes of any table, consistent or not. */
  function Drain(l: seq<Row>, cacheSize: nat, required: nat, maxSize: nat): Drained
    decreases |l|
  {
    if Add64(cacheSize, required) <= maxSize then Drained(l, cacheSize, [], None)
    else if l == [] then Drained(l, cacheSize, [], Some(NothingToEvict))
    else
      var front, v := l[..|l| - 1], l[|l| - 1];
      if v.key == "" then Drained(front, cacheSize, [], Some(NothingToEvict))
      else if cacheSize < v.size then Drained(front, cacheSize, [v], Some(CacheSizeMismatch))
      else
        var d := Drain(front, cacheSize - v.size, required, maxSize);
        After([v], d)
  }

  /** A drain that had already removed some rows. */
  function After(removed: seq<Row>, d: Drained): Drained {
    d.(victims := removed + d.victims)
  }

  lemma AfterNothing(d: Drained)
    ensures After([], d) == d
  {
  }

  lemma AfterAll(removed: seq<Row>, d: Drained)
    ensures d.victims == [] ==> After(removed, d) == d.(victims := removed)
  {
  }

  /** One turn of the loop over the limit. */
  lemma DrainStep(removed: seq<Row>, l: seq<Row>, cacheSize: nat, required: nat, maxSize: nat)
    requires Add64(cacheSize, required) > maxSize
    ensures var d := After(removed, Drain(l, cacheSize, required, maxSize));
            if l == [] then d == Drained(l, cacheSize, removed, Some(NothingToEvict))
            else
              var front, v := l[..|l| - 1], l[|l| - 1];
              if v.key == "" then d == Drained(front, cacheSize, removed, Some(NothingToEvict))
              else if cacheSize < v.size then d == Drained(front, cacheSize, removed + [v], Some(CacheSizeMismatch))
              else d == After(removed + [v], Drain(front, cacheSize - v.size, required, maxSize))
  {
    if l != [] && cacheSize >= l[|l| - 1].size {
      var rest := Drain(l[..|l| - 1], cacheSize - l[|l| - 1].size, required, maxSize);
      assert removed + ([l[|l| - 1]] + rest.victims) == removed + [l[|l| - 1]] + rest.victims;
    }
    assert removed + [] == removed;
  }

  lemma SplitLast(l: seq<Row>, n: nat)
    requires n < |l|
    ensures l[..|l| - 1][..n] == l[..n] && l[n..] == l[..|l| - 1][n..] + [l[|l| - 1]]
  {
  }

  /** On a consistent table the loop cannot fail, and keeps the longest prefix that fits. */
  lemma {:induction false} DrainKeeps(l: seq<Row>, required: nat, maxSize: nat)
    requires GoodRows(l) && Total(l) + required < TWO64 && required <= maxSize
    ensures var kept := Keep(l, maxSize - required);
            Drain(l, Total(l), required, maxSize) == Drained(kept, Total(kept), Reversed(l[|kept|..]), None)
    decreases |l|
  {
    Add64Exact(Total(l), required);
    if l != [] && Total(l) + required > maxSize {
      var front, v := l[..|l| - 1], l[|l| - 1];
      assert GoodRow(l[|l| - 1]);
      forall i | 0 <= i < |front|
        ensures GoodRow(front[i])
      {
        assert GoodRow(l[i]);
      }
      DrainKeeps(front, required, maxSize);
      hide GoodRows, Reversed;
      var n := Fitting(l, maxSize - required);
      assert n == Fitting(front, maxSize - required);
      SplitLast(l, n);
      ReversedSnoc(front[n..], v);
    } else {
      FitsWhole(l, maxSize - required);
      assert l[|l|..] == [] && Reversed(l[|l|..]) == [];
    }
  }

  class Lru {
    const db: SqliteLru
    var meta: Meta
    /** The vectors handed to the remove callback so far. */
    var removals: seq<seq<Row>>

    ghost function View(): State
      requires Keyed(db.rows)
      reads this, db
    {
      State(Recency(db.rows), meta)
    }

    ghost predicate Valid()
      reads this, db
    {
      Keyed(db.rows) && Inv(View())
    }

    /** The invariant carries over to whatever state a call leads to. */
    lemma ValidAfter(s: State, op: Op)
      requires Inv(s) && Representable(op) && Keyed(db.rows) && View() == Next(s, op)
      ensures Valid()
    {
      InvKept(s, op);
    }

    constructor (db: SqliteLru)
      ensures this.db == db && meta == Meta(0, 0, 0) && removals == []
    {
      this.db, meta, removals := db, Meta(0, 0, 0), [];
    }

    method RemoveCache(required: nat, mark: string) returns (r: Outcome)
      requires Keyed(db.rows)
      modifies this`meta, this`removals, db`rows
      ensures Keyed(db.rows)
      ensures var d := Drain(Recency(old(db.rows)), old(meta.cacheSize), required, old(meta.maxSize));
              && View() == State(d.list, old(meta).(cacheSize := d.cacheSize))
              && removals == Logged(old(removals), d.victims)
              && r == if d.error.Some? then Threw(d.error.value) else Returned(HasKey(d.victims, mark))
    {
      ghost var l := Recency(db.rows);
      if Add64(meta.cacheSize, required) <= meta.maxSize { return Returned(false); }
      var removed: seq<Row> := [];
      var flag := false;
      ghost var d := Drain(l, meta.cacheSize, required, meta.maxSize);
      AfterNothing(d);
      while Add64(meta.cacheSize, required) > meta.maxSize
        invariant Keyed(db.rows) && Recency(db.rows) == l
        invariant meta == old(meta).(cacheSize := meta.cacheSize) && removals == old(removals)
        invariant d == After(removed, Drain(l, meta.cacheSize, required, meta.maxSize))
        invariant flag == HasKey(removed, mark)
        decreases |l|
      {
        DrainStep(removed, l, meta.cacheSize, required, meta.maxSize);
        var entry := db.DeleteLruOld();
        if entry.key == "" {
          if removed != [] { removals := removals + [removed]; }
          return Threw(NothingToEvict);
        }
        l := l[..|l| - 1];
        HasKeyAppend(removed, entry, mark);
        if meta.cacheSize >= entry.size {
          meta := meta.(cacheSize := meta.cacheSize - entry.size);
          removed := removed + [entry];
        } else {
          removed := removed + [entry];
          removals := removals + [removed];
          return Threw(CacheSizeMismatch);
        }
        flag := flag || entry.key == mark;
      }
      assert d == Drained(l, meta.cacheSize, removed, None) by {
        AfterAll(removed, Drained(l, meta.cacheSize, [], None));
      }
      if removed != [] { removals := removals + [removed]; }
      r := Returned(flag);
    }

    /** `entry` is the row as it was read; only its key and size are used. */
    method UpdateSize(entry: Row, newSize: nat) returns (r: Outcome)
      requires Valid() && HasKey(View().list, entry.key) && Find(View().list, entry.key).size == entry.size
      requires 1 <= newSize <= meta.maxSize
      modifies this`meta, this`removals, db`rows
      ensures Keyed(db.rows) && r.Returned?
      ensures var l := old(View()).list;
              var kept := Keep(l, GrowthRoom(old(meta.maxSize), entry.size, newSize));
              && View().list == SetSize(kept, entry.key, newSize)
              && meta == old(meta).(cacheSize := Total(View().list))
              && removals == Logged(old(removals), Reversed(l[|kept|..]))
    {
      hide Inv, Keep, Total, Find, SetSize, Drain, HasKey, Reversed, GrowthRoom, Listing, Keyed;
      hide Add64, Recency, SequenceTaken;
      ghost var l := View().list;
      ghost var kept := Keep(l, GrowthRoom(meta.maxSize, entry.size, newSize));
      GrowthFacts(View(), entry.key, newSize);
      if newSize == entry.size { return Returned(true); }
      if newSize > entry.size {
        var lost := RemoveCache(newSize - entry.size, entry.key);
        if lost.Threw? { return lost; }
        if lost.value { return Returned(true); }
      }
      assert View() == State(kept, old(meta).(cacheSize := Total(kept)));
      RecencyFinds(db.rows, entry.key);
      if meta.cacheSize >= entry.size {
        meta := meta.(cacheSize := meta.cacheSize - entry.size);
      } else {
        return Threw(CacheSizeMismatch);
      }
      Add64Exact(meta.cacheSize, newSize);
      meta := meta.(cacheSize := Add64(meta.cacheSize, newSize));
      ResizedList(db.rows, entry.key, newSize);
      var changed := db.UpdateLruContent(entry.key, newSize);
      if changed == 0 { return Threw(FatalLogic); }
      r := Returned(true);
    }

    method Put(key: string, size: nat) returns (r: Outcome)
      requires Valid()
      modifies this`meta, this`removals, db`rows
      ensures Keyed(db.rows) && View() == Next(old(View()), Op.Put(key, size))
      ensures r == Result(old(View()), Op.Put(key, size))
      ensures removals == Logged(old(removals), Victims(old(View()), Op.Put(key, size)))
      ensures Valid()
    {
      ghost var s, op := View(), Op.Put(key, size);
      if key == "" {
        NextNothing(s, op);
        return Threw(NullKey);
      }
      if size == 0 || size > meta.maxSize {
        NextNothing(s, op);
        return Threw(BadSize);
      }
      hide Next, Victims, Result, Keep, Total, Find, HasKey, SetSize, Reversed, Inv, Listing, Keyed, Recency;
      RecencyFinds(db.rows, key);
      var entry := db.QueryLruSingle(key);
      if entry.key == "" {
        r := PutNew(key, size);
      } else {
        r := PutDuplicate(entry, size);
      }
    }

    /** The branch of `put` for a key whose row, as read, is `entry`. */
    method PutDuplicate(entry: Row, size: nat) returns (r: Outcome)
      requires Valid() && entry.key != "" && 1 <= size <= meta.maxSize
      requires HasKey(View().list, entry.key) && Find(View().list, entry.key) == entry
      modifies this`meta, this`removals, db`rows
      ensures Keyed(db.rows) && View() == Next(old(View()), Op.Put(entry.key, size))
      ensures r == Returned(false) == Result(old(View()), Op.Put(entry.key, size))
      ensures removals == Logged(old(removals), Victims(old(View()), Op.Put(entry.key, size)))
      ensures Valid()
    {
      hide Next, Victims, Result, Keep, Total, Find, HasKey, SetSize, Reversed, Inv, Listing, Keyed, Recency;
      hide GrowthRoom, MoveToFront;
      DuplicateFacts(View(), entry.key, size);
      var renewed := Renew(entry.key);
      if renewed.Threw? { return renewed; }
      if !renewed.value { return Threw(FatalLogic); }
      if size > entry.size {
        var grown := UpdateSize(entry, size);
        if grown.Threw? { return grown; }
      }
      r := Returned(false);
    }

    /** The branch of `put` for a key that is not in the table. */
    method PutNew(key: string, size: nat) returns (r: Outcome)
      requires Valid() && key != "" && 1 <= size <= meta.maxSize && !HasKey(View().list, key)
      modifies this`meta, this`removals, db`rows
      ensures Keyed(db.rows) && View() == Next(old(View()), Op.Put(key, size))
      ensures r == Returned(true) == Result(old(View()), Op.Put(key, size))
      ensures removals == Logged(old(removals), Victims(old(View()), Op.Put(key, size)))
      ensures Valid()
    {
      hide Next, Victims, Keep, Total, Drain, HasKey, Inv, Listing, Keyed, Recency, SequenceTaken, Add64;
      ghost var s := View();
      NewKeyDrain(s, key, size);
      var removed := RemoveCache(size, "");
      if removed.Threw? { return removed; }
      var tmp := Row(key, size, meta.sequence + 1);
      InsertTable(s, db.rows, key, size);
      var e := db.InsertLru(tmp);
      if e.Violated? { return Threw(Violation); }
      if e == Changed(0) { return Threw(FatalLogic); }
      Add64Exact(meta.cacheSize, tmp.size);
      meta := meta.(sequence := meta.sequence + 1);
      meta := meta.(cacheSize := Add64(meta.cacheSize, tmp.size));
      r := Returned(true);
    }

    method Renew(key: string) returns (r: Outcome)
      requires Valid()
      modifies this`meta, db`rows
      ensures Keyed(db.rows) && View() == Next(old(View()), Op.Renew(key))
      ensures r == Result(old(View()), Op.Renew(key))
      ensures Victims(old(View()), Op.Renew(key)) == []
      ensures Valid()
    {
      hide Next, Victims, Result, Keyed, Listing, Recency, SequenceTaken;
      RenewTable(db.rows, meta, key);
      if key == "" { return Threw(NullKey); }
      var changed := db.UpdateLruSeq(key, meta.sequence + 1);
      if changed.Violated? { return Threw(Violation); }
      if changed != Changed(0) {
        meta := meta.(sequence := meta.sequence + 1);
        return Returned(true);
      }
      r := Returned(false);
    }

    method Update(key: string, newSize: nat) returns (r: Outcome)
      requires Valid()
      modifies this`meta, this`removals, db`rows
      ensures Keyed(db.rows) && View() == Next(old(View()), Op.Update(key, newSize))
      ensures r == Result(old(View()), Op.Update(key, newSize))
      ensures removals == Logged(old(removals), Victims(old(View()), Op.Update(key, newSize)))
      ensures Valid()
    {
      hide Next, Victims, Keep, Total, SetSize;
      ghost var s, op := View(), Op.Update(key, newSize);
      if key == "" {
        NextNothing(s, op);
        return Threw(NullKey);
      }
      if newSize == 0 || newSize > meta.maxSize {
        NextNothing(s, op);
        return Threw(BadSize);
      }
      RecencyFinds(db.rows, key);
      var entry := db.QueryLruSingle(key);
      if entry.key != "" {
        NextUpdateHit(s, key, newSize);
        var updated := UpdateSize(entry, newSize);
        if updated.Threw? { return updated; }
        ValidAfter(s, op);
        return Returned(true);
      }
      NextNothing(s, op);
      r := Returned(false);
    }

    /** Limits of 2^63 and more are taken too; but they do not fit the signed column that stores
        them, and sums up to such a limit can wrap around. */
    method Resize(newSize: uint64) returns (r: Outcome)
      requires Valid()
      modifies this`meta, this`removals, db`rows
      ensures Keyed(db.rows) && View() == Next(old(View()), Op.Resize(newSize))
      ensures r == Result(old(View()), Op.Resize(newSize))
      ensures removals == Logged(old(removals), Victims(old(View()), Op.Resize(newSize)))
      ensures Representable(Op.Resize(newSize)) ==> Valid()
    {
      ghost var s, op := View(), Op.Resize(newSize);
      if newSize == 0 { return Threw(ZeroMaxSize); }
      DrainKeeps(View().list, 0, newSize);
      meta := meta.(maxSize := newSize);
      var removed := RemoveCache(0, "");
      if removed.Threw? { return removed; }
      if Representable(op) { ValidAfter(s, op); }
      r := Returned(true);
    }

    method Query(key: string) returns (r: Row, thrown: Option<Error>)
      requires Valid()
      ensures thrown == if key == "" then Some(NullKey) else None
      ensures r == if key != "" && HasKey(View().list, key) then Find(View().list, key) else NO_ROW
    {
      if key == "" { return NO_ROW, Some(NullKey); }
      RecencyFinds(db.rows, key);
      r := db.QueryLruSingle(key);
      thrown := None;
    }

    method Backup()
      modifies db`meta
      ensures db.meta == meta
    {
      db.UpdateMeta(meta);
    }

    method Init() returns (r: Outcome)
      requires Keyed(db.rows)
      modifies this`meta, this`removals, db`rows
      ensures Keyed(db.rows)
      ensures var i := Initial(Recency(old(db.rows)), db.meta);
              && View() == i.state && r == i.outcome && removals == Logged(old(removals), i.victims)
    {
      meta := db.QueryMeta();
      if meta.maxSize == 0 { return Threw(ZeroMaxSize); }
      var entry := db.QueryLruNew();
      if entry.key == "" && meta.cacheSize != 0 { return Threw(EmptyButSized); }
      if entry.key != "" && entry.sequence != meta.sequence { return Threw(SequenceMismatch); }
      if entry.key != "" && entry.size > meta.cacheSize { return Threw(CacheSizeMismatch); }
      if meta.cacheSize > meta.maxSize {
        var removed := RemoveCache(0, "");
        if removed.Threw? { return removed; }
      }
      r := Returned(true);
    }
  }

  // ---------- facts the methods use ----------

  lemma GrowthFacts(s: State, key: string, newSize: nat)
    requires Inv(s) && HasKey(s.list, key) && 1 <= newSize <= s.meta.maxSize
    ensures var size := Find(s.list, key).size;
            var kept := Keep(s.list, GrowthRoom(s.meta.maxSize, size, newSize));
            var lost := HasKey(Reversed(s.list[|kept|..]), key);
            && (newSize == size ==> SetSize(kept, key, newSize) == s.list && kept == s.list)
            && (newSize < size ==> kept == s.list)
            && (newSize <= size ==> Reversed(s.list[|kept|..]) == [])
            && (newSize > size ==> Drain(s.list, s.meta.cacheSize, newSize - size, s.meta.maxSize)
                                   == Drained(kept, Total(kept), Reversed(s.list[|kept|..]), None))
            && s.meta.cacheSize == Total(s.list) && s.meta.maxSize < TWO63
            && (lost <==> !HasKey(kept, key))
            && (lost ==> SetSize(kept, key, newSize) == kept)
            && Total(kept) <= s.meta.maxSize
            && (!lost ==> Find(kept, key).size == size <= Total(kept))
            && (!lost ==> Total(SetSize(kept, key, newSize)) == Total(kept) - size + newSize <= s.meta.maxSize)
  {
    var size := Find(s.list, key).size;
    var room := GrowthRoom(s.meta.maxSize, size, newSize);
    var kept := Keep(s.list, room);
    if newSize <= size { FitsWhole(s.list, room); } else { DrainKeeps(s.list, newSize - size, s.meta.maxSize); }
    KeptTotal(s.list, room);
    VictimsFromTail(s.list, room, key);
    KeptPrefix(s.list, room);
    hide Keep, Total, Drain, GoodRows;
    GrownTotal(s.list, kept, key, newSize);
  }

  lemma GrownTotal(l: seq<Row>, kept: seq<Row>, key: string, newSize: nat)
    requires Sorted(l) && kept <= l
    ensures HasKey(kept, key) ==>
              && HasKey(l, key) && Find(kept, key).size == Find(l, key).size <= Total(kept)
              && Total(SetSize(kept, key, newSize)) == Total(kept) - Find(l, key).size + newSize
  {
    if HasKey(kept, key) {
      FindInPrefix(l, kept, key);
      TotalOnePoint(kept, Position(kept, key));
      TotalSetSize(kept, key, newSize);
    }
  }

  lemma NewKeyDrain(s: State, key: string, size: nat)
    requires Inv(s) && key != "" && 1 <= size <= s.meta.maxSize && !HasKey(s.list, key)
    ensures var kept := Keep(s.list, s.meta.maxSize - size);
            Drain(s.list, s.meta.cacheSize, size, s.meta.maxSize)
            == Drained(kept, Total(kept), Victims(s, Op.Put(key, size)), None)
  {
    NextPutNew(s, key, size);
    hide Next, Victims, Result, Keep, Drain, Total, Reversed, HasKey;
    DrainKeeps(s.list, size, s.meta.maxSize);
  }

  lemma NewKeyNext(s: State, key: string, size: nat)
    requires Inv(s) && key != "" && 1 <= size <= s.meta.maxSize && !HasKey(s.list, key)
    ensures var kept := Keep(s.list, s.meta.maxSize - size);
            && Total(kept) + size <= s.meta.maxSize && !HasKey(kept, key) && kept <= s.list
            && Next(s, Op.Put(key, size)) == State([Row(key, size, s.meta.sequence + 1)] + kept,
                                                   Meta(Total(kept) + size, s.meta.maxSize, s.meta.sequence + 1))
  {
    var kept, r := Keep(s.list, s.meta.maxSize - size), Row(key, size, s.meta.sequence + 1);
    NextPutNew(s, key, size);
    assert Total([r]) == size;
    KeptPrefix(s.list, s.meta.maxSize - size);
    hide Next, Victims, Result, Keep, Total, HasKey;
    KeptTotal(s.list, s.meta.maxSize - size);
    assert kept == [] ==> Total(kept) == 0 by { EmptyTotal(); }
    TotalAppend([r], kept);
    PrefixKeys(s.list, kept, key);
  }

  lemma EmptyTotal()
    ensures Total([]) == 0
  {
  }

  /** Every row left in the table is older than the next sequence number. */
  lemma OlderThanNext(rows: Rows, kept: seq<Row>, s: State)
    requires Keyed(rows) && Recency(rows) == kept && kept <= s.list && Inv(s)
    ensures NewerThanAll(rows, s.meta.sequence + 1)
  {
    forall k | k in rows
      ensures rows[k].sequence < s.meta.sequence + 1
    {
      var i := ListedAt(rows, kept, k);
      NewestFirst(s.list, i);
    }
  }

  lemma RenewFacts(s: State, key: string)
    requires Inv(s)
    ensures var op := Op.Renew(key);
            && Victims(s, op) == []
            && (!HasKey(s.list, key) || key == "" ==> Next(s, op) == s)
            && (HasKey(s.list, key) && key != "" ==>
                  Next(s, op) == State(MoveToFront(s.list, key, s.meta.sequence + 1),
                                       s.meta.(sequence := s.meta.sequence + 1)))
  {
    var op := Op.Renew(key);
    if HasKey(s.list, key) && key != "" {
      NextRenewHit(s, key);
      RenewBase(s, key);
      hide Next, Victims, Keep, Total, MoveToFront, Base;
      BaseIsGood(s, op);
      FitsWhole(Base(s, op), s.meta.maxSize);
      assert Reversed([]) == [];
    } else {
      NextNothing(s, op);
    }
  }

  lemma RenewBase(s: State, key: string)
    requires Hits(s, Op.Renew(key))
    ensures Base(s, Op.Renew(key)) == MoveToFront(s.list, key, s.meta.sequence + 1)
  {
  }

  /** The INSERT of `put`, on the table that eviction left. */
  lemma InsertTable(s: State, rows: Rows, key: string, size: nat)
    requires Inv(s) && key != "" && 1 <= size <= s.meta.maxSize && !HasKey(s.list, key)
    requires Keyed(rows) && Recency(rows) == Keep(s.list, s.meta.maxSize - size)
    ensures key !in rows && !SequenceTaken(rows, key, s.meta.sequence + 1)
    ensures Keyed(rows[key := Row(key, size, s.meta.sequence + 1)])
    ensures var kept, r := Keep(s.list, s.meta.maxSize - size), Row(key, size, s.meta.sequence + 1);
            var next := State(Recency(rows[key := r]), Meta(Total(kept) + size, s.meta.maxSize, s.meta.sequence + 1));
            next == Next(s, Op.Put(key, size)) && Inv(next) && Total(kept) + size < TWO64
  {
    NewKeyNext(s, key, size);
    InvKept(s, Op.Put(key, size));
    hide Next, Keep, Total;
    RecencyFinds(rows, key);
    OlderThanNext(rows, Keep(s.list, s.meta.maxSize - size), s);
    InsertedList(rows, Row(key, size, s.meta.sequence + 1));
  }

  /** The UPDATE of `renew`, on the table. */
  lemma RenewTable(rows: Rows, meta: Meta, key: string)
    requires Keyed(rows) && Inv(State(Recency(rows), meta))
    ensures var s, op := State(Recency(rows), meta), Op.Renew(key);
            var renewed := meta.(sequence := meta.sequence + 1);
            && Result(s, op) == (if key == "" then Threw(NullKey) else Returned(key in rows))
            && Victims(s, op) == []
            && (key == "" || key !in rows ==> Next(s, op) == s)
            && (key != "" && key in rows ==>
                  var next := rows[key := rows[key].(sequence := meta.sequence + 1)];
                  && !SequenceTaken(rows, key, meta.sequence + 1)
                  && Keyed(next) && Next(s, op) == State(Recency(next), renewed)
                  && Inv(State(Recency(next), renewed)))
  {
    var s, op := State(Recency(rows), meta), Op.Renew(key);
    RecencyFinds(rows, key);
    RenewFacts(s, key);
    InvKept(s, op);
    if key != "" && key in rows { TouchTable(rows, key, s); }
    hide Next, Victims, MoveToFront, HasKey, Find, Inv, SequenceTaken, Keyed, Recency;
  }

  lemma TouchTable(rows: Rows, key: string, s: State)
    requires Keyed(rows) && Recency(rows) == s.list && Inv(s) && key in rows
    ensures var next := rows[key := rows[key].(sequence := s.meta.sequence + 1)];
            && !SequenceTaken(rows, key, s.meta.sequence + 1) && Keyed(next)
            && HasKey(s.list, key) && Recency(next) == MoveToFront(s.list, key, s.meta.sequence + 1)
  {
    OlderThanNext(rows, s.list, s);
    TouchedList(rows, key, s.meta.sequence + 1);
  }

  /** A duplicate `put` renews first and then, if it is larger, grows the renewed row. */
  lemma DuplicateFacts(s: State, key: string, size: nat)
    requires Inv(s) && key != "" && 1 <= size <= s.meta.maxSize && HasKey(s.list, key)
    ensures var t, op := Next(s, Op.Renew(key)), Op.Put(key, size);
            var before := Find(s.list, key).size;
            var kept := Keep(t.list, GrowthRoom(t.meta.maxSize, before, size));
            && Inv(t) && t.meta.maxSize == s.meta.maxSize
            && Result(s, op) == Returned(false) && Result(s, Op.Renew(key)) == Returned(true)
            && HasKey(t.list, key) && Find(t.list, key).size == before
            && (size > before ==>
                  var l := SetSize(kept, key, size);
                  && Victims(s, op) == Reversed(t.list[|kept|..])
                  && Next(s, op) == State(l, t.meta.(cacheSize := Total(l))))
            && (size <= before ==> Victims(s, op) == [] && Next(s, op) == t)
            && Inv(Next(s, op))
  {
    var op := Op.Put(key, size);
    NextPutHit(s, key, size);
    NextRenewHit(s, key);
    assert Base(s, op) == Base(s, Op.Renew(key));
    hide Next, Victims, Base, Keep, Find, SetSize, Total, Result;
    InvKept(s, Op.Renew(key));
    InvKept(s, op);
    BaseIsGood(s, op);
    BaseHead(s, op);
    FindHead(Base(s, op), key);
    FitsWhole(Base(s, op), s.meta.maxSize);
  }

  // ---------- restart ----------

  datatype Initialized = Initialized(state: State, victims: seq<Row>, outcome: Outcome)

  /** What `init` makes of the rows of a table and the meta row stored beside them. */
  function Initial(l: seq<Row>, m: Meta): Initialized {
    var newest := if l == [] then NO_ROW else l[0];
    if m.maxSize == 0 then Initialized(State(l, m), [], Threw(ZeroMaxSize))
    else if newest.key == "" && m.cacheSize != 0 then Initialized(State(l, m), [], Threw(EmptyButSized))
    else if newest.key != "" && newest.sequence != m.sequence then
      Initialized(State(l, m), [], Threw(SequenceMismatch))
    else if newest.key != "" && newest.size > m.cacheSize then
      Initialized(State(l, m), [], Threw(CacheSizeMismatch))
    else if m.cacheSize > m.maxSize then
      var d := Drain(l, m.cacheSize, 0, m.maxSize);
      Initialized(State(d.list, m.(cacheSize := d.cacheSize)), d.victims,
                  if d.error.Some? then Threw(d.error.value) else Returned(true))
    else Initialized(State(l, m), [], Returned(true))
  }

  lemma ReversedSnoc(l: seq<Row>, v: Row)
    ensures Reversed(l + [v]) == [v] + Reversed(l)
  {
  }

  lemma HasKeyAppend(l: seq<Row>, r: Row, key: string)
    ensures HasKey(l + [r], key) <==> HasKey(l, key) || r.key == key
  {
    if HasKey(l, key) {
      var i :| 0 <= i < |l| && l[i].key == key;
      assert (l + [r])[i].key == key;
    }
    assert (l + [r])[|l|] == r;
  }
}
