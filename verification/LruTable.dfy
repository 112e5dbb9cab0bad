/** The cacheLRU and metaLRU tables (src/sqlite/sql_statement.h, src/db_adapter/db_sqlite_lru.h),
    and the recency list that a table stands for. */
module LruTable {
  import opened CacheEngine
  import opened LruRecency
  import opened LruProperties

  type Rows = map<string, Row>

  predicate UniqueSequence(rows: Rows, j: string, k: string) {
    j in rows && k in rows && j != k ==> rows[j].sequence != rows[k].sequence
  }

  /** PRIMARY KEY on `key`, UNIQUE on `sequence`. */
  ghost predicate Keyed(rows: Rows) {
    && (forall k :: k in rows ==> rows[k].key == k)
    && forall j, k :: UniqueSequence(rows, j, k)
  }

  predicate Listed(rows: Rows, r: Row) {
    r.key in rows && rows[r.key] == r
  }

  /** `l` holds the rows of the table, newest first. */
  ghost predicate Listing(rows: Rows, l: seq<Row>) {
    && Sorted(l)
    && (forall i {:trigger Listed(rows, l[i])} :: 0 <= i < |l| ==> Listed(rows, l[i]))
    && forall k {:trigger HasKey(l, k)} :: k in rows ==> HasKey(l, k)
  }

  predicate IsOldest(rows: Rows, key: string) {
    key in rows && forall k :: k in rows ==> rows[key].sequence <= rows[k].sequence
  }

  predicate IsNewest(rows: Rows, key: string) {
    key in rows && forall k :: k in rows ==> rows[k].sequence <= rows[key].sequence
  }

  // ---------- tables as lists ----------

  lemma {:induction false} NewestExists(rows: Rows)
    requires rows != map[]
    ensures exists key :: IsNewest(rows, key)
    decreases |rows|
  {
    var k :| k in rows;
    var rest := rows - {k};
    assert forall j :: j in rows ==> j == k || j in rest;
    if rest == map[] {
      assert IsNewest(rows, k);
    } else {
      assert rest.Keys == rows.Keys - {k};
      NewestExists(rest);
      var m :| IsNewest(rest, m);
      var best := if rows[k].sequence >= rows[m].sequence then k else m;
      assert IsNewest(rows, best);
    }
  }

  /** The rows newest first: the one listing of the table. */
  ghost function Recency(rows: Rows): (l: seq<Row>)
    requires Keyed(rows)
    ensures Listing(rows, l)
    decreases |rows|
  {
    if rows == map[] then []
    else
      NewestExists(rows);
      var k :| IsNewest(rows, k);
      var rest := rows - {k};
      assert rest.Keys == rows.Keys - {k};
      KeyedRest(rows, k);
      NewestFirstListing(rows, k, Recency(rest));
      [rows[k]] + Recency(rest)
  }

  lemma KeyedRest(rows: Rows, k: string)
    requires Keyed(rows)
    ensures Keyed(rows - {k})
    ensures IsNewest(rows, k) ==> NewerThanAll(rows - {k}, rows[k].sequence)
  {
    forall i, j
      ensures UniqueSequence(rows - {k}, i, j)
    {
      assert UniqueSequence(rows, i, j);
    }
    if IsNewest(rows, k) {
      forall j | j in rows - {k}
        ensures rows[j].sequence < rows[k].sequence
      {
        assert UniqueSequence(rows, j, k);
      }
    }
  }

  predicate NewerThanAll(rows: Rows, sequence: int) {
    forall k :: k in rows ==> rows[k].sequence < sequence
  }

  lemma NewestFirstListing(rows: Rows, k: string, l: seq<Row>)
    requires k in rows && rows[k].key == k && NewerThanAll(rows - {k}, rows[k].sequence)
    requires Listing(rows - {k}, l)
    ensures Listing(rows, [rows[k]] + l)
  {
    var m := [rows[k]] + l;
    assert forall i :: 0 <= i < |l| ==> m[i + 1] == l[i];
    forall i | 0 <= i < |m|
      ensures Listed(rows, m[i])
    {
      assert i > 0 ==> Listed(rows - {k}, l[i - 1]);
    }
    forall i, j | 0 <= i < j < |m|
      ensures Ordered(m, i, j)
    {
      assert Listed(rows - {k}, l[j - 1]);
      assert i > 0 ==> Ordered(l, i - 1, j - 1);
    }
    forall j | j in rows
      ensures HasKey(m, j)
    {
      if j == k {
        assert m[0].key == j;
      } else {
        assert HasKey(l, j);
        var i :| 0 <= i < |l| && l[i].key == j;
        assert m[i + 1].key == j;
      }
    }
  }

  lemma ListedAt(rows: Rows, l: seq<Row>, key: string) returns (i: nat)
    requires Listing(rows, l) && key in rows
    ensures i < |l| && l[i] == rows[key] && l[i].key == key
  {
    assert HasKey(l, key);
    i :| 0 <= i < |l| && l[i].key == key;
    assert Listed(rows, l[i]);
  }

  lemma ListingHead(rows: Rows, l: seq<Row>)
    requires Listing(rows, l) && l != []
    ensures IsNewest(rows, l[0].key) && rows[l[0].key] == l[0]
  {
    assert Listed(rows, l[0]);
    forall k | k in rows
      ensures rows[k].sequence <= l[0].sequence
    {
      var i := ListedAt(rows, l, k);
      assert Ordered(l, 0, i);
    }
  }

  lemma ListingTail(rows: Rows, l: seq<Row>)
    requires Listing(rows, l) && l != []
    ensures Listing(rows - {l[0].key}, l[1..])
  {
    var rest, t := rows - {l[0].key}, l[1..];
    SortedSlice(l, 1, |l|);
    assert t == l[1..|l|];
    forall i | 0 <= i < |t|
      ensures Listed(rest, t[i])
    {
      assert Listed(rows, l[i + 1]) && Ordered(l, 0, i + 1);
    }
    forall k | k in rest
      ensures HasKey(t, k)
    {
      var i := ListedAt(rows, l, k);
      assert t[i - 1].key == k;
    }
  }

  /** A table has one listing. */
  lemma {:induction false} ListingUnique(rows: Rows, l: seq<Row>, m: seq<Row>)
    requires Listing(rows, l) && Listing(rows, m)
    ensures l == m
    decreases |l|
  {
    if l == [] {
      assert m == [] || (Listed(rows, m[0]) && HasKey(l, m[0].key));
    } else {
      assert Listed(rows, l[0]);
      var j := ListedAt(rows, m, l[0].key);
      assert Listed(rows, m[0]);
      var i := ListedAt(rows, l, m[0].key);
      assert Ordered(l, 0, i) && Ordered(m, 0, j);
      assert l[0] == m[0];
      ListingTail(rows, l);
      ListingTail(rows, m);
      ListingUnique(rows - {l[0].key}, l[1..], m[1..]);
    }
  }

  lemma OldestExists(rows: Rows)
    requires Keyed(rows) && rows != map[]
    ensures exists key :: IsOldest(rows, key)
  {
    var l := Recency(rows);
    var some :| some in rows;
    var at := ListedAt(rows, l, some);
    var n := |l| - 1;
    assert Listed(rows, l[n]);
    forall k | k in rows
      ensures l[n].sequence <= rows[k].sequence
    {
      var i := ListedAt(rows, l, k);
      assert Ordered(l, i, n);
    }
    assert IsOldest(rows, l[n].key);
  }

  /** The table constraints hold as soon as the table has a listing. */
  lemma ListingKeyed(rows: Rows, l: seq<Row>)
    requires Listing(rows, l)
    ensures Keyed(rows)
  {
    forall k | k in rows
      ensures rows[k].key == k
    {
      var i := ListedAt(rows, l, k);
    }
    forall j, k
      ensures UniqueSequence(rows, j, k)
    {
      if j in rows && k in rows {
        var a := ListedAt(rows, l, j);
        var b := ListedAt(rows, l, k);
        assert Ordered(l, a, b) && Ordered(l, b, a);
      }
    }
  }

  lemma RecencyIs(rows: Rows, l: seq<Row>)
    requires Listing(rows, l)
    ensures Keyed(rows) && Recency(rows) == l
  {
    ListingKeyed(rows, l);
    ListingUnique(rows, Recency(rows), l);
  }

  /** Looking a key up in the table and in the list is the same. */
  lemma RecencyFinds(rows: Rows, key: string)
    requires Keyed(rows)
    ensures HasKey(Recency(rows), key) <==> key in rows
    ensures key in rows ==> Find(Recency(rows), key) == rows[key] && rows[key].key == key
  {
    var l := Recency(rows);
    if HasKey(l, key) {
      var i := Position(l, key);
      assert Listed(rows, l[i]);
    }
  }

  // ---------- what the statements do to the list ----------

  /** INSERT of a row newer than every other pushes it to the front. */
  lemma InsertedList(rows: Rows, r: Row)
    requires Keyed(rows) && r.key !in rows && NewerThanAll(rows, r.sequence)
    ensures Keyed(rows[r.key := r]) && Recency(rows[r.key := r]) == [r] + Recency(rows)
  {
    var next := rows[r.key := r];
    assert next - {r.key} == rows;
    NewestFirstListing(next, r.key, Recency(rows));
    RecencyIs(next, [r] + Recency(rows));
  }

  /** DELETE of the row with the lowest sequence number drops the last row of the list. */
  lemma DeletedList(rows: Rows, key: string)
    requires Keyed(rows) && IsOldest(rows, key)
    ensures var l := Recency(rows);
            && l != [] && l[|l| - 1] == rows[key]
            && Keyed(rows - {key}) && Recency(rows - {key}) == l[..|l| - 1]
  {
    var l := Recency(rows);
    var at := ListedAt(rows, l, key);
    var n := |l| - 1;
    assert Listed(rows, l[n]) && Ordered(l, at, n);
    SortedSlice(l, 0, n);
    assert l[..n] == l[0..n];
    var rest := rows - {key};
    forall i | 0 <= i < n
      ensures Listed(rest, l[..n][i])
    {
      assert Listed(rows, l[i]) && Ordered(l, i, n);
    }
    forall k | k in rest
      ensures HasKey(l[..n], k)
    {
      var i := ListedAt(rows, l, k);
      assert l[..n][i].key == k;
    }
    RecencyIs(rest, l[..n]);
  }

  /** UPDATE of a sequence number beyond every other moves the row to the front. */
  lemma TouchedList(rows: Rows, key: string, sequence: int)
    requires Keyed(rows) && key in rows && NewerThanAll(rows, sequence)
    ensures var next := rows[key := rows[key].(sequence := sequence)];
            && Keyed(next)
            && HasKey(Recency(rows), key)
            && Recency(next) == MoveToFront(Recency(rows), key, sequence)
  {
    var l := Recency(rows);
    var at := ListedAt(rows, l, key);
    var rest := rows - {key};
    RestListing(rows, l, at);
    RecencyIs(rest, l[..at] + l[at + 1..]);
    var moved := rows[key].(sequence := sequence);
    InsertedList(rest, moved);
    assert rest[key := moved] == rows[key := moved];
    PositionAt(l, at);
  }

  lemma RestListing(rows: Rows, l: seq<Row>, at: nat)
    requires Listing(rows, l) && at < |l|
    ensures Listing(rows - {l[at].key}, l[..at] + l[at + 1..])
  {
    var m, rest := l[..at] + l[at + 1..], rows - {l[at].key};
    assert forall i :: 0 <= i < |m| ==> m[i] == l[if i < at then i else i + 1];
    forall i, j | 0 <= i < j < |m|
      ensures Ordered(m, i, j)
    {
      assert Ordered(l, if i < at then i else i + 1, if j < at then j else j + 1);
    }
    forall i | 0 <= i < |m|
      ensures Listed(rest, m[i])
    {
      var j := if i < at then i else i + 1;
      assert Listed(rows, l[j]);
      OneRowPerKey(l, at, j);
    }
    forall k | k in rest
      ensures HasKey(m, k)
    {
      var i := ListedAt(rows, l, k);
      assert m[if i < at then i else i - 1].key == k;
    }
  }

  /** UPDATE of a size leaves the order alone. */
  lemma ResizedList(rows: Rows, key: string, size: nat)
    requires Keyed(rows) && key in rows
    ensures var next := rows[key := rows[key].(size := size)];
            Keyed(next) && Recency(next) == SetSize(Recency(rows), key, size)
  {
    var l, next := Recency(rows), rows[key := rows[key].(size := size)];
    var m := SetSize(l, key, size);
    forall i, j | 0 <= i < j < |m|
      ensures Ordered(m, i, j)
    {
      assert Ordered(l, i, j);
    }
    var at := ListedAt(rows, l, key);
    PositionAt(l, at);
    forall i | 0 <= i < |m|
      ensures Listed(next, m[i])
    {
      assert Listed(rows, l[i]);
      OneRowPerKey(l, at, i);
    }
    forall k | k in next
      ensures HasKey(m, k)
    {
      var i := ListedAt(rows, l, k);
      assert m[i].key == k;
    }
    RecencyIs(next, m);
  }

  // ---------- the adapter ----------

  const NO_ROW := Row("", 0, 0)

  /** Another row than that of `key` already has the sequence number. */
  predicate SequenceTaken(rows: Rows, key: string, sequence: int) {
    exists k :: k in rows && k != key && rows[k].sequence == sequence
  }

  class SqliteLru {
    var rows: Rows
    var meta: Meta

    constructor (meta: Meta)
      ensures rows == map[] && this.meta == meta
    {
      rows, this.meta := map[], meta;
    }

    method InsertLru(r: Row) returns (e: Executed)
      modifies this`rows
      ensures e == if r.key in old(rows) || SequenceTaken(old(rows), r.key, r.sequence) then Violated else Changed(1)
      ensures rows == if e.Violated? then old(rows) else old(rows)[r.key := r]
    {
      if r.key in rows || SequenceTaken(rows, r.key, r.sequence) {
        return Violated;
      }
      rows := rows[r.key := r];
      e := Changed(1);
    }

    method UpdateLruSeq(key: string, sequence: int) returns (e: Executed)
      modifies this`rows
      ensures e == if key !in old(rows) then Changed(0)
                   else if SequenceTaken(old(rows), key, sequence) then Violated else Changed(1)
      ensures rows == if e == Changed(1) then old(rows)[key := old(rows)[key].(sequence := sequence)] else old(rows)
    {
      if key !in rows { return Changed(0); }
      if SequenceTaken(rows, key, sequence) { return Violated; }
      rows := rows[key := rows[key].(sequence := sequence)];
      e := Changed(1);
    }

    method UpdateLruContent(key: string, size: nat) returns (changed: nat)
      modifies this`rows
      ensures changed == if key in old(rows) then 1 else 0
      ensures rows == if key in old(rows) then old(rows)[key := old(rows)[key].(size := size)] else old(rows)
    {
      if key !in rows { return 0; }
      rows := rows[key := rows[key].(size := size)];
      changed := 1;
    }

    method UpdateMeta(m: Meta)
      modifies this`meta
      ensures meta == m
    {
      meta := m;
    }

    method QueryMeta() returns (m: Meta)
      ensures m == meta
    {
      m := meta;
    }

    /** A row with an empty key stands for "no such row". */
    method QueryLruSingle(key: string) returns (r: Row)
      ensures r == if key in rows then rows[key] else NO_ROW
    {
      r := if key in rows then rows[key] else NO_ROW;
    }

    method QueryLruNew() returns (r: Row)
      requires Keyed(rows)
      ensures r == if Recency(rows) == [] then NO_ROW else Recency(rows)[0]
    {
      if rows == map[] { return NO_ROW; }
      NewestExists(rows);
      var key :| IsNewest(rows, key);
      r := rows[key];
      var at := ListedAt(rows, Recency(rows), key);
      ListingHead(rows, Recency(rows));
      assert Ordered(Recency(rows), 0, at);
    }

    /** Deletes the row with the lowest sequence number and returns it. */
    method DeleteLruOld() returns (r: Row)
      requires Keyed(rows)
      modifies this`rows
      ensures Keyed(rows)
      ensures Recency(old(rows)) == [] ==> r == NO_ROW && rows == old(rows)
      ensures var l := Recency(old(rows));
              l != [] ==> r == l[|l| - 1] && Recency(rows) == l[..|l| - 1] && rows == old(rows) - {r.key}
    {
      if rows == map[] { return NO_ROW; }
      OldestExists(rows);
      var key :| IsOldest(rows, key);
      DeletedList(rows, key);
      r := rows[key];
      rows := rows - {key};
    }

    /** SQL_QUERY_ALL_LRU: every row, by ascending sequence number. */
    method SelectAllAscending() returns (raw: seq<Row>)
      requires Keyed(rows)
      ensures raw == Reversed(Recency(rows))
    {
      raw := [];
      var left := rows;
      ghost var l := Recency(rows);
      while left != map[]
        invariant Keyed(left)
        invariant |Recency(left)| + |raw| == |l|
        invariant Recency(left) == l[..|l| - |raw|]
        invariant raw == Reversed(l)[..|raw|]
        decreases |Recency(left)|
      {
        OldestExists(left);
        var key :| IsOldest(left, key);
        DeletedList(left, key);
        raw := raw + [left[key]];
        left := left - {key};
      }
      NoRowsNoList(left);
    }

    /** Turns the ascending rows around, so the newest comes first: exactly the recency list. */
    method QueryLruAll() returns (data: seq<Row>)
      requires Keyed(rows)
      ensures data == Recency(rows)
    {
      var raw := SelectAllAscending();
      data := [];
      ghost var l := Recency(rows);
      while raw != []
        invariant |data| + |raw| == |l|
        invariant raw == Reversed(l)[..|raw|]
        invariant data == l[..|data|]
      {
        data := data + [raw[|raw| - 1]];
        raw := raw[..|raw| - 1];
      }
    }
  }

  lemma NoRowsNoList(rows: Rows)
    requires Keyed(rows)
    ensures Recency(rows) == [] <==> rows == map[]
  {
    var l := Recency(rows);
    if rows != map[] {
      var k :| k in rows;
      var at := ListedAt(rows, l, k);
    }
  }
}
