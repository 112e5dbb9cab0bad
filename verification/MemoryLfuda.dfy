/** The in-memory LFU-DA cache (src/algo/algo_lfuda.cpp, src/algo/algo_lfuda.h): an ordered
    set of entries and a map from keys to positions in it.

    An iterator into a `std::set` is modelled by the entry it points to: entries of a set do
    not change in place, and a changed entry is extracted and inserted again. */
module MemoryLfuda {
  import opened LfudaRows
  import opened MachineWords
  import opened MemoryCache
  import opened RemoveCallback

  // ---------- Cache::operator< ----------

  /** `std::string` comparison. */
  predicate StringLess(a: string, b: string) {
    b != "" && (a == "" || a[0] < b[0] || (a[0] == b[0] && StringLess(a[1..], b[1..])))
  }

  predicate Less(a: Row, b: Row) {
    if a.eff != b.eff then a.eff < b.eff
    else if a.timestamp != b.timestamp then a.timestamp < b.timestamp
    else if a.size != b.size then a.size < b.size
    else StringLess(a.key, b.key)
  }

  /** Smaller at the first of eff, timestamp and size in which the entries differ; equal in all
      three, the keys decide. */
  lemma LessIsLexicographic(a: Row, b: Row)
    ensures a.eff < b.eff ==> Less(a, b)
    ensures a.eff == b.eff && a.timestamp < b.timestamp ==> Less(a, b)
    ensures a.eff == b.eff && a.timestamp == b.timestamp && a.size < b.size ==> Less(a, b)
    ensures a.eff == b.eff && a.timestamp == b.timestamp && a.size == b.size ==>
              (Less(a, b) <==> exists n :: FirstDifference(a.key, b.key, n))
  {
    StringLessIff(a.key, b.key);
  }

  /** The strings agree in their first `n` characters; then `a` ends, or has the smaller one. */
  predicate FirstDifference(a: string, b: string, n: nat) {
    n <= |a| && n < |b| && a[..n] == b[..n] && (n == |a| || a[n] < b[n])
  }

  lemma SameStart(a: string, b: string, n: nat)
    ensures FirstDifference(a, b, n) && n > 0 ==> a != "" && b != "" && a[0] == b[0]
  {
    if FirstDifference(a, b, n) && n > 0 { assert a[..n][0] == a[0] && b[..n][0] == b[0]; }
  }

  lemma {:induction false} StringLessIff(a: string, b: string)
    ensures StringLess(a, b) <==> exists n :: FirstDifference(a, b, n)
  {
    if a != "" && b != "" && a[0] == b[0] {
      StringLessIff(a[1..], b[1..]);
      if n: nat :| FirstDifference(a[1..], b[1..], n) { assert FirstDifference(a, b, n + 1); }
      if n: nat :| FirstDifference(a, b, n) {
        assert a[1..][..n - 1] == a[..n][1..] && b[1..][..n - 1] == b[..n][1..];
        assert FirstDifference(a[1..], b[1..], n - 1);
      }
    } else {
      forall n: nat
        ensures FirstDifference(a, b, n) ==> n == 0
      {
        SameStart(a, b, n);
      }
      if StringLess(a, b) { assert FirstDifference(a, b, 0); }
    }
  }

  /** What a `std::set` takes for the same element. */
  predicate Equivalent(a: Row, b: Row) {
    !Less(a, b) && !Less(b, a)
  }

  lemma {:induction false} StringTrichotomy(a: string, b: string)
    ensures !(StringLess(a, b) && StringLess(b, a))
    ensures StringLess(a, b) || StringLess(b, a) <==> a != b
  {
    if a != "" && b != "" {
      StringTrichotomy(a[1..], b[1..]);
      assert a == [a[0]] + a[1..] && b == [b[0]] + b[1..];
    }
  }

  lemma {:induction false} StringTransitive(a: string, b: string, c: string)
    requires StringLess(a, b) && StringLess(b, c)
    ensures StringLess(a, c)
  {
    if a != "" && a[0] == b[0] == c[0] { StringTransitive(a[1..], b[1..], c[1..]); }
  }

  /** `operator<` is a strict order, and total on entries with different keys: equivalent
      entries have the same key. */
  lemma LessIsTotalOrder(a: Row, b: Row, c: Row)
    ensures !Less(a, a)
    ensures Less(a, b) ==> !Less(b, a)
    ensures Less(a, b) && Less(b, c) ==> Less(a, c)
    ensures Equivalent(a, b) <==> a == b.(freq := a.freq)
  {
    StringTrichotomy(a.key, a.key);
    StringTrichotomy(a.key, b.key);
    if StringLess(a.key, b.key) && StringLess(b.key, c.key) { StringTransitive(a.key, b.key, c.key); }
  }

  /** The element `begin()` points to. */
  predicate First(entries: set<Row>, r: Row) {
    r in entries && forall e :: e in entries ==> !Less(e, r)
  }

  lemma {:induction false} FirstExists(entries: set<Row>)
    requires entries != {}
    ensures exists r :: First(entries, r)
  {
    var e :| e in entries;
    var rest := entries - {e};
    if rest == {} {
      assert entries == {e};
      LessIsTotalOrder(e, e, e);
      assert First(entries, e);
    } else {
      FirstExists(rest);
      var m :| First(rest, m);
      var best := if Less(e, m) then e else m;
      forall x | x in entries
        ensures !Less(x, best)
      {
        LessIsTotalOrder(x, e, m);
        LessIsTotalOrder(e, x, m);
        assert x == e || x in rest;
      }
      assert First(entries, best);
    }
  }

  // ---------- map and set ----------

  predicate KeyAgrees(index: Rows, entries: set<Row>, k: string) {
    k in index ==> index[k].key == k && index[k] in entries
  }

  predicate EntryAgrees(index: Rows, r: Row) {
    r.key in index && index[r.key] == r
  }

  /** The map and the set hold the same entries, one per key. */
  ghost predicate Agree(index: Rows, entries: set<Row>) {
    && (forall k :: KeyAgrees(index, entries, k))
    && forall r :: r in entries ==> EntryAgrees(index, r)
  }

  lemma AgreeRemove(index: Rows, entries: set<Row>, r: Row)
    requires Agree(index, entries) && r in entries
    ensures Agree(index - {r.key}, entries - {r})
  {
    assert EntryAgrees(index, r);
    var fewer := index - {r.key};
    forall k
      ensures KeyAgrees(fewer, entries - {r}, k)
    {
      assert KeyAgrees(index, entries, k);
    }
    forall e | e in entries - {r}
      ensures EntryAgrees(fewer, e)
    {
      assert EntryAgrees(index, e);
    }
  }

  lemma AgreeInsert(index: Rows, entries: set<Row>, r: Row)
    requires Agree(index, entries) && r.key !in index
    ensures forall e :: e in entries ==> !Equivalent(e, r)
    ensures Agree(index[r.key := r], entries + {r})
  {
    var more := index[r.key := r];
    forall e | e in entries
      ensures !Equivalent(e, r) && EntryAgrees(more, e)
    {
      assert EntryAgrees(index, e);
      LessIsTotalOrder(e, r, r);
    }
    forall k
      ensures KeyAgrees(more, entries + {r}, k)
    {
      assert KeyAgrees(index, entries, k);
    }
  }

  // ---------- eviction ----------

  /** Rows leave least first, each while the limit is exceeded. */
  ghost predicate Evicts(index: Rows, cacheSize: nat, required: nat, maxSize: nat, removed: seq<Row>) {
    removed != [] ==>
      var before, r := removed[..|removed| - 1], removed[|removed| - 1];
      && Evicts(index, cacheSize, required, maxSize, before)
      && SizeWithout(cacheSize, before) + required > maxSize
      && r.key in Without(index, before) && Without(index, before)[r.key] == r
      && forall k :: k in Without(index, before) ==> !Less(Without(index, before)[k], r)
  }

  /** Eviction went on until the rest fits, or nothing was left. */
  ghost predicate EvictsUntilFits(index: Rows, cacheSize: nat, required: nat, maxSize: nat, removed: seq<Row>) {
    && Evicts(index, cacheSize, required, maxSize, removed)
    && (Without(index, removed) == map[] || SizeWithout(cacheSize, removed) + required <= maxSize)
  }

  function Without(index: Rows, removed: seq<Row>): Rows {
    if removed == [] then index
    else Without(index, removed[..|removed| - 1]) - {removed[|removed| - 1].key}
  }

  function SizeWithout(cacheSize: nat, removed: seq<Row>): nat {
    if removed == [] then cacheSize
    else
      var left := SizeWithout(cacheSize, removed[..|removed| - 1]);
      if left >= removed[|removed| - 1].size then left - removed[|removed| - 1].size else 0
  }

  function LastEff(removed: seq<Row>, otherwise: nat): nat {
    if removed == [] then otherwise else removed[|removed| - 1].eff
  }

  function Members(caches: seq<Row>): set<Row> {
    set r | r in caches
  }

  lemma MembersAppend(a: seq<Row>, b: seq<Row>)
    ensures Members(a + b) == Members(a) + Members(b)
    ensures |b| == 1 ==> Members(b) == {b[0]}
    ensures |a| == 1 ==> Members(a) == {a[0]}
  {
  }

  // ---------- taking entries over ----------

  function KeysOf(caches: seq<Row>): set<string> {
    set r | r in caches :: r.key
  }

  /** An equivalent element keeps a new one out. */
  function Emplace(entries: set<Row>, r: Row): set<Row> {
    if exists e :: e in entries && Equivalent(e, r) then entries else entries + {r}
  }

  /** Inserting from the back. */
  function Emplaced(entries: set<Row>, caches: seq<Row>): set<Row> {
    if caches == [] then entries else Emplace(Emplaced(entries, caches[1..]), caches[0])
  }

  /** No key is repeated, and none is there already. */
  predicate AllNew(caches: seq<Row>, index: Rows) {
    caches != [] ==>
      && caches[0].key !in index && caches[0].key !in KeysOf(caches[1..])
      && AllNew(caches[1..], index)
  }

  lemma {:induction false} DistinctNew(caches: seq<Row>)
    requires forall i, j :: 0 <= i < j < |caches| ==> caches[i].key != caches[j].key
    ensures AllNew(caches, map[])
  {
    if caches != [] {
      assert forall i :: 0 <= i < |caches| - 1 ==> caches[1..][i] == caches[i + 1];
      DistinctNew(caches[1..]);
    }
  }

  predicate NoneEmpty(entries: set<Row>) {
    forall e :: e in entries ==> e.size > 0
  }

  /** Among `pool` there is nothing with the key of `r` but empty entries equivalent to it. */
  predicate SameOnly(pool: set<Row>, r: Row) {
    forall e :: e in pool && e.key == r.key ==> Equivalent(e, r) && r.size == 0
  }

  /** Taken from the back, no entry meets another one of its key that counts. */
  predicate Harmless(earlier: set<Row>, caches: seq<Row>) {
    caches != [] ==> SameOnly(earlier + Members(caches[1..]), caches[0]) && Harmless(earlier, caches[1..])
  }

  function TotalSize(caches: seq<Row>): nat {
    if caches == [] then 0 else caches[0].size + TotalSize(caches[1..])
  }

  /** Entry `i` is the first of its key. */
  predicate Foremost(caches: seq<Row>, i: int) {
    0 <= i < |caches| && caches[i].key !in KeysOf(caches[..i])
  }

  /** A key taken over leads to the set's element for the first entry of that key; the others
      lead where they did. */
  ghost predicate Leads(index: Rows, caches: seq<Row>, before: Rows) {
    && (forall k :: k in index && k !in KeysOf(caches) ==> k in before && index[k] == before[k])
    && (forall i :: Foremost(caches, i) ==> caches[i].key in index && Equivalent(index[caches[i].key], caches[i]))
  }

  /** `init` on its way: `behind` has been taken over. */
  ghost predicate TakingOver(index: Rows, entries: set<Row>, size: nat, behind: seq<Row>, before: Rows,
                             earlier: set<Row>, bytes: nat)
  {
    && entries == Emplaced(earlier, behind) && index.Keys == before.Keys + KeysOf(behind)
    && size == bytes + TotalSize(behind) && Leads(index, behind, before)
    && Linked(index, entries) && Covers(entries, earlier + Members(behind))
    && Balanced(index, entries, size, Harmless(earlier, behind))
    && (AllNew(behind, before) ==> Harmless(earlier, behind) && entries == earlier + Members(behind))
    && (NoneEmpty(Members(behind)) && Harmless(earlier, behind) ==> AllNew(behind, before))
  }

  /** The map finds an entry of the set for every key in the set, but perhaps not each entry. */
  predicate Linked(index: Rows, entries: set<Row>) {
    && (forall k :: k in index ==> index[k].key == k && index[k] in entries)
    && forall e :: e in entries ==> e.key in index
  }

  predicate StandsFor(entries: set<Row>, pool: set<Row>, x: Row) {
    x in pool ==> exists e :: e in entries && Equivalent(e, x)
  }

  /** Every entry of `pool`, and nothing else, is in the set, up to equivalence. */
  ghost predicate Covers(entries: set<Row>, pool: set<Row>) {
    entries <= pool && forall x :: StandsFor(entries, pool, x)
  }

  predicate TwoOfOneKey(entries: set<Row>) {
    exists a, b :: a in entries && b in entries && a != b && a.key == b.key
  }

  /** Map, set and size agree, or two entries have one key, or an entry was counted twice. */
  ghost predicate Balanced(index: Rows, entries: set<Row>, size: nat, harmless: bool) {
    && size >= Sum(Bytes, index)
    && if harmless then Agree(index, entries) && size == Sum(Bytes, index)
       else TwoOfOneKey(entries) || size > Sum(Bytes, index)
  }

  lemma AgreeLinked(index: Rows, entries: set<Row>)
    requires Agree(index, entries)
    ensures Linked(index, entries)
  {
    forall k | k in index
      ensures index[k].key == k && index[k] in entries
    {
      assert KeyAgrees(index, entries, k);
    }
    forall e | e in entries
      ensures e.key in index
    {
      assert EntryAgrees(index, e);
    }
  }

  lemma OneEntryPerKey(index: Rows, entries: set<Row>)
    requires Agree(index, entries)
    ensures !TwoOfOneKey(entries)
  {
    forall a, b | a in entries && b in entries && a != b
      ensures a.key != b.key
    {
      assert EntryAgrees(index, a) && EntryAgrees(index, b);
    }
  }

  lemma TakesNone(index: Rows, entries: set<Row>, size: nat, caches: seq<Row>)
    requires Agree(index, entries) && size == Sum(Bytes, index)
    ensures TakingOver(index, entries, size, caches[|caches|..], index, entries, size)
  {
    hide Linked, Covers, Agree, Less, Equivalent, Sum, Leads, Emplaced, Harmless, AllNew, TotalSize, Members, KeysOf;
    hide NoneEmpty;
    AgreeLinked(index, entries);
    CoversItself(entries);
    NothingBehind(index, entries, caches);
  }

  lemma NothingBehind(index: Rows, entries: set<Row>, caches: seq<Row>)
    ensures var none := caches[|caches|..];
            && Emplaced(entries, none) == entries && KeysOf(none) == {} && index.Keys + KeysOf(none) == index.Keys
            && TotalSize(none) == 0 && Leads(index, none, index) && entries + Members(none) == entries
            && Harmless(entries, none) && AllNew(none, index)
  {
    hide Less, Equivalent, Sum;
    assert caches[|caches|..] == [];
  }

  lemma CoversItself(entries: set<Row>)
    ensures Covers(entries, entries)
  {
    hide Less, Equivalent;
    forall x
      ensures StandsFor(entries, entries, x)
    {
      EquivalentToItself(x);
      assert Equivalent(x, x);
    }
  }

  lemma EquivalentToItself(r: Row)
    ensures Equivalent(r, r)
  {
    LessIsTotalOrder(r, r, r);
  }

  lemma Covered(entries: set<Row>, pool: set<Row>, x: Row) returns (e: Row)
    requires Covers(entries, pool) && x in pool
    ensures e in entries && Equivalent(e, x) && e.key == x.key
  {
    hide Less, Equivalent;
    assert StandsFor(entries, pool, x);
    e :| e in entries && Equivalent(e, x);
    LessIsTotalOrder(e, x, x);
  }

  lemma InPool(entries: set<Row>, pool: set<Row>, e: Row)
    ensures Covers(entries, pool) && e in entries ==> e in pool
  {
  }

  lemma LinkedKey(index: Rows, entries: set<Row>, k: string)
    ensures Linked(index, entries) && k in index ==> index[k].key == k && index[k] in entries
  {
  }

  lemma LinkedEntry(index: Rows, entries: set<Row>, e: Row)
    ensures Linked(index, entries) && e in entries ==> e.key in index
  {
  }

  lemma TakesAll(index: Rows, entries: set<Row>, size: nat, caches: seq<Row>, before: Rows, earlier: set<Row>,
                 bytes: nat)
    requires TakingOver(index, entries, size, caches[0..], before, earlier, bytes)
    ensures entries == Emplaced(earlier, caches) && index.Keys == before.Keys + KeysOf(caches)
    ensures size == bytes + TotalSize(caches) && Leads(index, caches, before)
    ensures Agree(index, entries) && size == Sum(Bytes, index) <==> Harmless(earlier, caches)
    ensures AllNew(caches, before) ==> Harmless(earlier, caches) && entries == earlier + Members(caches)
    ensures NoneEmpty(Members(caches)) ==> (Harmless(earlier, caches) <==> AllNew(caches, before))
  {
    hide Leads, Emplaced, Harmless, Agree, TwoOfOneKey, AllNew, Sum, Linked, Covers, TotalSize, Members;
    assert caches[0..] == caches;
    if Agree(index, entries) { OneEntryPerKey(index, entries); }
  }

  lemma TakesOne(index: Rows, entries: set<Row>, size: nat, caches: seq<Row>, n: nat, before: Rows, earlier: set<Row>,
                 bytes: nat, position: Row)
    requires 0 < n <= |caches| && TakingOver(index, entries, size, caches[n..], before, earlier, bytes)
    requires position in Emplace(entries, caches[n - 1]) && Equivalent(position, caches[n - 1])
    requires (forall e :: e in entries ==> !Equivalent(e, caches[n - 1])) ==> position == caches[n - 1]
    ensures TakingOver(index[caches[n - 1].key := position], Emplace(entries, caches[n - 1]), size + caches[n - 1].size,
                       caches[n - 1..], before, earlier, bytes)
  {
    hide Linked, NoneEmpty, Sum, Emplace, Emplaced, AllNew, Members, KeysOf, Equivalent, Less, Agree, Leads, Covers;
    hide Balanced, Harmless, SameOnly, TotalSize;
    var r, behind := caches[n - 1], caches[n..];
    var pool := earlier + Members(behind);
    assert caches[n - 1..] == [r] + behind;
    Headed(r, behind, before, earlier);
    EmplacedOne(entries, r, position);
    LinkedWrite(index, entries, Emplace(entries, r), r.key, position);
    CoversOne(entries, pool, r);
    LeadsOne(index, behind, before, r, position);
    Meets(index, entries, pool, r);
    if Harmless(earlier, behind) && SameOnly(pool, r) {
      StaysBalanced(index, entries, size, pool, r, position);
    } else if !Harmless(earlier, behind) {
      StaysSpoilt(index, entries, size, r, position);
    } else {
      GetsSpoilt(index, entries, size, pool, r, position);
    }
  }

  lemma Headed(r: Row, behind: seq<Row>, before: Rows, earlier: set<Row>)
    ensures KeysOf([r] + behind) == KeysOf(behind) + {r.key}
    ensures AllNew([r] + behind, before) <==> r.key !in before && r.key !in KeysOf(behind) && AllNew(behind, before)
    ensures Emplaced(earlier, [r] + behind) == Emplace(Emplaced(earlier, behind), r)
    ensures Harmless(earlier, [r] + behind) <==> SameOnly(earlier + Members(behind), r) && Harmless(earlier, behind)
    ensures TotalSize([r] + behind) == TotalSize(behind) + r.size
    ensures earlier + Members([r] + behind) == earlier + Members(behind) + {r}
    ensures NoneEmpty(Members([r] + behind)) <==> r.size > 0 && NoneEmpty(Members(behind))
  {
    hide Less;
    assert ([r] + behind)[1..] == behind;
    assert forall x :: x in [r] + behind <==> x == r || x in behind;
    NoneEmptyMore(r, behind);
  }

  lemma NoneEmptyMore(r: Row, behind: seq<Row>)
    ensures NoneEmpty(Members([r] + behind)) <==> r.size > 0 && NoneEmpty(Members(behind))
  {
    assert forall x :: x in Members([r] + behind) <==> x == r || x in Members(behind);
  }

  lemma EmplacedOne(entries: set<Row>, r: Row, position: Row)
    requires Equivalent(position, r)
    ensures position.key == r.key && position.size == r.size
    ensures Emplace(entries, r) == entries || Emplace(entries, r) == entries + {r}
    ensures (forall e :: e in entries ==> !Equivalent(e, r)) ==> Emplace(entries, r) == entries + {r}
  {
    LessIsTotalOrder(position, r, r);
  }

  lemma LinkedWrite(index: Rows, entries: set<Row>, after: set<Row>, k: string, position: Row)
    requires Linked(index, entries) && position in after && position.key == k
    requires entries <= after && forall e :: e in after ==> e in entries || e.key == k
    ensures Linked(index[k := position], after)
  {
  }

  lemma CoversOne(entries: set<Row>, pool: set<Row>, r: Row)
    requires Covers(entries, pool)
    ensures Covers(Emplace(entries, r), pool + {r})
  {
    hide Less;
    LessIsTotalOrder(r, r, r);
    forall x
      ensures StandsFor(Emplace(entries, r), pool + {r}, x)
    {
      if x in pool && x != r {
        assert StandsFor(entries, pool, x);
        var e :| e in entries && Equivalent(e, x);
        assert e in Emplace(entries, r);
      }
    }
  }

  lemma LeadsOne(index: Rows, behind: seq<Row>, before: Rows, r: Row, position: Row)
    requires Leads(index, behind, before) && Equivalent(position, r) && position.key == r.key
    ensures Leads(index[r.key := position], [r] + behind, before)
  {
    hide Equivalent;
    var all, map' := [r] + behind, index[r.key := position];
    assert forall x :: x in all <==> x == r || x in behind;
    forall i | Foremost(all, i)
      ensures all[i].key in map' && Equivalent(map'[all[i].key], all[i])
    {
      if i > 0 {
        assert all[..i] == [r] + behind[..i - 1] && all[i] == behind[i - 1];
        assert forall x :: x in all[..i] <==> x == r || x in behind[..i - 1];
        assert r in all[..i] && r.key in KeysOf(all[..i]);
        assert Foremost(behind, i - 1);
      }
    }
  }

  /** A key that is not in the map is nowhere in the pool. */
  lemma Meets(index: Rows, entries: set<Row>, pool: set<Row>, r: Row)
    requires Linked(index, entries) && Covers(entries, pool)
    ensures r.key !in index ==> SameOnly(pool, r) && forall e :: e in entries ==> !Equivalent(e, r)
    ensures r.key in index ==> index[r.key] in pool && index[r.key].key == r.key
    ensures r.key in index && r.size > 0 ==> !SameOnly(pool, r)
  {
    hide Less, Equivalent, Linked, Covers;
    LinkedKey(index, entries, r.key);
    if r.key in index {
      InPool(entries, pool, index[r.key]);
    } else {
      forall x | x in pool
        ensures x.key != r.key
      {
        var e := Covered(entries, pool, x);
        LinkedEntry(index, entries, e);
      }
      forall e | e in entries
        ensures !Equivalent(e, r)
      {
        LinkedEntry(index, entries, e);
        LessIsTotalOrder(e, r, r);
      }
    }
  }

  lemma StaysBalanced(index: Rows, entries: set<Row>, size: nat, pool: set<Row>, r: Row, position: Row)
    requires Linked(index, entries) && Covers(entries, pool)
    requires Balanced(index, entries, size, true) && SameOnly(pool, r)
    requires position in Emplace(entries, r) && Equivalent(position, r) && position.key == r.key
    requires (forall e :: e in entries ==> !Equivalent(e, r)) ==> position == r && Emplace(entries, r) == entries + {r}
    ensures Balanced(index[r.key := position], Emplace(entries, r), size + r.size, true)
  {
    hide Less, Equivalent, Agree, Sum, Linked, Covers;
    Meets(index, entries, pool, r);
    LinkedKey(index, entries, r.key);
    if r.key in index {
      assert Emplace(entries, r) == entries;
      SameEntry(index, entries, position);
      assert index[r.key := position] == index;
    } else {
      AgreeInsert(index, entries, r);
      SumWrite(Bytes, index, r.key, r);
    }
  }

  lemma SameEntry(index: Rows, entries: set<Row>, e: Row)
    requires Agree(index, entries) && e in entries
    ensures e.key in index && index[e.key] == e
  {
    assert EntryAgrees(index, e);
  }

  lemma StaysSpoilt(index: Rows, entries: set<Row>, size: nat, r: Row, position: Row)
    requires Balanced(index, entries, size, false)
    requires position.size == r.size
    ensures Balanced(index[r.key := position], Emplace(entries, r), size + r.size, false)
  {
    hide Less, Equivalent, Sum;
    SumWrite(Bytes, index, r.key, position);
    if TwoOfOneKey(entries) {
      var a, b :| a in entries && b in entries && a != b && a.key == b.key;
      assert a in Emplace(entries, r) && b in Emplace(entries, r);
    }
  }

  lemma GetsSpoilt(index: Rows, entries: set<Row>, size: nat, pool: set<Row>, r: Row, position: Row)
    requires Linked(index, entries) && Covers(entries, pool)
    requires Balanced(index, entries, size, true) && !SameOnly(pool, r)
    requires position.size == r.size
    requires (forall e :: e in entries ==> !Equivalent(e, r)) ==> Emplace(entries, r) == entries + {r}
    ensures Balanced(index[r.key := position], Emplace(entries, r), size + r.size, false)
  {
    hide Less, Equivalent, Sum, Agree, Linked, Covers;
    Meets(index, entries, pool, r);
    LinkedKey(index, entries, r.key);
    SumWrite(Bytes, index, r.key, position);
    var p := index[r.key];
    if p.size == 0 {
      LessIsTotalOrder(r, r, r);
      if e :| e in entries && Equivalent(e, r) {
        LessIsTotalOrder(e, r, r);
        SameEntry(index, entries, e);
        EquivalentToAll(index, entries, pool, r);
      } else {
        assert r in Emplace(entries, r) && p in Emplace(entries, r);
      }
    }
  }

  /** When the map and the set agree, the entry of a key stands for all of that key. */
  lemma EquivalentToAll(index: Rows, entries: set<Row>, pool: set<Row>, r: Row)
    requires Agree(index, entries) && Covers(entries, pool) && r.key in index && Equivalent(index[r.key], r)
    ensures r.size == 0 ==> SameOnly(pool, r)
  {
    hide Less, Equivalent, Agree, Covers;
    forall x | x in pool && x.key == r.key
      ensures Equivalent(x, r)
    {
      var e := Covered(entries, pool, x);
      LessIsTotalOrder(e, x, x);
      SameEntry(index, entries, e);
      LessIsTotalOrder(e, r, r);
      LessIsTotalOrder(x, r, r);
    }
  }

  lemma HandOver(entries: set<Row>, handed: set<Row>, r: Row)
    ensures r in entries ==> entries + handed == (entries - {r}) + (handed + {r})
  {
  }

  lemma NothingAgrees()
    ensures Agree(map[], {}) && Sum(Bytes, map[]) == 0
  {
  }

  lemma NothingHandedOut(entries: set<Row>)
    ensures Members([]) == {} && Ascending([]) && AllBelow([], entries)
  {
  }

  predicate Ascending(caches: seq<Row>) {
    forall i, j :: 0 <= i < j < |caches| ==> Less(caches[i], caches[j]) && caches[i].key != caches[j].key
  }

  predicate AllBelow(caches: seq<Row>, entries: set<Row>) {
    forall i, e :: 0 <= i < |caches| && e in entries ==> Less(caches[i], e) && caches[i].key != e.key
  }

  lemma NextInOrder(index: Rows, all: set<Row>, caches: seq<Row>, entries: set<Row>, begin: Row)
    requires Agree(index, all) && entries <= all && First(entries, begin)
    requires Ascending(caches) && AllBelow(caches, entries)
    ensures begin in entries && Ascending(caches + [begin]) && AllBelow(caches + [begin], entries - {begin})
  {
    forall e | e in entries && e != begin
      ensures Less(begin, e) && begin.key != e.key
    {
      assert EntryAgrees(index, e) && EntryAgrees(index, begin);
      LessIsTotalOrder(begin, e, e);
    }
  }

  class Lfuda {
    var maxSize: nat
    var cacheSize: nat
    var aging: nat
    var cacheBst: set<Row>
    var cacheMap: Rows
    /** The vectors handed to the remove callback so far. */
    var removals: seq<seq<Row>>

    ghost predicate Valid()
      reads this
    {
      Agree(cacheMap, cacheBst) && cacheSize == Sum(Bytes, cacheMap)
    }

    constructor (size: nat)
      requires size > 0
      ensures Valid() && cacheMap == map[] && cacheBst == {} && maxSize == size && aging == 0 && cacheSize == 0
      ensures removals == [] && Level(cacheMap, aging)
    {
      maxSize, cacheSize, aging, cacheBst, cacheMap, removals := size, 0, 0, {}, map[], [];
    }

    /** `emplace` and node `insert`: an equivalent element keeps the new one out. */
    method BstInsert(r: Row) returns (position: Row)
      modifies this`cacheBst
      ensures cacheBst == Emplace(old(cacheBst), r)
      ensures position in cacheBst && Equivalent(position, r)
      ensures (forall e :: e in old(cacheBst) ==> !Equivalent(e, r)) ==>
                position == r && cacheBst == old(cacheBst) + {r}
    {
      if e :| e in cacheBst && Equivalent(e, r) {
        return e;
      }
      LessIsTotalOrder(r, r, r);
      cacheBst := cacheBst + {r};
      position := r;
    }

    /** Takes entries from the back of `caches` and counts their sizes.  Map, set and size agree
        afterwards exactly when no entry met another one of its key, but for empty equivalent
        ones; entries with new keys simply join those that are there. */
    method Init(caches: seq<Row>, age: nat)
      requires Valid()
      modifies this
      ensures aging == age && maxSize == old(maxSize) && removals == old(removals)
      ensures cacheBst == Emplaced(old(cacheBst), caches)
      ensures cacheMap.Keys == old(cacheMap).Keys + KeysOf(caches) && Leads(cacheMap, caches, old(cacheMap))
      ensures cacheSize == old(cacheSize) + TotalSize(caches)
      ensures Valid() <==> Harmless(old(cacheBst), caches)
      ensures AllNew(caches, old(cacheMap)) ==> Valid() && cacheBst == old(cacheBst) + Members(caches)
      ensures NoneEmpty(Members(caches)) ==> (Valid() <==> AllNew(caches, old(cacheMap)))
    {
      hide Leads, Harmless, TotalSize, TakingOver, Equivalent, Agree, Sum, Emplace, Emplaced, AllNew, Less, Members;
      ghost var index, entries, bytes := cacheMap, cacheBst, cacheSize;
      var left := caches;
      TakesNone(index, entries, cacheSize, caches);
      while left != []
        invariant left <= caches
        invariant maxSize == old(maxSize) && removals == old(removals)
        invariant TakingOver(cacheMap, cacheBst, cacheSize, caches[|left|..], index, entries, bytes)
      {
        var back := left[|left| - 1];
        ghost var found := cacheBst;
        var position := BstInsert(back);
        TakesOne(cacheMap, found, cacheSize, caches, |left|, index, entries, bytes, position);
        cacheMap := cacheMap[back.key := position];
        cacheSize := cacheSize + back.size;
        left := left[..|left| - 1];
      }
      TakesAll(cacheMap, cacheBst, cacheSize, caches, index, entries, bytes);
      aging := age;
    }

    /** Hands out every entry, least first, and leaves the object empty. */
    method Backup() returns (caches: seq<Row>, age: nat)
      requires Valid()
      modifies this
      ensures Valid() && cacheMap == map[] && age == aging == old(aging) && maxSize == old(maxSize)
      ensures old(cacheBst) == Members(caches)
      ensures Ascending(caches)
    {
      hide Ascending, AllBelow, Members, Less, Agree, Sum, First;
      NothingAgrees();
      caches := [];
      NothingHandedOut(cacheBst);
      ghost var all := cacheMap;
      cacheMap := map[];
      cacheSize := 0;
      while cacheBst != {}
        invariant cacheBst <= old(cacheBst) && aging == old(aging) && maxSize == old(maxSize)
        invariant cacheMap == map[] && cacheSize == 0
        invariant old(cacheBst) == cacheBst + Members(caches)
        invariant Ascending(caches) && AllBelow(caches, cacheBst)
        decreases |cacheBst|
      {
        FirstExists(cacheBst);
        var begin :| First(cacheBst, begin);
        NextInOrder(all, old(cacheBst), caches, cacheBst, begin);
        MembersAppend(caches, [begin]);
        HandOver(cacheBst, Members(caches), begin);
        caches := caches + [begin];
        cacheBst := cacheBst - {begin};
      }
      age := aging;
    }

    /** Erases least entries until `required` more bytes fit, or none is left. */
    method RemoveCache(required: nat) returns (ghost victims: seq<Row>)
      requires Valid()
      modifies this
      ensures Valid() && maxSize == old(maxSize)
      ensures EvictsUntilFits(old(cacheMap), old(cacheSize), required, maxSize, victims)
      ensures cacheMap == Without(old(cacheMap), victims) && cacheSize == SizeWithout(old(cacheSize), victims)
      ensures aging == if victims == [] then old(aging) else victims[|victims| - 1].eff
      ensures cacheMap == map[] || cacheSize + required <= maxSize
      ensures removals == Logged(old(removals), victims)
      ensures old(Level(cacheMap, aging)) ==> Level(cacheMap, aging) && old(aging) <= aging
    {
      hide Evicts, Without, SizeWithout, Agree, First, Less, Sum, Level;
      var removed: seq<Row> := [];
      ghost var all, total := cacheMap, cacheSize;
      EvictsNone(all, total, required, maxSize);
      while cacheMap != map[] && cacheSize + required > maxSize
        invariant Valid() && maxSize == old(maxSize) && removals == old(removals)
        invariant Evicts(all, total, required, maxSize, removed)
        invariant cacheMap == Without(all, removed) && cacheSize == SizeWithout(total, removed)
        invariant aging == LastEff(removed, old(aging))
        decreases |cacheMap|
      {
        NotEmpty(cacheMap, cacheBst);
        FirstExists(cacheBst);
        var it :| First(cacheBst, it);
        EvictsOneMore(all, total, required, maxSize, removed, cacheBst, it);
        AgreeRemove(cacheMap, cacheBst, it);
        SumSmaller(cacheMap, it.key);
        SumWithout(Bytes, cacheMap, it.key);
        aging := it.eff;
        cacheSize := cacheSize - it.size;
        removed := removed + [it];
        cacheMap := cacheMap - {it.key};
        cacheBst := cacheBst - {it};
      }
      if removed != [] { removals := removals + [removed]; }
      if Level(all, old(aging)) { EvictionKeepsLevel(all, old(aging), total, required, maxSize, removed); }
      victims := removed;
    }

    /** An absent key is inserted with `freq` 1 at the level the evictions leave.  A key that is
        present keeps its counters, and its entry grows to the larger size. */
    method Put(r: Row) returns (outcome: Outcome, ghost victims: seq<Row>)
      requires Valid()
      modifies this
      ensures Valid() && maxSize == old(maxSize) && removals == Logged(old(removals), victims)
      ensures aging == if victims == [] then old(aging) else victims[|victims| - 1].eff
      ensures Rejects(old(cacheMap), r) ==>
                && outcome == (if r.key == "" then Threw(NullKey) else Returned(false))
                && victims == [] && cacheMap == old(cacheMap)
      ensures !Rejects(old(cacheMap), r) && r.key !in old(cacheMap) ==>
                && outcome == Returned(true) && EvictsUntilFits(old(cacheMap), old(cacheSize), r.size, maxSize, victims)
                && cacheMap == Without(old(cacheMap), victims)[r.key := r.(freq := 1, eff := aging + 1)]
      ensures !Rejects(old(cacheMap), r) && r.key in old(cacheMap) ==>
                && Rewrites(old(cacheMap), old(cacheSize), r.key, r.size, maxSize, victims)
                && cacheMap == Rewritten(old(cacheMap), victims, r.key, r.size)
                && outcome == if Outgrows(old(cacheMap), r.key, r.size, maxSize) then ErasedIterator
                              else Returned(false)
      ensures outcome == Returned(true) <==> r.key != "" && r.size > 0 && r.key !in old(cacheMap)
      ensures r.key in old(cacheMap) && r.size > old(cacheMap)[r.key].size && outcome == Returned(false) ==>
                r.key in cacheMap && cacheMap[r.key] == old(cacheMap)[r.key].(size := r.size)
      ensures old(Fits(cacheSize, cacheMap, maxSize)) || outcome == Returned(true) ==>
                Fits(cacheSize, cacheMap, maxSize)
      ensures old(Level(cacheMap, aging)) ==> Level(cacheMap, aging) && old(aging) <= aging
    {
      hide Evicts, EvictsUntilFits, Without, Agree, Less, Equivalent, Sum, Rewrites, Rewritten, Outgrows, Level;
      victims := [];
      if r.key == "" { return Threw(NullKey), []; }
      if r.size == 0 { return Returned(false), []; }
      if r.key !in cacheMap {
        victims := RemoveCache(r.size);
        WithoutKeeps(old(cacheMap), victims, r.key);
        cacheSize := cacheSize + r.size;
        var tmp := r.(freq := 1, eff := aging + 1);
        AgreeInsert(cacheMap, cacheBst, tmp);
        SumWrite(Bytes, cacheMap, r.key, tmp);
        if Level(cacheMap, aging) { LevelWrite(cacheMap, aging, r.key, tmp); }
        OnlyOne(cacheMap, r.key, tmp);
        var position := BstInsert(tmp);
        cacheMap := cacheMap[r.key := position];
        return Returned(true), victims;
      }
      if r.size > cacheMap[r.key].size {
        var survived;
        survived, victims := UpdateSize(r.key, r.size);
        return if survived then Returned(false) else ErasedIterator, victims;
      }
      return Returned(false), [];
    }

    /** Extracts the node, rewrites its size and inserts it again.  The source has no test that
        eviction spared the node: the model ends there and says so. */
    method UpdateSize(key: string, size: nat) returns (survived: bool, ghost victims: seq<Row>)
      requires Valid() && key in cacheMap
      modifies this
      ensures Valid() && maxSize == old(maxSize) && removals == Logged(old(removals), victims)
      ensures aging == if victims == [] then old(aging) else victims[|victims| - 1].eff
      ensures Rewrites(old(cacheMap), old(cacheSize), key, size, maxSize, victims)
      ensures cacheMap == Rewritten(old(cacheMap), victims, key, size)
      ensures survived == (key in cacheMap)
      ensures survived ==> cacheMap[key] == old(cacheMap)[key].(size := size)
      ensures survived <==> !Outgrows(old(cacheMap), key, size, maxSize)
      ensures old(Fits(cacheSize, cacheMap, maxSize)) ==> Fits(cacheSize, cacheMap, maxSize)
      ensures old(Level(cacheMap, aging)) ==> Level(cacheMap, aging) && old(aging) <= aging
    {
      hide Evicts, EvictsUntilFits, Without, Agree, Equivalent, Sum, Outgrows, Level;
      var it := cacheMap[key];
      victims := [];
      WithoutNone(cacheMap);
      NothingAgrees();
      if size > it.size { victims := RemoveCache(size - it.size); }
      WithoutKeeps(old(cacheMap), victims, key);
      OutgrowsIff(old(cacheMap), old(cacheBst), key, size, maxSize, victims);
      if key !in cacheMap { return false, victims; }
      var tmp := it.(size := size);
      Reinserted(cacheMap, cacheBst, key, tmp);
      if Level(cacheMap, aging) { LevelWrite(cacheMap, aging, key, tmp); }
      cacheSize := cacheSize - it.size + size;
      cacheBst := cacheBst - {it};
      var position := BstInsert(tmp);
      cacheMap := cacheMap[key := position];
      survived := true;
    }

    method Update(key: string, size: nat) returns (outcome: Outcome, ghost victims: seq<Row>)
      requires Valid()
      modifies this
      ensures Valid() && maxSize == old(maxSize) && removals == Logged(old(removals), victims)
      ensures aging == if victims == [] then old(aging) else victims[|victims| - 1].eff
      ensures key !in old(cacheMap) ==> outcome == Returned(false) && victims == [] && cacheMap == old(cacheMap)
      ensures key in old(cacheMap) ==>
                && Rewrites(old(cacheMap), old(cacheSize), key, size, maxSize, victims)
                && cacheMap == Rewritten(old(cacheMap), victims, key, size)
                && outcome == if Outgrows(old(cacheMap), key, size, maxSize) then ErasedIterator else Returned(true)
      ensures old(Fits(cacheSize, cacheMap, maxSize)) ==> Fits(cacheSize, cacheMap, maxSize)
      ensures old(Level(cacheMap, aging)) ==> Level(cacheMap, aging) && old(aging) <= aging
    {
      hide EvictsUntilFits, Without, Agree, Less, Level;
      victims := [];
      if key !in cacheMap { return Returned(false), []; }
      if size != cacheMap[key].size {
        var survived;
        survived, victims := UpdateSize(key, size);
        return if survived then Returned(true) else ErasedIterator, victims;
      }
      WithoutNone(cacheMap);
      assert cacheMap[key := cacheMap[key].(size := size)] == cacheMap;
      return Returned(true), [];
    }

    /** Extracts the node, changes it and inserts it again; no equivalent entry can keep it out. */
    method Renew(key: string, timestamp: uint64) returns (ok: bool)
      requires Valid()
      modifies this
      ensures Valid() && maxSize == old(maxSize) && aging == old(aging) && cacheSize == old(cacheSize)
      ensures removals == old(removals) && ok == (key in old(cacheMap))
      ensures !ok ==> cacheMap == old(cacheMap) && cacheBst == old(cacheBst)
      ensures ok ==> var r := old(cacheMap)[key];
                     cacheMap == old(cacheMap)[key := r.(freq := r.freq + 1, eff := r.freq + 1 + aging,
                                                         timestamp := timestamp)]
      ensures old(Fits(cacheSize, cacheMap, maxSize)) ==> Fits(cacheSize, cacheMap, maxSize)
      ensures old(Level(cacheMap, aging)) ==> Level(cacheMap, aging) && old(aging) <= aging
    {
      if key !in cacheMap { return false; }
      var it := cacheMap[key];
      hide Agree, Equivalent, Sum, Level;
      var tmp := it.(freq := it.freq + 1, eff := it.freq + 1 + aging, timestamp := timestamp);
      Reinserted(cacheMap, cacheBst, key, tmp);
      if Level(cacheMap, aging) { LevelWrite(cacheMap, aging, key, tmp); }
      cacheBst := cacheBst - {it};
      var position := BstInsert(tmp);
      cacheMap := cacheMap[key := position];
      ok := true;
    }

    method Resize(newSize: nat) returns (outcome: Outcome, ghost victims: seq<Row>)
      requires Valid()
      modifies this
      ensures Valid() && removals == Logged(old(removals), victims)
      ensures outcome == if newSize == 0 then Threw(ZeroMaxSize) else Returned(true)
      ensures newSize == 0 ==> victims == [] && cacheMap == old(cacheMap) && maxSize == old(maxSize)
      ensures newSize != 0 ==> && maxSize == newSize
                               && EvictsUntilFits(old(cacheMap), old(cacheSize), 0, newSize, victims)
                               && cacheMap == Without(old(cacheMap), victims) && cacheSize <= maxSize
      ensures aging == if victims == [] then old(aging) else victims[|victims| - 1].eff
      ensures old(Level(cacheMap, aging)) ==> Level(cacheMap, aging) && old(aging) <= aging
    {
      hide EvictsUntilFits, Without, Agree, Level;
      victims := [];
      if newSize == 0 { return Threw(ZeroMaxSize), []; }
      maxSize := newSize;
      victims := RemoveCache(0);
      assert cacheMap == map[] ==> cacheSize == 0;
      return Returned(true), victims;
    }
  }

  // ---------- facts the methods use ----------

  /** Within the limit, or one entry that is larger than the limit. */
  predicate Fits(cacheSize: nat, index: Rows, maxSize: nat) {
    cacheSize <= maxSize || |index| == 1
  }

  /** What `put` leaves alone. */
  predicate Rejects(index: Rows, r: Row) {
    r.key == "" || r.size == 0 || (r.key in index && r.size <= index[r.key].size)
  }

  /** Rewriting a size evicts for the growth only. */
  ghost predicate Rewrites(index: Rows, cacheSize: nat, key: string, size: nat, maxSize: nat, victims: seq<Row>)
    requires key in index
  {
    if size > index[key].size then EvictsUntilFits(index, cacheSize, size - index[key].size, maxSize, victims)
    else victims == []
  }

  function Rewritten(index: Rows, victims: seq<Row>, key: string, size: nat): Rows
    requires key in index
  {
    var left := Without(index, victims);
    if key in left then left[key := index[key].(size := size)] else left
  }

  lemma WithoutNone(index: Rows)
    ensures Without(index, []) == index
  {
  }

  /** No equivalent entry keeps out an extracted entry that comes back changed. */
  lemma Reinserted(index: Rows, entries: set<Row>, k: string, r: Row)
    requires Agree(index, entries) && k in index && r.key == index[k].key
    ensures index[k] in entries && index[k].key == k
    ensures forall e :: e in entries - {index[k]} ==> !Equivalent(e, r)
    ensures Agree(index[k := r], entries - {index[k]} + {r})
    ensures Sum(Bytes, index[k := r]) == Sum(Bytes, index) - index[k].size + r.size
    ensures Sum(Bytes, index) >= index[k].size
    ensures |index[k := r]| == |index|
  {
    assert KeyAgrees(index, entries, k);
    hide Agree, Equivalent, Sum;
    AgreeRemove(index, entries, index[k]);
    AgreeInsert(index - {k}, entries - {index[k]}, r);
    SumMember(Bytes, index, k);
    SumWrite(Bytes, index, k, r);
    SameNumber(index, k, r);
    assert (index - {k})[k := r] == index[k := r];
  }

  lemma NotEmpty(index: Rows, entries: set<Row>)
    requires Agree(index, entries) && index != map[]
    ensures entries != {}
  {
    var k :| k in index;
    assert KeyAgrees(index, entries, k);
  }

  lemma OnlyOne(index: Rows, k: string, r: Row)
    ensures index == map[] ==> |index[k := r]| == 1
  {
    if index == map[] { assert index[k := r].Keys == {k}; }
  }

  lemma SameNumber(index: Rows, k: string, r: Row)
    requires k in index
    ensures |index[k := r]| == |index|
  {
    assert index[k := r].Keys == index.Keys;
  }

  lemma EvictsNone(index: Rows, total: nat, required: nat, maxSize: nat)
    ensures Evicts(index, total, required, maxSize, [])
    ensures Without(index, []) == index && SizeWithout(total, []) == total
  {
  }

  lemma {:induction false} WithoutKeeps(index: Rows, removed: seq<Row>, k: string)
    ensures k in Without(index, removed) ==> k in index && Without(index, removed)[k] == index[k]
  {
    if removed != [] { WithoutKeeps(index, removed[..|removed| - 1], k); }
  }

  lemma EvictsOneMore(index: Rows, total: nat, required: nat, maxSize: nat, removed: seq<Row>,
                      entries: set<Row>, r: Row)
    requires Evicts(index, total, required, maxSize, removed) && Agree(Without(index, removed), entries)
    requires SizeWithout(total, removed) == Sum(Bytes, Without(index, removed))
    requires SizeWithout(total, removed) + required > maxSize && First(entries, r)
    ensures Evicts(index, total, required, maxSize, removed + [r])
    ensures Without(index, removed + [r]) == Without(index, removed) - {r.key}
    ensures r in entries && r.key in Without(index, removed) && Without(index, removed)[r.key] == r
    ensures SizeWithout(total, removed + [r]) == SizeWithout(total, removed) - r.size >= 0
  {
    var now := Without(index, removed);
    assert (removed + [r])[..|removed|] == removed;
    assert EntryAgrees(now, r);
    SumMember(Bytes, now, r.key);
    forall k | k in now
      ensures !Less(now[k], r)
    {
      assert KeyAgrees(now, entries, k);
    }
  }

  // ---------- what the contracts add up to ----------

  /** The set determines the map, so `init` with what `backup` handed out restores both. */
  lemma SetDeterminesMap(index: Rows, other: Rows, entries: set<Row>)
    requires Agree(index, entries) && Agree(other, entries)
    ensures index == other
  {
    forall k
      ensures k in index <==> k in other
      ensures k in index ==> index[k] == other[k]
    {
      assert KeyAgrees(index, entries, k) && KeyAgrees(other, entries, k);
      if k in index { assert EntryAgrees(other, index[k]); }
      if k in other { assert EntryAgrees(index, other[k]); }
    }
  }

  /** Entries leave in increasing order, each smaller than every entry that stays, and the
      last one had to go. */
  lemma {:induction false} LeastFirst(index: Rows, total: nat, required: nat, maxSize: nat, removed: seq<Row>)
    requires Evicts(index, total, required, maxSize, removed) && forall k :: k in index ==> index[k].key == k
    ensures forall i, j :: 0 <= i < j < |removed| ==> Less(removed[i], removed[j])
    ensures forall i, k :: 0 <= i < |removed| && k in Without(index, removed) ==>
                             Less(removed[i], Without(index, removed)[k])
    ensures removed != [] ==> SizeWithout(total, removed[..|removed| - 1]) + required > maxSize
  {
    if removed != [] {
      var before, r := removed[..|removed| - 1], removed[|removed| - 1];
      LeastFirst(index, total, required, maxSize, before);
      forall k | k in Without(index, removed)
        ensures Less(r, Without(index, removed)[k])
      {
        WithoutKeeps(index, removed, k);
        WithoutKeeps(index, before, k);
        WithoutKeeps(index, before, r.key);
        LessIsTotalOrder(r, index[k], r);
      }
      assert forall i :: 0 <= i < |before| ==> removed[i] == before[i];
    }
  }

  /** A fresh object that takes over what `backup` hands out is in the state the old one was in. */
  method Restart(cache: Lfuda) returns (again: Lfuda)
    requires cache.Valid() && cache.maxSize > 0
    modifies cache
    ensures fresh(again) && again.Valid() && again.maxSize == old(cache.maxSize)
    ensures again.cacheBst == old(cache.cacheBst) && again.cacheMap == old(cache.cacheMap)
    ensures again.aging == old(cache.aging) && again.cacheSize == old(cache.cacheSize)
  {
    hide Agree, Less, Sum, Members;
    again := new Lfuda(cache.maxSize);
    var caches, age := cache.Backup();
    DistinctNew(caches);
    again.Init(caches, age);
    assert {} + Members(caches) == Members(caches);
    SetDeterminesMap(again.cacheMap, old(cache.cacheMap), again.cacheBst);
  }

  predicate Unmet(entries: set<Row>, r: Row) {
    forall e :: e in entries ==> !Equivalent(e, r)
  }

  /** `r` stands in the vector at `i`, and nothing equivalent behind it. */
  predicate Hindmost(caches: seq<Row>, i: int, r: Row) {
    0 <= i < |caches| && caches[i] == r && forall j :: i < j < |caches| ==> !Equivalent(caches[j], r)
  }

  /** Of equivalent entries `init` takes over the hindmost, and only if none was there before. */
  lemma {:induction false} TakenOverIff(entries: set<Row>, caches: seq<Row>, r: Row)
    ensures r in Emplaced(entries, caches)
            <==> r in entries || (Unmet(entries, r) && exists i :: Hindmost(caches, i, r))
  {
    hide Less, Equivalent;
    if caches != [] {
      var c, rest := caches[0], caches[1..];
      TakenOverIff(entries, rest, r);
      EmplacedCovers(entries, rest);
      NoneEquivalentIff(entries, rest, c);
      if i :| Hindmost(rest, i, r) {
        assert forall j :: i + 1 < j < |caches| ==> caches[j] == rest[j - 1];
        assert Hindmost(caches, i + 1, r);
      }
      if i :| Hindmost(caches, i, r) {
        assert forall j :: 0 <= j < |rest| ==> rest[j] == caches[j + 1];
        if i > 0 { assert Hindmost(rest, i - 1, r); }
      }
      if r == c && Unmet(Emplaced(entries, rest), c) { assert Hindmost(caches, 0, c); }
    }
  }

  lemma {:induction false} EmplacedCovers(entries: set<Row>, caches: seq<Row>)
    ensures Covers(Emplaced(entries, caches), entries + Members(caches))
  {
    hide Less, Equivalent, Emplace, Covers;
    if caches == [] {
      CoversItself(entries);
      assert entries + Members(caches) == entries;
    } else {
      var c, rest := caches[0], caches[1..];
      EmplacedCovers(entries, rest);
      CoversOne(Emplaced(entries, rest), entries + Members(rest), c);
      assert caches == [c] + rest;
      MembersAppend([c], rest);
      assert entries + Members(caches) == entries + Members(rest) + {c};
    }
  }

  lemma NoneEquivalentIff(entries: set<Row>, caches: seq<Row>, c: Row)
    requires Covers(Emplaced(entries, caches), entries + Members(caches))
    ensures Unmet(Emplaced(entries, caches), c)
            <==> Unmet(entries, c) && forall j :: 0 <= j < |caches| ==> !Equivalent(caches[j], c)
  {
    hide Less, Equivalent, Covers, Emplaced;
    var taken, pool := Emplaced(entries, caches), entries + Members(caches);
    forall x | x in pool && Equivalent(x, c)
      ensures !Unmet(taken, c)
    {
      var e := Covered(taken, pool, x);
      LessIsTotalOrder(e, x, c);
      LessIsTotalOrder(x, c, c);
      LessIsTotalOrder(e, c, c);
      assert Equivalent(e, c);
    }
    forall e | e in taken
      ensures e in entries || e in caches
    {
      InPool(taken, pool, e);
    }
  }

  function BytesOf(removed: seq<Row>): nat {
    if removed == [] then 0 else BytesOf(removed[..|removed| - 1]) + removed[|removed| - 1].size
  }

  /** Entry `i` was in the map, is no longer, and when it went there was still too little room. */
  predicate HadToGo(index: Rows, required: nat, maxSize: nat, removed: seq<Row>, left: Rows, total: nat, i: int) {
    0 <= i < |removed| ==>
      && removed[i].key in index && index[removed[i].key] == removed[i] && removed[i].key !in left
      && total + required > maxSize + BytesOf(removed[..i])
  }

  predicate StaysOrGoes(index: Rows, removed: seq<Row>, left: Rows, k: string) {
    && (k in left ==> k in index && left[k] == index[k])
    && (k in index && k !in left ==> index[k] in removed)
  }

  /** Eviction takes exactly the entries it reports, each because there was too little room, and
      leaves the others as they are. */
  lemma {:induction false} EvictionTold(index: Rows, required: nat, maxSize: nat, removed: seq<Row>)
    requires Evicts(index, Sum(Bytes, index), required, maxSize, removed)
    ensures var left, total := Without(index, removed), Sum(Bytes, index);
            && (forall i :: HadToGo(index, required, maxSize, removed, left, total, i))
            && (forall k :: StaysOrGoes(index, removed, left, k))
            && SizeWithout(total, removed) + BytesOf(removed) == total
  {
    hide Less;
    if removed != [] {
      var n, total := |removed| - 1, Sum(Bytes, index);
      var before, r := removed[..n], removed[n];
      var mid, left := Without(index, before), Without(index, removed);
      EvictionTold(index, required, maxSize, before);
      SizeIsSum(index, required, maxSize, before);
      SumMember(Bytes, mid, r.key);
      WithoutKeeps(index, before, r.key);
      forall i
        ensures HadToGo(index, required, maxSize, removed, left, total, i)
      {
        assert HadToGo(index, required, maxSize, before, mid, total, i);
        if 0 <= i < n { assert removed[..i] == before[..i]; }
      }
      forall k
        ensures StaysOrGoes(index, removed, left, k)
      {
        assert StaysOrGoes(index, before, mid, k);
      }
    }
  }

  predicate LevelAt(index: Rows, aging: nat, k: string) {
    k in index ==> 1 <= index[k].freq && aging <= index[k].eff <= aging + index[k].freq
  }

  /** Every `eff` lies between the aging level and the aging level plus the access count. */
  ghost predicate Level(index: Rows, aging: nat) {
    forall k :: LevelAt(index, aging, k)
  }

  /** Eviction keeps that, and never lowers the aging level. */
  lemma {:induction false} EvictionKeepsLevel(index: Rows, aging: nat, total: nat, required: nat, maxSize: nat,
                                              removed: seq<Row>)
    requires Level(index, aging) && Evicts(index, total, required, maxSize, removed)
    ensures aging <= LastEff(removed, aging) && Level(Without(index, removed), LastEff(removed, aging))
  {
    if removed != [] {
      var before, r := removed[..|removed| - 1], removed[|removed| - 1];
      var mid := Without(index, before);
      EvictionKeepsLevel(index, aging, total, required, maxSize, before);
      assert LevelAt(mid, LastEff(before, aging), r.key);
      forall k
        ensures LevelAt(Without(index, removed), r.eff, k)
      {
        assert LevelAt(mid, LastEff(before, aging), k);
        if k in mid { LessIsLexicographic(mid[k], r); }
      }
    }
  }

  /** So does writing a row within these bounds, or with the counters it had. */
  lemma LevelWrite(index: Rows, aging: nat, k: string, r: Row)
    requires Level(index, aging)
    requires || (1 <= r.freq && aging <= r.eff <= aging + r.freq)
             || (k in index && r.freq == index[k].freq && r.eff == index[k].eff)
    ensures Level(index[k := r], aging)
  {
    var more := index[k := r];
    assert LevelAt(index, aging, k);
    forall j
      ensures LevelAt(more, aging, j)
    {
      assert LevelAt(index, aging, j);
    }
  }

  // ---------- when growing loses the entry ----------

  /** The entries that `begin()` does not reach before `r`. */
  function NotLess(index: Rows, r: Row): Rows {
    map k | k in index && !Less(index[k], r) :: index[k]
  }

  /** Growing an entry erases it, and so runs into an erased iterator, exactly when it and
      everything not less than it leave too little room for the growth. */
  lemma GrowthErasesTargetIff(index: Rows, required: nat, maxSize: nat, removed: seq<Row>, key: string)
    requires forall k :: k in index ==> index[k].key == k
    requires EvictsUntilFits(index, Sum(Bytes, index), required, maxSize, removed) && key in index
    ensures key !in Without(index, removed) <==> Sum(Bytes, NotLess(index, index[key])) + required > maxSize
  {
    hide Less;
    if key in Without(index, removed) {
      SizeIsSum(index, required, maxSize, removed);
      WithoutKeeps(index, removed, key);
      forall k | k in NotLess(index, index[key])
        ensures k in Without(index, removed) && Without(index, removed)[k] == index[k]
      {
        NotLessStays(index, Sum(Bytes, index), required, maxSize, removed, key, k);
      }
      SumPart(Bytes, NotLess(index, index[key]), Without(index, removed));
    } else {
      ErasedOnlyIf(index, required, maxSize, removed, key);
    }
  }

  /** Growing the entry of `key` evicts the entry itself: it and everything not less than it
      leave too little room for the growth. */
  ghost predicate Outgrows(index: Rows, key: string, size: nat, maxSize: nat)
    requires key in index
  {
    && size > index[key].size
    && Sum(Bytes, NotLess(index, index[key])) + (size - index[key].size) > maxSize
  }

  lemma OutgrowsIff(index: Rows, entries: set<Row>, key: string, size: nat, maxSize: nat, victims: seq<Row>)
    requires Agree(index, entries) && key in index
    requires Rewrites(index, Sum(Bytes, index), key, size, maxSize, victims)
    ensures Outgrows(index, key, size, maxSize) <==> key !in Without(index, victims)
  {
    hide EvictsUntilFits;
    forall k | k in index
      ensures index[k].key == k
    {
      assert KeyAgrees(index, entries, k);
    }
    if size > index[key].size {
      GrowthErasesTargetIff(index, size - index[key].size, maxSize, victims, key);
    } else {
      WithoutNone(index);
    }
  }

  lemma NotLessStays(index: Rows, total: nat, required: nat, maxSize: nat, removed: seq<Row>, key: string, k: string)
    requires forall j :: j in index ==> index[j].key == j
    requires Evicts(index, total, required, maxSize, removed) && key in Without(index, removed)
    requires k in index && !Less(index[k], Without(index, removed)[key])
    ensures k in Without(index, removed) && Without(index, removed)[k] == index[k]
    ensures key in index && Without(index, removed)[key] == index[key]
  {
    hide Less;
    WithoutKeeps(index, removed, key);
    WithoutKeeps(index, removed, k);
    LeastFirst(index, total, required, maxSize, removed);
    if k !in Without(index, removed) { var i := RemovedAt(index, total, required, maxSize, removed, k); }
  }

  lemma {:induction false} RemovedAt(index: Rows, total: nat, required: nat, maxSize: nat, removed: seq<Row>, k: string)
    returns (i: nat)
    requires forall j :: j in index ==> index[j].key == j
    requires Evicts(index, total, required, maxSize, removed) && k in index && k !in Without(index, removed)
    ensures i < |removed| && removed[i] == index[k]
  {
    hide Less;
    var before, r := removed[..|removed| - 1], removed[|removed| - 1];
    if k in Without(index, before) {
      WithoutKeeps(index, before, k);
      i := |removed| - 1;
    } else {
      i := RemovedAt(index, total, required, maxSize, before, k);
    }
  }

  lemma {:induction false} SizeIsSum(index: Rows, required: nat, maxSize: nat, removed: seq<Row>)
    requires Evicts(index, Sum(Bytes, index), required, maxSize, removed)
    ensures SizeWithout(Sum(Bytes, index), removed) == Sum(Bytes, Without(index, removed))
  {
    hide Less;
    if removed != [] {
      SizeIsSum(index, required, maxSize, removed[..|removed| - 1]);
      SumWithout(Bytes, Without(index, removed[..|removed| - 1]), removed[|removed| - 1].key);
    }
  }

  lemma {:induction false} ErasedOnlyIf(index: Rows, required: nat, maxSize: nat, removed: seq<Row>, key: string)
    requires Evicts(index, Sum(Bytes, index), required, maxSize, removed)
    requires key in index && key !in Without(index, removed)
    ensures Sum(Bytes, NotLess(index, index[key])) + required > maxSize
  {
    hide Less;
    var before, r := removed[..|removed| - 1], removed[|removed| - 1];
    if key in Without(index, before) {
      SizeIsSum(index, required, maxSize, before);
      WithoutKeeps(index, before, key);
      forall k | k in Without(index, before)
        ensures k in NotLess(index, index[key]) && NotLess(index, index[key])[k] == Without(index, before)[k]
      {
        WithoutKeeps(index, before, k);
      }
      SumPart(Bytes, Without(index, before), NotLess(index, index[key]));
    } else {
      ErasedOnlyIf(index, required, maxSize, before, key);
    }
  }

  // ---------- where it goes wrong ----------

  /** Two `put`s on a fresh cache: the second grows the only entry beyond the limit. */
  method GrowthMeetsErasedIterator() returns (outcome: Outcome)
    ensures outcome == ErasedIterator
  {
    hide EvictsUntilFits, Without, Agree, Less, Sum, Rewrites, Rewritten, Outgrows;
    var cache := new Lfuda(10);
    var put, victims := cache.Put(Row("a", 5, 0, 0, 0));
    var r := cache.cacheMap["a"];
    OneEntry(victims, r);
    OnlyEntryOutgrows(r, 11, 10);
    outcome, victims := cache.Put(Row("a", 11, 0, 0, 0));
  }

  lemma OneEntry(victims: seq<Row>, r: Row)
    ensures Without(map[], victims)[r.key := r] == map[r.key := r]
  {
    forall k
      ensures k !in Without(map[], victims)
    {
      WithoutKeeps(map[], victims, k);
    }
  }

  lemma OnlyEntryOutgrows(r: Row, size: nat, maxSize: nat)
    requires size > r.size && size > maxSize
    ensures Outgrows(map[r.key := r], r.key, size, maxSize)
  {
    LessIsTotalOrder(r, r, r);
    assert NotLess(map[r.key := r], r) == map[r.key := r];
    SumWrite(Bytes, map[], r.key, r);
    assert map[][r.key := r] == map[r.key := r];
    NothingAgrees();
  }

  /** A vector with a repeated key: two entries, but one key in the map. */
  method RepeatedKeyBreaksInit() returns (cache: Lfuda)
    ensures fresh(cache) && |cache.cacheBst| == 2 && cache.cacheMap.Keys == {"a"} && !cache.Valid()
  {
    hide Agree, Sum, Leads, Less, Equivalent;
    cache := new Lfuda(10);
    var a, b := Row("a", 1, 0, 1, 1), Row("a", 2, 0, 1, 1);
    TwoEntries(a, b);
    cache.Init([a, b], 0);
  }

  lemma TwoEntries(a: Row, b: Row)
    requires a.key == b.key && a.size != b.size
    ensures Emplaced({}, [a, b]) == {a, b} && !Harmless({}, [a, b]) && KeysOf([a, b]) == {a.key}
  {
    hide Less, Equivalent;
    LessIsTotalOrder(a, b, a);
    LessIsTotalOrder(b, a, a);
    assert [a, b][1..] == [b] && [b][1..] == [];
    assert Emplaced({}, []) == {} && Emplaced({}, [b]) == {b};
    assert b in Members([b]);
  }
}
