/** The in-memory LRU cache (src/algo/algo_lru.cpp): a linked list of nodes, newest first, and
    a map from keys to nodes.  Nodes keep their identity while they are spliced, so the map
    stays right without being touched. */
module MemoryLru {
  import opened MemoryCache
  import opened RemoveCallback

  datatype Cache = Cache(key: string, size: nat)

  class Node {
    const key: string
    var size: nat

    constructor (cache: Cache)
      ensures key == cache.key && size == cache.size
    {
      key, size := cache.key, cache.size;
    }
  }

  type Index = map<string, Node>

  // ---------- list, map and touches ----------

  /** The index of the last touch of `key`, or -1. */
  function LastTouch(touched: seq<string>, key: string): int {
    if touched == [] then -1
    else if touched[|touched| - 1] == key then |touched| - 1
    else LastTouch(touched[..|touched| - 1], key)
  }

  /** Node `i` was touched after node `j` last was. */
  predicate Newer(list: seq<Node>, touched: seq<string>, i: int, j: int) {
    0 <= i < j < |list| ==>
      LastTouch(touched, list[i].key) > LastTouch(touched, list[j].key)
  }

  predicate Indexed(list: seq<Node>, index: Index, i: int) {
    0 <= i < |list| ==> list[i].key in index && index[list[i].key] == list[i]
  }

  predicate Listed(list: seq<Node>, index: Index, k: string) {
    k in index ==> index[k].key == k && index[k] in list
  }

  /** The map is a bijection onto the nodes of the list, which is in order of last touch. */
  ghost predicate Agree(list: seq<Node>, index: Index, touched: seq<string>) {
    && (forall i, j :: Newer(list, touched, i, j))
    && (forall i :: Indexed(list, index, i))
    && (forall k :: Listed(list, index, k))
  }

  /** What the nodes hold at the moment. */
  ghost function Caches(list: seq<Node>): (r: seq<Cache>)
    reads list
    ensures |r| == |list|
    ensures forall i :: 0 <= i < |list| ==> r[i] == Cache(list[i].key, list[i].size)
  {
    if list == [] then [] else Caches(list[..|list| - 1]) + [Cache(list[|list| - 1].key, list[|list| - 1].size)]
  }

  function Total(caches: seq<Cache>): nat {
    if caches == [] then 0 else Total(caches[..|caches| - 1]) + caches[|caches| - 1].size
  }

  lemma {:induction false} TouchBounds(touched: seq<string>, key: string)
    ensures -1 <= LastTouch(touched, key) < |touched|
  {
    if touched != [] { TouchBounds(touched[..|touched| - 1], key); }
  }

  lemma TouchNow(touched: seq<string>, key: string, other: string)
    ensures LastTouch(touched + [key], other) == if other == key then |touched| else LastTouch(touched, other)
  {
    assert (touched + [key])[..|touched|] == touched;
  }

  lemma OneNodePerKey(list: seq<Node>, index: Index, touched: seq<string>, i: nat, j: nat)
    requires Agree(list, index, touched) && i < |list| && j < |list|
    ensures list[i].key == list[j].key <==> i == j
  {
    assert Newer(list, touched, i, j) && Newer(list, touched, j, i);
  }

  lemma {:induction false} TotalAppend(a: seq<Cache>, b: seq<Cache>)
    ensures Total(a + b) == Total(a) + Total(b)
  {
    if b == [] {
      assert a + b == a;
    } else {
      TotalAppend(a, b[..|b| - 1]);
      assert (a + b)[..|a + b| - 1] == a + b[..|b| - 1];
    }
  }

  lemma TotalOne(c: Cache)
    ensures Total([c]) == c.size
  {
    assert [c][..0] == [];
  }

  /** Taking one entry out of the middle. */
  lemma TotalOnePoint(caches: seq<Cache>, at: nat)
    requires at < |caches|
    ensures Total(caches) == Total(caches[..at]) + caches[at].size + Total(caches[at + 1..])
  {
    hide Total;
    assert caches == caches[..at] + [caches[at]] + caches[at + 1..];
    TotalAppend(caches[..at], [caches[at]]);
    TotalAppend(caches[..at] + [caches[at]], caches[at + 1..]);
    TotalOne(caches[at]);
  }

  /** `push_front` of a node for a new key. */
  lemma AgreePushed(list: seq<Node>, index: Index, touched: seq<string>, n: Node)
    requires Agree(list, index, touched) && n.key !in index
    ensures Agree([n] + list, index[n.key := n], touched + [n.key])
  {
    var key := n.key;
    var more, map', after := [n] + list, index[key := n], touched + [key];
    assert forall i :: 1 <= i < |more| ==> more[i] == list[i - 1];
    forall i, j
      ensures Newer(more, after, i, j)
    {
      if 0 <= i < j < |more| {
        assert Newer(list, touched, i - 1, j - 1) && Indexed(list, index, i - 1) && Indexed(list, index, j - 1);
        TouchNow(touched, key, more[i].key);
        TouchNow(touched, key, more[j].key);
        TouchBounds(touched, more[j].key);
      }
    }
    forall i
      ensures Indexed(more, map', i)
    {
      assert Indexed(list, index, i - 1);
    }
    forall k
      ensures Listed(more, map', k)
    {
      assert Listed(list, index, k);
      assert more[0] == n;
      if k in index {
        var i :| 0 <= i < |list| && list[i] == index[k];
        assert more[i + 1] == index[k];
      }
    }
  }

  /** `pop_back` and `erase`. */
  lemma AgreePopped(list: seq<Node>, index: Index, touched: seq<string>)
    requires Agree(list, index, touched) && list != []
    ensures Agree(list[..|list| - 1], index - {list[|list| - 1].key}, touched)
  {
    var last := |list| - 1;
    var fewer, map' := list[..last], index - {list[last].key};
    forall i, j
      ensures Newer(fewer, touched, i, j)
    {
      assert Newer(list, touched, i, j);
    }
    forall i
      ensures Indexed(fewer, map', i)
    {
      assert Indexed(list, index, i);
      if 0 <= i < last { OneNodePerKey(list, index, touched, i, last); }
    }
    forall k
      ensures Listed(fewer, map', k)
    {
      assert Listed(list, index, k);
      if k in map' {
        var i :| 0 <= i < |list| && list[i] == index[k];
        assert fewer[i] == index[k];
      }
    }
  }

  /** `splice` of node `at` to the front. */
  function Spliced<T>(list: seq<T>, at: nat): seq<T>
    requires at < |list|
  {
    [list[at]] + list[..at] + list[at + 1..]
  }

  function Origin(at: nat, i: nat): nat {
    if i == 0 then at else if i <= at then i - 1 else i
  }

  lemma SplicedAt<T>(list: seq<T>, at: nat, i: nat)
    requires at < |list| && i < |list|
    ensures |Spliced(list, at)| == |list| && Origin(at, i) < |list|
    ensures Spliced(list, at)[i] == list[Origin(at, i)]
  {
  }

  /** The spliced list is in order of last touch, and the map need not change. */
  lemma {:induction false} AgreeSpliced(list: seq<Node>, index: Index, touched: seq<string>, at: nat)
    requires Agree(list, index, touched) && at < |list|
    ensures Agree(Spliced(list, at), index, touched + [list[at].key])
  {
    var moved, after := Spliced(list, at), touched + [list[at].key];
    hide Spliced, LastTouch;
    forall i, j
      ensures Newer(moved, after, i, j)
    {
      if 0 <= i < j < |moved| { NewerSpliced(list, index, touched, at, i, j); }
    }
    forall i
      ensures Indexed(moved, index, i)
    {
      if 0 <= i < |moved| {
        SplicedAt(list, at, i);
        assert Indexed(list, index, Origin(at, i));
      }
    }
    forall k
      ensures Listed(moved, index, k)
    {
      assert Listed(list, index, k);
      if k in index {
        var i :| 0 <= i < |list| && list[i] == index[k];
        var j := if i == at then 0 else if i < at then i + 1 else i;
        SplicedAt(list, at, j);
        assert Origin(at, j) == i && moved[j] == index[k];
      }
    }
  }

  lemma NewerSpliced(list: seq<Node>, index: Index, touched: seq<string>, at: nat, i: nat, j: nat)
    requires Agree(list, index, touched) && at < |list| && i < j < |list| && |Spliced(list, at)| == |list|
    ensures Newer(Spliced(list, at), touched + [list[at].key], i, j)
  {
    hide Spliced, LastTouch;
    SplicedAt(list, at, i);
    SplicedAt(list, at, j);
    var key, x, y := list[at].key, list[Origin(at, i)].key, list[Origin(at, j)].key;
    assert Newer(list, touched, Origin(at, i), Origin(at, j));
    OneNodePerKey(list, index, touched, at, Origin(at, i));
    OneNodePerKey(list, index, touched, at, Origin(at, j));
    hide Agree;
    TouchNow(touched, key, x);
    TouchNow(touched, key, y);
    TouchBounds(touched, y);
  }

  lemma SplicedTotal(caches: seq<Cache>, at: nat)
    requires at < |caches|
    ensures Total(Spliced(caches, at)) == Total(caches)
  {
    hide Total;
    var front, c, back := caches[..at], [caches[at]], caches[at + 1..];
    TotalOnePoint(caches, at);
    TotalAppend(c, front);
    TotalAppend(c + front, back);
    TotalOne(caches[at]);
  }

  lemma SplicedCaches(list: seq<Node>, at: nat)
    requires at < |list|
    ensures Caches(Spliced(list, at)) == Spliced(Caches(list), at)
  {
    hide Caches, Spliced;
    SplicedLength(list, at);
    SplicedLength(Caches(list), at);
    forall i | 0 <= i < |list|
      ensures Caches(Spliced(list, at))[i] == Spliced(Caches(list), at)[i]
    {
      SplicedAt(list, at, i);
      SplicedAt(Caches(list), at, i);
    }
  }

  lemma SplicedLength<T>(list: seq<T>, at: nat)
    requires at < |list|
    ensures |Spliced(list, at)| == |list|
  {
  }

  lemma TotalResized(caches: seq<Cache>, at: nat, c: Cache)
    requires at < |caches|
    ensures Total(caches[at := c]) + caches[at].size == Total(caches) + c.size
  {
    TotalOnePoint(caches, at);
    TotalOnePoint(caches[at := c], at);
    assert caches[at := c][..at] == caches[..at] && caches[at := c][at + 1..] == caches[at + 1..];
  }

  // ---------- the cache ----------

  /** How many entries `remove_cache` leaves: fewer only while the limit is exceeded. */
  function Fitting(caches: seq<Cache>, required: nat, maxSize: nat): (n: nat)
    ensures n <= |caches|
  {
    if caches == [] || Total(caches) + required <= maxSize then |caches|
    else Fitting(caches[..|caches| - 1], required, maxSize)
  }

  function Reversed<T>(list: seq<T>): (r: seq<T>)
    ensures |r| == |list|
  {
    if list == [] then [] else [list[|list| - 1]] + Reversed(list[..|list| - 1])
  }

  /** Exactly the entries that fit together with the newer ones stay, for lack of a better
      choice none at all. */
  lemma {:induction false} StaysIffFits(caches: seq<Cache>, required: nat, maxSize: nat, n: nat)
    requires n <= |caches|
    ensures n <= Fitting(caches, required, maxSize) <==> n == 0 || Total(caches[..n]) + required <= maxSize
  {
    if caches == [] || Total(caches) + required <= maxSize {
      TotalAppend(caches[..n], caches[n..]);
      assert caches == caches[..n] + caches[n..];
    } else if n == |caches| {
      assert caches[..n] == caches;
    } else {
      StaysIffFits(caches[..|caches| - 1], required, maxSize, n);
      assert caches[..|caches| - 1][..n] == caches[..n];
    }
  }

  class Lru {
    var maxSize: nat
    var cacheSize: nat
    var cacheList: seq<Node>
    var cacheMap: Index
    /** The vectors handed to the remove callback so far. */
    var removals: seq<seq<Cache>>
    /** The keys touched so far: inserted, taken over by `init`, or renewed. */
    ghost var touched: seq<string>

    /** The entries, newest first. */
    ghost function Entries(): seq<Cache>
      reads this, cacheList
    {
      Caches(cacheList)
    }

    ghost predicate Valid()
      reads this, cacheList
    {
      Agree(cacheList, cacheMap, touched) && cacheSize == Total(Entries())
    }

    constructor (size: nat)
      requires size > 0
      ensures Valid() && cacheList == [] && cacheMap == map[] && maxSize == size && removals == [] && touched == []
    {
      maxSize, cacheSize, cacheList, cacheMap, removals, touched := size, 0, [], map[], [], [];
    }

    /** Takes entries from the back of `caches` and pushes each to the front, so that the list
        begins with the vector, in its order.  The map finds the newest node of each key; it is
        a bijection onto the nodes exactly when no key is repeated. */
    method Init(caches: seq<Cache>)
      requires Valid()
      modifies this
      ensures Entries() == caches + old(Entries())
      ensures maxSize == old(maxSize) && removals == old(removals) && cacheSize == Total(Entries())
      ensures |cacheList| >= |caches| && cacheList[|caches|..] == old(cacheList)
      ensures Distinct(cacheList[..|caches|]) && forall n :: n in cacheList[..|caches|] ==> fresh(n)
      ensures FrontIndexed(cacheList, cacheMap)
      ensures Valid() <==> AllNew(caches, old(cacheMap))
    {
      hide Caches, Agree, Total, FrontIndexed, AllNew, TakingOver, Distinct;
      var left := caches;
      ghost var pushed: seq<Node> := [];
      NoneDistinct();
      ghost var list, entries, index, before := cacheList, Entries(), cacheMap, touched;
      TakesNone(list, index, before, caches, entries);
      while left != []
        invariant left <= caches
        invariant maxSize == old(maxSize) && removals == old(removals) && cacheSize == Total(Entries())
        invariant Entries() == caches[|left|..] + entries
        invariant TakingOver(cacheList, cacheMap, touched, caches[|left|..], index)
        invariant |pushed| == |caches| - |left| && cacheList == pushed + list
        invariant Distinct(pushed) && forall n :: n in pushed ==> fresh(n)
      {
        ghost var behind, found, earlier := cacheList, cacheMap, touched;
        var n := PushFront(left[|left| - 1]);
        TakesOne(behind, found, earlier, caches, |left|, index, n);
        BehindMore(caches, |left|, entries);
        OneMoreDistinct(n, pushed, list);
        pushed := [n] + pushed;
        left := left[..|left| - 1];
      }
      TakesAll(cacheList, cacheMap, touched, caches, list, index, before);
      assert cacheList[..|caches|] == pushed;
    }

    /** The statements `init` and `put` share. */
    method PushFront(cache: Cache) returns (n: Node)
      requires cacheSize == Total(Entries())
      modifies this
      ensures fresh(n) && n.key == cache.key && cacheList == [n] + old(cacheList)
      ensures cacheMap == old(cacheMap)[cache.key := n] && touched == old(touched) + [cache.key]
      ensures Entries() == [cache] + old(Entries()) && cacheSize == Total(Entries())
      ensures maxSize == old(maxSize) && removals == old(removals)
    {
      hide Caches, Total;
      n := new Node(cache);
      CachesPushed(cacheList, n);
      TotalOne(cache);
      TotalAppend([cache], Entries());
      cacheList := [n] + cacheList;
      cacheMap := cacheMap[cache.key := n];
      cacheSize := cacheSize + cache.size;
      touched := touched + [cache.key];
    }

    /** Hands out the entries newest first and leaves the object empty. */
    method Backup() returns (caches: seq<Cache>)
      requires Valid()
      modifies this
      ensures Valid() && cacheList == [] && cacheMap == map[] && maxSize == old(maxSize)
      ensures caches == old(Entries())
    {
      hide Caches, Agree, Total;
      caches := [];
      ghost var list, entries := cacheList, Entries();
      NothingAgrees(touched);
      cacheMap := map[];
      cacheSize := 0;
      while cacheList != []
        invariant maxSize == old(maxSize) && cacheMap == map[] && cacheSize == 0 && touched == old(touched)
        invariant |caches| <= |list| && cacheList == list[|caches|..]
        invariant caches == entries[..|caches|]
      {
        caches := caches + [Cache(cacheList[0].key, cacheList[0].size)];
        cacheList := cacheList[1..];
      }
    }

    /** Drops nodes from the old end until `required` more bytes fit, or none is left. */
    method RemoveCache(required: nat)
      requires Valid()
      modifies this
      ensures Valid() && maxSize == old(maxSize) && touched == old(touched)
      ensures cacheList == old(cacheList)[..Fitting(old(Entries()), required, maxSize)]
      ensures Entries() == old(Entries())[..|cacheList|]
      ensures removals == Logged(old(removals), Reversed(old(Entries())[|cacheList|..]))
      ensures cacheMap.Keys <= old(cacheMap.Keys)
    {
      hide Caches, Agree, Total, Reversed, Fitting;
      var removed: seq<Cache> := [];
      ghost var list, all, left := cacheList, Entries(), Entries();
      NoneFewer(all);
      while cacheList != [] && cacheSize + required > maxSize
        invariant maxSize == old(maxSize) && touched == old(touched) && removals == old(removals)
        invariant Agree(cacheList, cacheMap, touched) && cacheSize == Total(left) && Entries() == left
        invariant |cacheList| <= |list| && cacheList == list[..|cacheList|] && left == all[..|cacheList|]
        invariant removed == Reversed(all[|cacheList|..])
        invariant Fitting(left, required, maxSize) == Fitting(all, required, maxSize)
        invariant cacheMap.Keys <= old(cacheMap.Keys)
        decreases |cacheList|
      {
        var it := cacheList[|cacheList| - 1];
        AgreePopped(cacheList, cacheMap, touched);
        OneFewer(all, |cacheList|, required, maxSize);
        CachesPrefix(cacheList, |cacheList| - 1);
        cacheMap := cacheMap - {it.key};
        cacheSize := cacheSize - it.size;
        removed := removed + [Cache(it.key, it.size)];
        cacheList := cacheList[..|cacheList| - 1];
        left := all[..|cacheList|];
      }
      if removed != [] { removals := removals + [removed]; }
      FittingAll(left, required, maxSize);
    }

    /** An absent key is pushed to the front.  A key that is present keeps its place, and its
        entry grows to the larger size. */
    method Put(cache: Cache) returns (outcome: Outcome)
      requires Valid()
      modifies this, cacheList
      ensures Valid() && maxSize == old(maxSize)
      ensures Rejects(old(cacheMap), old(Entries()), cache) ==>
                && outcome == (if cache.key == "" then Threw(NullKey) else Returned(false))
                && cacheList == old(cacheList) && Entries() == old(Entries())
                && cacheMap == old(cacheMap) && removals == old(removals)
      ensures !Rejects(old(cacheMap), old(Entries()), cache) && cache.key !in old(cacheMap) ==>
                && outcome == Returned(true) && touched == old(touched) + [cache.key]
                && Entries() == [cache] + old(Entries())[..Fitting(old(Entries()), cache.size, maxSize)]
                && removals == Logged(old(removals), Reversed(old(Entries())[|cacheList| - 1..]))
                && (Total(Entries()) <= maxSize || |cacheList| == 1)
                && cacheList != [] && fresh(cacheList[0]) && cacheList[1..] <= old(cacheList)
      ensures outcome == Returned(true) <==> cache.key != "" && cache.size > 0 && cache.key !in old(cacheMap)
      ensures outcome != Returned(true) ==> touched == old(touched)
      ensures !Rejects(old(cacheMap), old(Entries()), cache) && cache.key in old(cacheMap) ==>
                && Resized(old(Entries()), Entries(), cache.key, cache.size, maxSize)
                && cacheList <= old(cacheList)
                && removals == Logged(old(removals), Reversed(old(Entries())[|cacheList|..]))
                && outcome == if Outgrows(old(Entries()), cache.key, cache.size, maxSize) then ErasedIterator
                              else Returned(false)
    {
      hide Caches, Agree, Total, Reversed, Fitting, Resized, Outgrows;
      if cache.key == "" { return Threw(NullKey); }
      if cache.size == 0 { return Returned(false); }
      if cache.key !in cacheMap {
        outcome := PutNew(cache);
        return;
      }
      var at := PlaceOf(cache.key);
      EntryOf(cacheList, cacheMap, touched, at);
      if cache.size > cacheMap[cache.key].size {
        var survived := UpdateSize(cache.key, cache.size);
        return if survived then Returned(false) else ErasedIterator;
      }
      return Returned(false);
    }

    /** The branch of `put` for a key that is not in the map. */
    method PutNew(cache: Cache) returns (outcome: Outcome)
      requires Valid() && cache.key !in cacheMap
      modifies this
      ensures Valid() && maxSize == old(maxSize)
      ensures outcome == Returned(true) && touched == old(touched) + [cache.key]
      ensures Entries() == [cache] + old(Entries())[..Fitting(old(Entries()), cache.size, maxSize)]
      ensures removals == Logged(old(removals), Reversed(old(Entries())[|cacheList| - 1..]))
      ensures Total(Entries()) <= maxSize || |cacheList| == 1
      ensures cacheList != [] && fresh(cacheList[0]) && cacheList[1..] <= old(cacheList)
    {
      hide Caches, Agree, Total, Reversed, Fitting;
      RemoveCache(cache.size);
      FitsOrAlone(old(Entries()), cache.size, maxSize);
      ghost var kept, list, index, before := Entries(), cacheList, cacheMap, touched;
      var n := PushFront(cache);
      AgreePushed(list, index, before, n);
      TotalOne(cache);
      TotalAppend([cache], kept);
      return Returned(true);
    }

    /** Rewrites the size of the node in place.  The source has no test that eviction spared the
        node: the model ends there and says so. */
    method UpdateSize(key: string, size: nat) returns (survived: bool)
      requires Valid() && key in cacheMap
      modifies this, cacheList
      ensures Valid() && maxSize == old(maxSize) && touched == old(touched)
      ensures Resized(old(Entries()), Entries(), key, size, maxSize) && cacheList <= old(cacheList)
      ensures survived == (key in cacheMap)
      ensures survived ==> cacheMap[key] == old(cacheMap[key]) && cacheMap[key].size == size
      ensures survived <==> !Outgrows(old(Entries()), key, size, maxSize)
      ensures removals == Logged(old(removals), Reversed(old(Entries())[|cacheList|..]))
    {
      hide Caches, Agree, Total, Reversed, Fitting, Resized, Outgrows;
      var it := cacheMap[key];
      var at := PlaceOf(key);
      ghost var was, before := Entries(), it.size;
      ghost var grown := Cache(key, size);
      EntryOf(cacheList, cacheMap, touched, at);
      NothingReversed<Cache>();
      assert was[|cacheList|..] == [];
      if size > it.size { RemoveCache(size - it.size); }
      ghost var kept := Entries();
      assert kept == was[..|kept|];
      StillListed(old(cacheList), old(cacheMap), cacheList, cacheMap, touched, at);
      OutgrowsIff(was, at, key, size, maxSize);
      ResizedBy(was, kept, at, key, size, maxSize);
      if key !in cacheMap { return false; }
      OneNodeEach(cacheList, cacheMap, touched, at);
      TotalResized(kept, at, grown);
      cacheSize := cacheSize - it.size + size;
      it.size := size;
      assert Entries() == kept[at := grown];
      survived := true;
    }

    /** Where the iterator of a key points. */
    method PlaceOf(key: string) returns (at: nat)
      requires Valid() && key in cacheMap
      ensures at < |cacheList| && cacheList[at] == cacheMap[key] && cacheList[at].key == key
    {
      assert Listed(cacheList, cacheMap, key);
      at :| 0 <= at < |cacheList| && cacheList[at] == cacheMap[key];
    }

    /** Splices the node to the front: the same node, and not a change to the map. */
    method Renew(key: string) returns (ok: bool)
      requires Valid()
      modifies this
      ensures Valid() && maxSize == old(maxSize) && cacheMap == old(cacheMap) && removals == old(removals)
      ensures ok == (key in cacheMap)
      ensures !ok ==> cacheList == old(cacheList) && touched == old(touched)
      ensures ok ==> touched == old(touched) + [key] && IsSpliced(old(cacheList), cacheList, cacheMap[key])
      ensures ok ==> multiset(Entries()) == multiset(old(Entries()))
    {
      hide Caches, Agree, Total, Spliced, IsSpliced;
      if key !in cacheMap { return false; }
      var at := PlaceOf(key);
      ghost var list, entries := cacheList, Entries();
      AgreeSpliced(list, cacheMap, touched, at);
      SplicedTotal(entries, at);
      SplicedCaches(list, at);
      ItIsSpliced(list, cacheMap[key], at);
      SameEntries(entries, at);
      cacheList := Spliced(cacheList, at);
      touched := touched + [key];
      ok := true;
    }

    method Resize(newSize: nat) returns (outcome: Outcome)
      requires Valid()
      modifies this
      ensures Valid() && touched == old(touched)
      ensures outcome == if newSize == 0 then Threw(ZeroMaxSize) else Returned(true)
      ensures newSize == 0 ==> cacheList == old(cacheList) && maxSize == old(maxSize)
      ensures newSize != 0 ==> maxSize == newSize && cacheList == old(cacheList)[..Fitting(old(Entries()), 0, newSize)]
      ensures removals == Logged(old(removals), Reversed(old(Entries())[|cacheList|..]))
    {
      hide Caches, Agree, Total, Reversed, Fitting;
      NothingReversed<Cache>();
      assert Entries()[|cacheList|..] == [];
      if newSize == 0 { return Threw(ZeroMaxSize); }
      maxSize := newSize;
      RemoveCache(0);
      return Returned(true);
    }
  }

  // ---------- facts the methods use ----------

  /** `n` has been moved to the front of the list. */
  predicate IsSpliced(was: seq<Node>, now: seq<Node>, n: Node) {
    exists at :: 0 <= at < |was| && was[at] == n && now == Spliced(was, at)
  }

  lemma ItIsSpliced(list: seq<Node>, n: Node, at: nat)
    requires at < |list| && list[at] == n
    ensures IsSpliced(list, Spliced(list, at), n)
  {
  }

  lemma SameEntries(caches: seq<Cache>, at: nat)
    requires at < |caches|
    ensures multiset(Spliced(caches, at)) == multiset(caches)
  {
    assert caches == caches[..at] + [caches[at]] + caches[at + 1..];
  }

  predicate Distinct(list: seq<Node>) {
    forall i, j :: 0 <= i < j < |list| ==> list[i] != list[j]
  }

  lemma NoneDistinct()
    ensures Distinct([])
  {
  }

  lemma OneMoreDistinct(n: Node, pushed: seq<Node>, list: seq<Node>)
    ensures Distinct(pushed) && n !in pushed ==> Distinct([n] + pushed)
    ensures [n] + (pushed + list) == [n] + pushed + list
  {
  }

  function KeysOf(caches: seq<Cache>): set<string> {
    set c | c in caches :: c.key
  }

  predicate Apart(caches: seq<Cache>, i: int, j: int) {
    0 <= i < j < |caches| ==> caches[i].key != caches[j].key
  }

  predicate Absent(caches: seq<Cache>, index: Index, i: int) {
    0 <= i < |caches| ==> caches[i].key !in index
  }

  /** No key is repeated, and none is there already. */
  ghost predicate AllNew(caches: seq<Cache>, index: Index) {
    (forall i, j :: Apart(caches, i, j)) && forall i :: Absent(caches, index, i)
  }

  /** Node `i` is the newest of its key. */
  predicate Foremost(list: seq<Node>, i: int) {
    0 <= i < |list| && forall j :: 0 <= j < i ==> list[j].key != list[i].key
  }

  predicate SomeNode(list: seq<Node>, index: Index, k: string) {
    k in index ==> exists i :: 0 <= i < |list| && list[i].key == k
  }

  /** The keys are those of the list, and each leads to the newest node of that key. */
  ghost predicate FrontIndexed(list: seq<Node>, index: Index) {
    && (forall k :: SomeNode(list, index, k))
    && (forall i :: Foremost(list, i) ==> list[i].key in index && index[list[i].key] == list[i])
  }

  lemma AgreeFront(list: seq<Node>, index: Index, touched: seq<string>)
    requires Agree(list, index, touched)
    ensures FrontIndexed(list, index)
  {
    forall k
      ensures SomeNode(list, index, k)
    {
      assert Listed(list, index, k);
    }
    forall i | Foremost(list, i)
      ensures list[i].key in index && index[list[i].key] == list[i]
    {
      assert Indexed(list, index, i);
    }
  }

  lemma FrontPushed(list: seq<Node>, index: Index, n: Node)
    requires FrontIndexed(list, index)
    ensures FrontIndexed([n] + list, index[n.key := n])
  {
    var more, map' := [n] + list, index[n.key := n];
    assert forall i :: 1 <= i < |more| ==> more[i] == list[i - 1];
    forall k
      ensures SomeNode(more, map', k)
    {
      if k == n.key {
        assert more[0].key == k;
      } else if k in map' {
        assert SomeNode(list, index, k);
        var i :| 0 <= i < |list| && list[i].key == k;
        assert more[i + 1].key == k;
      }
    }
    forall i | Foremost(more, i)
      ensures more[i].key in map' && map'[more[i].key] == more[i]
    {
      if i > 0 { StillForemost(list, n, i); }
    }
  }

  lemma StillForemost(list: seq<Node>, n: Node, i: int)
    requires Foremost([n] + list, i) && i > 0
    ensures Foremost(list, i - 1) && list[i - 1].key != n.key && ([n] + list)[i] == list[i - 1]
  {
    var more := [n] + list;
    assert more[0].key != more[i].key;
    forall j | 0 <= j < i - 1
      ensures list[j].key != list[i - 1].key
    {
      assert more[j + 1].key != more[i].key;
    }
  }

  /** `init` on its way: `behind` has been taken over. */
  ghost predicate TakingOver(list: seq<Node>, index: Index, touched: seq<string>, behind: seq<Cache>, before: Index) {
    && FrontIndexed(list, index) && index.Keys == before.Keys + KeysOf(behind)
    && (AllNew(behind, before) ==> Agree(list, index, touched))
  }

  lemma TakesNone(list: seq<Node>, index: Index, touched: seq<string>, caches: seq<Cache>, entries: seq<Cache>)
    requires Agree(list, index, touched)
    ensures TakingOver(list, index, touched, caches[|caches|..], index)
    ensures caches[|caches|..] + entries == entries
  {
    AgreeFront(list, index, touched);
    assert caches[|caches|..] == [];
  }

  lemma TakesOne(list: seq<Node>, index: Index, touched: seq<string>, caches: seq<Cache>, n: nat, before: Index,
                 node: Node)
    requires 0 < n <= |caches| && node.key == caches[n - 1].key
    requires TakingOver(list, index, touched, caches[n..], before)
    ensures TakingOver([node] + list, index[node.key := node], touched + [node.key], caches[n - 1..], before)
  {
    var c, behind := caches[n - 1], caches[n..];
    BehindMore(caches, n, []);
    hide FrontIndexed, AllNew, Agree, KeysOf;
    NewerNew(c, behind, before);
    FrontPushed(list, index, node);
    if AllNew([c] + behind, before) { AgreePushed(list, index, touched, node); }
  }

  lemma BehindMore(caches: seq<Cache>, n: nat, entries: seq<Cache>)
    requires 0 < n <= |caches|
    ensures caches[n - 1..] == [caches[n - 1]] + caches[n..]
    ensures caches[n - 1..] + entries == [caches[n - 1]] + (caches[n..] + entries)
  {
  }

  lemma TakesAll(list: seq<Node>, index: Index, touched: seq<string>, caches: seq<Cache>,
                 behind: seq<Node>, before: Index, earlier: seq<string>)
    requires TakingOver(list, index, touched, caches[0..], before) && Agree(behind, before, earlier)
    requires Caches(list) == caches[0..] + Caches(behind)
    ensures FrontIndexed(list, index) && Caches(list) == caches + Caches(behind)
    ensures Agree(list, index, touched) <==> AllNew(caches, before)
  {
    hide Caches, AllNew, FrontIndexed;
    assert caches[0..] == caches;
    if Agree(list, index, touched) {
      forall i | 0 <= i < |caches|
        ensures list[i].key == caches[i].key
      {
        assert Caches(list)[i] == caches[i];
      }
      forall i | 0 <= i < |behind|
        ensures list[|caches| + i].key == behind[i].key
      {
        assert Caches(list)[|caches| + i] == Caches(behind)[i];
      }
      hide Agree;
      OnlyIfNew(list, index, touched, caches, behind, before, earlier);
    }
  }

  lemma NewerNew(c: Cache, behind: seq<Cache>, index: Index)
    ensures KeysOf([c] + behind) == KeysOf(behind) + {c.key}
    ensures AllNew([c] + behind, index) ==> AllNew(behind, index) && c.key !in index && c.key !in KeysOf(behind)
  {
    var all := [c] + behind;
    assert forall x :: x in all <==> x == c || x in behind;
    if AllNew(all, index) {
      assert Absent(all, index, 0);
      forall i, j
        ensures Apart(behind, i, j)
      {
        assert Apart(all, i + 1, j + 1);
      }
      forall i
        ensures Absent(behind, index, i)
        ensures 0 <= i < |behind| ==> behind[i].key != c.key
      {
        assert Absent(all, index, i + 1) && Apart(all, 0, i + 1);
      }
    }
  }

  /** The list that agrees with a map has one node per key. */
  lemma OnlyIfNew(list: seq<Node>, index: Index, touched: seq<string>, caches: seq<Cache>,
                  behind: seq<Node>, before: Index, earlier: seq<string>)
    requires Agree(list, index, touched) && Agree(behind, before, earlier)
    requires |list| == |caches| + |behind|
    requires forall i :: 0 <= i < |caches| ==> list[i].key == caches[i].key
    requires forall i :: 0 <= i < |behind| ==> list[|caches| + i].key == behind[i].key
    ensures AllNew(caches, before)
  {
    forall i, j
      ensures Apart(caches, i, j)
    {
      if 0 <= i < j < |caches| { OneNodePerKey(list, index, touched, i, j); }
    }
    forall i
      ensures Absent(caches, before, i)
    {
      if 0 <= i < |caches| && caches[i].key in before {
        assert Listed(behind, before, caches[i].key);
        var j :| 0 <= j < |behind| && behind[j] == before[caches[i].key];
        OneNodePerKey(list, index, touched, i, |caches| + j);
      }
    }
  }

  lemma NothingAgrees(touched: seq<string>)
    ensures Agree([], map[], touched) && Caches([]) == [] && Total([]) == 0
  {
  }

  lemma CachesPrefix(list: seq<Node>, n: nat)
    requires n <= |list|
    ensures Caches(list[..n]) == Caches(list)[..n]
  {
  }

  lemma CachesPushed(list: seq<Node>, n: Node)
    ensures Caches([n] + list) == [Cache(n.key, n.size)] + Caches(list)
  {
  }

  /** What `put` leaves alone. */
  predicate Rejects(index: Index, caches: seq<Cache>, cache: Cache) {
    || cache.key == "" || cache.size == 0
    || (cache.key in index
        && exists i :: 0 <= i < |caches| && caches[i].key == cache.key && cache.size <= caches[i].size)
  }

  /** Growth evicts from the old end; the entry, if it is still there, keeps its place and gets
      the size, and no other entry changes. */
  ghost predicate Resized(was: seq<Cache>, now: seq<Cache>, key: string, size: nat, maxSize: nat) {
    exists at: nat ::
      && at < |was| && was[at].key == key
      && |now| == (if size > was[at].size then Fitting(was, size - was[at].size, maxSize) else |was|)
      && (forall i :: 0 <= i < |now| && i != at ==> now[i] == was[i])
      && (at < |now| ==> now[at] == Cache(key, size))
  }

  /** Growing the entry of `key` evicts the entry itself: it and the newer entries leave too
      little room for the growth. */
  predicate Outgrows(caches: seq<Cache>, key: string, size: nat, maxSize: nat) {
    exists at :: 0 <= at < |caches| && caches[at].key == key && OutgrowsAt(caches, at, size, maxSize)
  }

  predicate OutgrowsAt(caches: seq<Cache>, at: int, size: nat, maxSize: nat) {
    0 <= at < |caches| && size > caches[at].size && Total(caches[..at + 1]) + (size - caches[at].size) > maxSize
  }

  predicate OneEntry(caches: seq<Cache>, at: nat) {
    at < |caches| && forall i :: 0 <= i < |caches| && caches[i].key == caches[at].key ==> i == at
  }

  /** The entry of a key is what its node holds. */
  lemma EntryOf(list: seq<Node>, index: Index, touched: seq<string>, at: nat)
    requires Agree(list, index, touched) && at < |list|
    ensures OneEntry(Caches(list), at) && Caches(list)[at] == Cache(list[at].key, list[at].size)
  {
    forall i | 0 <= i < |list| && Caches(list)[i].key == list[at].key
      ensures i == at
    {
      OneNodePerKey(list, index, touched, i, at);
    }
  }

  lemma OneNodeEach(list: seq<Node>, index: Index, touched: seq<string>, at: nat)
    requires Agree(list, index, touched) && at < |list|
    ensures forall i :: 0 <= i < |list| && i != at ==> list[i] != list[at]
  {
    forall i | 0 <= i < |list| && i != at
      ensures list[i] != list[at]
    {
      OneNodePerKey(list, index, touched, i, at);
    }
  }

  lemma OutgrowsIff(caches: seq<Cache>, at: nat, key: string, size: nat, maxSize: nat)
    requires OneEntry(caches, at) && caches[at].key == key
    ensures Outgrows(caches, key, size, maxSize)
            <==> size > caches[at].size && at >= Fitting(caches, size - caches[at].size, maxSize)
  {
    if size > caches[at].size { GrowthErasesTargetIff(caches, at, size, maxSize); }
    hide Fitting;
    if OutgrowsAt(caches, at, size, maxSize) { assert Outgrows(caches, key, size, maxSize); }
  }

  lemma ResizedBy(was: seq<Cache>, kept: seq<Cache>, at: nat, key: string, size: nat, maxSize: nat)
    requires at < |was| && was[at].key == key
    requires kept == was[..if size > was[at].size then Fitting(was, size - was[at].size, maxSize) else |was|]
    ensures Resized(was, if at < |kept| then kept[at := Cache(key, size)] else kept, key, size, maxSize)
  {
    hide Fitting;
    var now := if at < |kept| then kept[at := Cache(key, size)] else kept;
    assert |now| == |kept|;
  }

  lemma NothingReversed<T>()
    ensures Reversed<T>([]) == []
  {
  }

  /** One turn of the eviction loop. */
  lemma OneFewer(all: seq<Cache>, n: nat, required: nat, maxSize: nat)
    requires 0 < n <= |all| && Total(all[..n]) + required > maxSize
    ensures all[..n][..n - 1] == all[..n - 1] && Total(all[..n]) == Total(all[..n - 1]) + all[n - 1].size
    ensures Fitting(all[..n - 1], required, maxSize) == Fitting(all[..n], required, maxSize)
    ensures Reversed(all[n - 1..]) == Reversed(all[n..]) + [all[n - 1]]
  {
    assert all[..n][..n - 1] == all[..n - 1];
    ReversedMore(all, n);
  }

  lemma NoneFewer(all: seq<Cache>)
    ensures all[..|all|] == all && Reversed(all[|all|..]) == []
  {
  }

  lemma FittingAll(caches: seq<Cache>, required: nat, maxSize: nat)
    ensures caches == [] || Total(caches) + required <= maxSize ==> Fitting(caches, required, maxSize) == |caches|
  {
  }

  /** After eviction for a new entry, the entry fits, or it is left alone. */
  lemma FitsOrAlone(caches: seq<Cache>, required: nat, maxSize: nat)
    ensures var n := Fitting(caches, required, maxSize);
            n == 0 || Total(caches[..n]) + required <= maxSize
  {
    StaysIffFits(caches, required, maxSize, Fitting(caches, required, maxSize));
  }

  /** A node is in the map as long as the list has not been cut back to it. */
  lemma StillListed(was: seq<Node>, before: Index, list: seq<Node>, index: Index, touched: seq<string>, at: nat)
    requires Agree(was, before, touched) && Agree(list, index, touched) && at < |was|
    requires |list| <= |was| && list == was[..|list|]
    ensures was[at].key in index <==> at < |list|
    ensures at < |list| ==> list[at] == was[at] && index[was[at].key] == was[at]
  {
    var key := was[at].key;
    assert Listed(list, index, key) && Indexed(list, index, at);
    if key in index {
      var i :| 0 <= i < |list| && list[i] == index[key];
      OneNodePerKey(was, before, touched, i, at);
    }
  }

  lemma ReversedMore<T>(all: seq<T>, n: nat)
    requires 0 < n <= |all|
    ensures Reversed(all[n - 1..]) == Reversed(all[n..]) + [all[n - 1]]
  {
    assert all[n - 1..] == [all[n - 1]] + all[n..];
    ReversedCons(all[n - 1], all[n..]);
  }

  lemma {:induction false} ReversedCons<T>(n: T, list: seq<T>)
    ensures Reversed([n] + list) == Reversed(list) + [n]
  {
    if list != [] {
      ReversedCons(n, list[..|list| - 1]);
      assert ([n] + list)[..|list|] == [n] + list[..|list| - 1];
    }
  }

  // ---------- what the contracts add up to ----------

  /** Growing entry `at` cuts the list back to it, and so runs into an erased iterator, exactly
      when it and the newer entries leave too little room for the growth. */
  lemma GrowthErasesTargetIff(caches: seq<Cache>, at: nat, size: nat, maxSize: nat)
    requires at < |caches| && size > caches[at].size
    ensures at >= Fitting(caches, size - caches[at].size, maxSize)
            <==> Total(caches[..at + 1]) + (size - caches[at].size) > maxSize
  {
    StaysIffFits(caches, size - caches[at].size, maxSize, at + 1);
  }

  /** Growing entry `at` drops the oldest entries, exactly those that do not fit with the growth
      and the newer ones; the entry keeps its place, and loses its node if it was dropped. */
  lemma GrowthTold(was: seq<Cache>, now: seq<Cache>, at: nat, size: nat, maxSize: nat, n: nat)
    requires OneEntry(was, at) && Resized(was, now, was[at].key, size, maxSize) && n <= |was|
    ensures size <= was[at].size ==> now == was[at := Cache(was[at].key, size)]
    ensures size > was[at].size ==>
              && (n <= |now| <==> n == 0 || Total(was[..n]) + size - was[at].size <= maxSize)
              && now == (if at < |now| then was[at := Cache(was[at].key, size)] else was)[..|now|]
    ensures Outgrows(was, was[at].key, size, maxSize) <==> at >= |now|
  {
    hide Fitting, Total;
    if size > was[at].size { StaysIffFits(was, size - was[at].size, maxSize, n); }
    OutgrowsIff(was, at, was[at].key, size, maxSize);
  }

  /** The order of a report. */
  lemma {:induction false} ReversedAt<T>(list: seq<T>, k: nat)
    requires k < |list|
    ensures Reversed(list)[k] == list[|list| - 1 - k]
  {
    if k > 0 { ReversedAt(list[..|list| - 1], k - 1); }
  }

  /** A fresh object that takes over what `backup` hands out has the same entries in the same
      order. */
  method Restart(cache: Lru) returns (again: Lru)
    requires cache.Valid() && cache.maxSize > 0
    modifies cache
    ensures fresh(again) && again.Valid() && again.maxSize == old(cache.maxSize)
    ensures again.Entries() == old(cache.Entries()) && again.cacheSize == old(cache.cacheSize)
  {
    hide Agree, Total, Caches, Distinct, FrontIndexed;
    ghost var list, index, touched := cache.cacheList, cache.cacheMap, cache.touched;
    again := new Lru(cache.maxSize);
    var caches := cache.Backup();
    forall i, j
      ensures Apart(caches, i, j)
    {
      if 0 <= i < j < |caches| { OneNodePerKey(list, index, touched, i, j); }
    }
    again.Init(caches);
  }

  // ---------- where it goes wrong ----------

  /** Two `put`s on a fresh cache: the second grows the only entry beyond the limit. */
  method GrowthMeetsErasedIterator() returns (outcome: Outcome)
    ensures outcome == ErasedIterator
  {
    hide Agree, Caches, Fitting, Reversed, Resized;
    var cache := new Lru(10);
    var first := Cache("a", 5);
    NothingAgrees([]);
    var put := cache.Put(first);
    assert cache.Entries() == [first];
    OnlyEntryOutgrows(first, 11, 10);
    assert cache.cacheList[0].key == "a" by { assert Caches(cache.cacheList)[0] == first; }
    assert "a" in cache.cacheMap by { KeysAgree(cache.cacheList, cache.cacheMap, cache.touched); }
    outcome := cache.Put(Cache("a", 11));
  }

  lemma OnlyEntryOutgrows(c: Cache, size: nat, maxSize: nat)
    requires size > c.size && size > maxSize
    ensures Outgrows([c], c.key, size, maxSize)
  {
    TotalOne(c);
    assert [c][..1] == [c];
    assert OutgrowsAt([c], 0, size, maxSize);
  }

  lemma KeysAgree(list: seq<Node>, index: Index, touched: seq<string>)
    requires Agree(list, index, touched)
    ensures forall i :: 0 <= i < |list| ==> list[i].key in index
  {
    forall i | 0 <= i < |list|
      ensures list[i].key in index
    {
      assert Indexed(list, index, i);
    }
  }

  /** A vector with a repeated key: two nodes, but one key in the map. */
  method RepeatedKeyBreaksInit() returns (cache: Lru)
    ensures fresh(cache) && |cache.cacheList| == 2 && cache.cacheMap.Keys == {"a"} && !cache.Valid()
  {
    hide Agree, Caches, Total;
    cache := new Lru(10);
    NothingAgrees([]);
    var caches := [Cache("a", 1), Cache("a", 2)];
    cache.Init(caches);
    assert !Apart(caches, 0, 1);
    var list := cache.cacheList;
    assert forall i :: 0 <= i < 2 ==> list[i].key == "a" by {
      assert forall i :: 0 <= i < 2 ==> Caches(list)[i] == caches[i];
    }
    assert Foremost(list, 0);
    forall k | k in cache.cacheMap
      ensures k == "a"
    {
      assert SomeNode(list, cache.cacheMap, k);
    }
  }
}
