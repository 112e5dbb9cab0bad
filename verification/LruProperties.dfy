/** What every call of the LRU engine keeps and promises. */
module LruProperties {
  import opened MachineWords
  import opened CacheEngine
  import opened LruRecency

  // ---------- one call ----------

  lemma KeptTotal(l: seq<Row>, room: int)
    ensures Keep(l, room) == [] || Total(Keep(l, room)) <= room
    ensures Total(Keep(l, room)) <= Total(l)
  {
    var n := |Keep(l, room)|;
    SurvivesIffFits(l, room, n);
    TotalPrefix(l, n);
    assert Keep(l, room) == l[..n];
  }

  ghost predicate GoodList(l: seq<Row>) {
    Sorted(l) && GoodRows(l)
  }

  /** Where the rows of a moved list come from. */
  function Origin(i: nat, j: nat): nat {
    if j == 0 then i else if j <= i then j - 1 else j
  }

  lemma MovedRows(l: seq<Row>, i: nat, sequence: int)
    requires Sorted(l) && i < |l|
    ensures var b := MoveToFront(l, l[i].key, sequence);
            && |b| == |l|
            && b[0] == l[i].(sequence := sequence)
            && (forall j :: 1 <= j < |b| ==> b[j] == l[Origin(i, j)])
  {
    PositionAt(l, i);
  }

  lemma MovedGood(l: seq<Row>, i: nat, sequence: int)
    requires GoodList(l) && i < |l| && sequence > l[0].sequence
    ensures GoodList(MoveToFront(l, l[i].key, sequence))
  {
    var b := MoveToFront(l, l[i].key, sequence);
    MovedRows(l, i, sequence);
    forall j, k | 0 <= j < k < |b|
      ensures Ordered(b, j, k)
    {
      assert b[k] == l[Origin(i, k)];
      if j == 0 {
        NewestFirst(l, Origin(i, k));
        OneRowPerKey(l, i, Origin(i, k));
      } else {
        assert b[j] == l[Origin(i, j)];
        assert Ordered(l, Origin(i, j), Origin(i, k));
      }
    }
    forall j | 0 <= j < |b|
      ensures GoodRow(b[j])
    {
      assert GoodRow(l[Origin(i, j)]);
      assert j > 0 ==> b[j] == l[Origin(i, j)];
    }
  }

  lemma NewestFirst(l: seq<Row>, i: nat)
    requires Sorted(l) && i < |l|
    ensures l[i].sequence <= l[0].sequence
  {
    assert Ordered(l, 0, i);
  }

  lemma MovedTotal(l: seq<Row>, i: nat, sequence: int)
    requires Sorted(l) && i < |l|
    ensures Total(MoveToFront(l, l[i].key, sequence)) == Total(l)
  {
    PositionAt(l, i);
    TotalOnePoint(l, i);
    var moved := l[i].(sequence := sequence);
    TotalAppend([moved], l[..i] + l[i + 1..]);
    TotalAppend(l[..i], l[i + 1..]);
    assert Total([moved]) == l[i].size;
  }

  predicate HeadIs(l: seq<Row>, r: Row) {
    l != [] && l[0] == r
  }

  /** Moving a hit to the front keeps a good list with the same bytes, */
  lemma BaseIsGood(s: State, op: Op)
    requires Inv(s)
    ensures GoodList(Base(s, op)) && Total(Base(s, op)) == Total(s.list)
  {
    if Hits(s, op) {
      var i := Position(s.list, KeyOf(op));
      MovedGood(s.list, i, s.meta.sequence + 1);
      MovedTotal(s.list, i, s.meta.sequence + 1);
    }
  }

  /** with the row just touched, if any, at its head. */
  lemma BaseHead(s: State, op: Op)
    requires Inv(s)
    ensures Hits(s, op) ==> HeadIs(Base(s, op), Row(KeyOf(op), Find(s.list, KeyOf(op)).size, s.meta.sequence + 1))
    ensures !Hits(s, op) ==> Base(s, op) == s.list
  {
  }

  lemma NewHeadGood(l: seq<Row>, r: Row)
    requires GoodList(l) && GoodRow(r) && !HasKey(l, r.key) && (l != [] ==> l[0].sequence < r.sequence)
    ensures GoodList([r] + l)
  {
    var m := [r] + l;
    assert forall i :: 1 <= i < |m| ==> m[i] == l[i - 1];
    forall i, j | 0 <= i < j < |m|
      ensures Ordered(m, i, j)
    {
      if i == 0 { NewestFirst(l, j - 1); } else { assert Ordered(l, i - 1, j - 1); }
    }
    forall i | 0 <= i < |m|
      ensures GoodRow(m[i])
    {
      assert i > 0 ==> GoodRow(l[i - 1]);
    }
  }

  lemma PrefixKeys(l: seq<Row>, p: seq<Row>, key: string)
    requires p <= l
    ensures HasKey(p, key) ==> HasKey(l, key)
  {
    if HasKey(p, key) {
      var i := Position(p, key);
      assert l[i].key == key;
    }
  }

  lemma SetSizeKeepsGood(l: seq<Row>, key: string, size: nat)
    requires GoodList(l) && size >= 1
    ensures GoodList(SetSize(l, key, size))
  {
    var r := SetSize(l, key, size);
    forall i, j | 0 <= i < j < |r|
      ensures Ordered(r, i, j)
    {
      assert Ordered(l, i, j);
    }
    forall i | 0 <= i < |r|
      ensures GoodRow(r[i])
    {
      assert GoodRow(l[i]);
    }
  }

  /** In a good list a key has one row, wherever it is looked up. */
  lemma FindInPrefix(l: seq<Row>, p: seq<Row>, key: string)
    requires Sorted(l) && p <= l && HasKey(p, key)
    ensures HasKey(l, key) && Find(p, key) == Find(l, key)
  {
    SortedSlice(l, 0, |p|);
    assert p == l[0..|p|];
    var i := Position(p, key);
    PositionAt(l, i);
  }

  /** Whatever room is given, what is kept is still good and led by the same row. */
  lemma KeptGood(l: seq<Row>, room: int)
    requires GoodList(l)
    ensures GoodList(Keep(l, room))
    ensures Keep(l, room) != [] ==> Keep(l, room)[0] == l[0]
  {
    PrefixGood(l, Keep(l, room));
  }

  lemma PrefixGood(l: seq<Row>, p: seq<Row>)
    requires GoodList(l) && p <= l
    ensures GoodList(p)
  {
    SortedSlice(l, 0, |p|);
    assert p == l[..|p|];
    forall i | 0 <= i < |p|
      ensures GoodRow(p[i])
    {
      assert GoodRow(l[i]);
    }
  }

  /** Rewriting a size after making room for the growth stays within the limit. */
  lemma RewriteFits(l: seq<Row>, key: string, size: nat, maxSize: nat)
    requires GoodList(l) && Total(l) <= maxSize && HasKey(l, key) && 1 <= size <= maxSize
    ensures var r := SetSize(Keep(l, GrowthRoom(maxSize, Find(l, key).size, size)), key, size);
            GoodList(r) && Total(r) <= maxSize && (r != [] ==> r[0].sequence == l[0].sequence)
  {
    var room := GrowthRoom(maxSize, Find(l, key).size, size);
    var kept := Keep(l, room);
    KeptGood(l, room);
    KeptTotal(l, room);
    SetSizeKeepsGood(kept, key, size);
    TotalSetSize(kept, key, size);
    if HasKey(kept, key) { FindInPrefix(l, kept, key); }
  }

  lemma InvAfterPut(s: State, key: string, size: nat)
    requires Inv(s) && Result(s, Put(key, size)).Returned?
    ensures Inv(Next(s, Put(key, size)))
  {
    if HasKey(s.list, key) { InvAfterDuplicatePut(s, key, size); } else { InvAfterNewPut(s, key, size); }
  }

  lemma InvAfterNewPut(s: State, key: string, size: nat)
    requires Inv(s) && key != "" && 1 <= size <= s.meta.maxSize && !HasKey(s.list, key)
    ensures Inv(Next(s, Put(key, size)))
  {
    var kept, r := Keep(s.list, s.meta.maxSize - size), Row(key, size, s.meta.sequence + 1);
    NextPutNew(s, key, size);
    assert Total([r]) == size && Total([]) == 0;
    KeptPrefix(s.list, s.meta.maxSize - size);
    hide Next, Keep, Total, HasKey;
    KeptTotal(s.list, s.meta.maxSize - size);
    KeptGood(s.list, s.meta.maxSize - size);
    PrefixKeys(s.list, kept, key);
    TotalAppend([r], kept);
    NewHeadGood(kept, r);
  }

  lemma KeptPrefix(l: seq<Row>, room: int)
    ensures Keep(l, room) <= l
  {
  }

  lemma InvAfterDuplicatePut(s: State, key: string, size: nat)
    requires Inv(s) && Result(s, Put(key, size)) == Returned(false)
    ensures Inv(Next(s, Put(key, size)))
  {
    var op := Put(key, size);
    var base := Base(s, op);
    NextPutHit(s, key, size);
    hide Next, Base, Keep, Find, SetSize, Total;
    BaseIsGood(s, op);
    BaseHead(s, op);
    FindHead(base, key);
    RewriteFits(base, key, size, s.meta.maxSize);
    if size <= Find(s.list, key).size { FitsWhole(base, s.meta.maxSize); }
  }

  lemma FindHead(l: seq<Row>, key: string)
    requires Sorted(l) && l != [] && l[0].key == key
    ensures HasKey(l, key) && Find(l, key) == l[0]
  {
    PositionAt(l, 0);
  }

  lemma InvAfterUpdate(s: State, key: string, size: nat)
    requires Inv(s) && Result(s, Update(key, size)).Returned?
    ensures Inv(Next(s, Update(key, size)))
  {
    var op := Update(key, size);
    if HasKey(s.list, key) {
      NextUpdateHit(s, key, size);
      hide Next, Keep, Find, SetSize, Total;
      RewriteFits(s.list, key, size, s.meta.maxSize);
    } else {
      NextNothing(s, op);
    }
  }

  lemma InvAfterRenew(s: State, key: string)
    requires Inv(s)
    ensures Inv(Next(s, Renew(key)))
  {
    var op := Renew(key);
    if key != "" && HasKey(s.list, key) {
      NextRenewHit(s, key);
      hide Next, Base, Keep, Find, Total;
      BaseIsGood(s, op);
      BaseHead(s, op);
      FitsWhole(Base(s, op), s.meta.maxSize);
    } else {
      NextNothing(s, op);
    }
  }

  /** Byte accounting, unique keys and sequence numbers, and the newest row carrying the
      current sequence number survive every call, whether it succeeds or throws. */
  lemma InvKept(s: State, op: Op)
    requires Inv(s) && Representable(op)
    ensures Inv(Next(s, op))
  {
    if Result(s, op).Threw? {
      NextNothing(s, op);
    } else {
      match op
      case Put(key, size) => InvAfterPut(s, key, size);
      case Renew(key) => InvAfterRenew(s, key);
      case Update(key, size) => InvAfterUpdate(s, key, size);
      case Resize(size) =>
        KeptGood(s.list, size);
        KeptTotal(s.list, size);
    }
  }

  /** A duplicate `put` (or a renewal) never evicts its own target. */
  lemma HitStays(s: State, op: Op)
    requires Inv(s) && Hits(s, op)
    ensures Survivors(s, op) != [] && Survivors(s, op)[0] == Base(s, op)[0]
    ensures HasKey(Survivors(s, op), KeyOf(op))
    ensures Survivors(s, op)[0].key == KeyOf(op)
  {
    var base := Base(s, op);
    BaseIsGood(s, op);
    BaseHead(s, op);
    assert Total(base[..1]) == base[0].size;
    SurvivesIffFits(base, Room(s, op), 1);
    TotalPrefix(base, 1);
  }

  /** and leaves that target newest, with the larger of the two sizes. */
  lemma DuplicatePutKeepsTarget(s: State, key: string, size: nat)
    requires Inv(s) && Result(s, Put(key, size)) == Returned(false)
    ensures var l := Next(s, Put(key, size)).list;
            var before := Find(s.list, key).size;
            l != [] && l[0] == Row(key, if size > before then size else before, s.meta.sequence + 1)
    ensures !HasKey(Victims(s, Put(key, size)), key)
  {
    var op := Put(key, size);
    NextPutHit(s, key, size);
    BaseIsGood(s, op);
    BaseHead(s, op);
    FindHead(Base(s, op), key);
    HitStays(s, op);
    VictimsFromTail(Base(s, op), Room(s, op), key);
    PositionAt(Base(s, op), 0);
    KeptGood(Base(s, op), Room(s, op));
    PositionAt(Survivors(s, op), 0);
  }

  /** A row is among the victims exactly when it is not kept. */
  lemma VictimsFromTail(l: seq<Row>, room: int, key: string)
    requires Sorted(l)
    ensures var victims := Reversed(l[|Keep(l, room)|..]);
            HasKey(l, key) ==> (HasKey(victims, key) <==> !HasKey(Keep(l, room), key))
  {
    if HasKey(l, key) {
      var i := Position(l, key);
      var kept := Keep(l, room);
      var victims := Reversed(l[|kept|..]);
      KeptIff(l, room, i);
      if i >= |kept| {
        assert victims[|l| - 1 - i].key == key;
      }
      if HasKey(victims, key) {
        var j :| 0 <= j < |victims| && victims[j].key == key;
        OneRowPerKey(l, i, |l| - 1 - j);
      }
    }
  }

  /** Growing an entry loses it exactly when it and everything newer than it no longer fit;
      otherwise it ends with the new size. */
  lemma UpdateLosesTargetIff(s: State, i: nat, size: nat)
    requires Inv(s) && i < |s.list| && Result(s, Update(s.list[i].key, size)).Returned?
    ensures var key, op := s.list[i].key, Update(s.list[i].key, size);
            var next := Next(s, op).list;
            && (HasKey(Victims(s, op), key)
                <==> Total(s.list[..i + 1]) + size - s.list[i].size > s.meta.maxSize)
            && (HasKey(Victims(s, op), key) <==> !HasKey(next, key))
            && (HasKey(next, key) ==> Find(next, key).size == size)
  {
    var key, op := s.list[i].key, Update(s.list[i].key, size);
    PositionAt(s.list, i);
    VictimsFromTail(s.list, Room(s, op), key);
    KeptIff(s.list, Room(s, op), i);
    SurvivesIffFits(s.list, Room(s, op), i + 1);
    TotalPrefix(s.list, i + 1);
    KeptGood(s.list, Room(s, op));
    SetSizeFinds(Keep(s.list, Room(s, op)), key, size);
  }

  lemma KeptIff(l: seq<Row>, room: int, i: nat)
    requires Sorted(l) && i < |l|
    ensures HasKey(Keep(l, room), l[i].key) <==> i < |Keep(l, room)|
  {
    var kept := Keep(l, room);
    if HasKey(kept, l[i].key) {
      var j :| 0 <= j < |kept| && kept[j].key == l[i].key;
      OneRowPerKey(l, i, j);
    }
    if i < |kept| { assert kept[i].key == l[i].key; }
  }

  lemma SetSizeFinds(l: seq<Row>, key: string, size: nat)
    requires GoodList(l) && size >= 1
    ensures HasKey(SetSize(l, key, size), key) <==> HasKey(l, key)
    ensures HasKey(l, key) ==> Find(SetSize(l, key, size), key).size == size
  {
    var r := SetSize(l, key, size);
    if HasKey(l, key) {
      SetSizeKeepsGood(l, key, size);
      PositionAt(r, Position(l, key));
    }
  }

  /** Eviction is oldest first and minimal: victims come in increasing sequence order, each
      is older than every survivor, and sparing the last one would leave too little room. */
  lemma VictimsAreOldestAndMinimal(s: State, op: Op)
    requires Inv(s) && Result(s, op).Returned?
    ensures var victims, kept := Victims(s, op), Survivors(s, op);
            && (forall i, j :: 0 <= i < j < |victims| ==> victims[i].sequence < victims[j].sequence)
            && (forall i, j :: 0 <= i < |victims| && 0 <= j < |kept| ==> victims[i].sequence < kept[j].sequence)
            && (victims != [] ==> Total(kept + [victims[|victims| - 1]]) > Room(s, op))
            && Base(s, op) == kept + Reversed(victims)
  {
    BaseIsGood(s, op);
    DroppedAreOldest(Base(s, op), |Survivors(s, op)|);
    LastDroppedWasNeeded(Base(s, op), Room(s, op));
  }

  lemma DroppedAreOldest(l: seq<Row>, n: nat)
    requires Sorted(l) && n <= |l|
    ensures var victims := Reversed(l[n..]);
            && (forall i, j :: 0 <= i < j < |victims| ==> victims[i].sequence < victims[j].sequence)
            && (forall i, j :: 0 <= i < |victims| && 0 <= j < n ==> victims[i].sequence < l[j].sequence)
  {
    var victims := Reversed(l[n..]);
    forall i, j | 0 <= i < j < |victims|
      ensures victims[i].sequence < victims[j].sequence
    {
      assert Ordered(l, |l| - 1 - j, |l| - 1 - i);
    }
    forall i, j | 0 <= i < |victims| && 0 <= j < n
      ensures victims[i].sequence < l[j].sequence
    {
      assert Ordered(l, j, |l| - 1 - i);
    }
  }

  lemma LastDroppedWasNeeded(l: seq<Row>, room: int)
    ensures var kept := Keep(l, room);
            var victims := Reversed(l[|kept|..]);
            && (victims != [] ==> Total(kept + [victims[|victims| - 1]]) > room)
            && l == kept + Reversed(victims)
  {
    var n := |Keep(l, room)|;
    if n < |l| {
      assert l[..n + 1] == Keep(l, room) + [l[n]];
      SurvivesIffFits(l, room, n + 1);
    }
    assert Reversed(Reversed(l[n..])) == l[n..];
  }
}
