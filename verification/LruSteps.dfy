/** What each call of the LRU engine does to the recency list, told by bytes and positions
    alone: which rows stay, in which order, and which are reported. */
module LruSteps {
  import opened MachineWords
  import opened CacheEngine
  import opened LruRecency
  import opened LruProperties

  /** `put` of a new key: the row goes first, behind it the longest prefix of the old list that
      fits beside it; the rest is reported from the old end. */
  lemma PutNewKeeps(s: State, key: string, size: nat, n: nat)
    requires Inv(s) && key != "" && 1 <= size <= s.meta.maxSize && !HasKey(s.list, key) && n <= |s.list|
    ensures var op, t := Put(key, size), Next(s, Put(key, size));
            && Result(s, op) == Returned(true)
            && t.list != [] && t.list[0] == Row(key, size, s.meta.sequence + 1)
            && s.list == t.list[1..] + Reversed(Victims(s, op))
            && (n < |t.list| <==> n == 0 || Total(s.list[..n]) + size <= s.meta.maxSize)
            && t.meta == Meta(Total(t.list), s.meta.maxSize, s.meta.sequence + 1)
  {
    hide Next, Victims, Result, Keep, Total, Reversed, Fitting, Inv, HasKey;
    var room := s.meta.maxSize - size;
    NextPutNew(s, key, size);
    SurvivesIffFits(s.list, room, n);
    SplitKept(s.list, room);
    assert ([Row(key, size, s.meta.sequence + 1)] + Keep(s.list, room))[1..] == Keep(s.list, room);
  }

  lemma SplitKept(l: seq<Row>, room: int)
    ensures l == Keep(l, room) + Reversed(Reversed(l[|Keep(l, room)|..])) && |Keep(l, room)| == Fitting(l, room)
  {
    TwiceReversed(l[Fitting(l, room)..]);
  }

  lemma TwiceReversed(l: seq<Row>)
    ensures Reversed(Reversed(l)) == l
  {
  }

  /** `put` of a key that is there: its row goes first, with the larger size; behind it, in
      their order, the longest prefix of the others that fits beside it. */
  lemma PutAgainKeeps(s: State, at: nat, size: nat, n: nat)
    requires Inv(s) && at < |s.list| && 1 <= size <= s.meta.maxSize && n < |s.list|
    ensures var key, before := s.list[at].key, s.list[at].size;
            var larger, others := if size > before then size else before, s.list[..at] + s.list[at + 1..];
            var op, t := Put(key, size), Next(s, Put(key, size));
            && Result(s, op) == Returned(false)
            && t.list != [] && t.list[0] == Row(key, larger, s.meta.sequence + 1)
            && others == t.list[1..] + Reversed(Victims(s, op))
            && (n < |t.list| <==> n == 0 || Total(others[..n]) + larger <= s.meta.maxSize)
            && t.meta == Meta(Total(t.list), s.meta.maxSize, s.meta.sequence + 1)
  {
    hide Next, Victims, Result, Base, Keep, Total, Reversed, Find, SetSize, Inv, HasKey, Fitting, Survivors, Room;
    var row, op := s.list[at], Put(s.list[at].key, size);
    var head, others := row.(sequence := s.meta.sequence + 1), s.list[..at] + s.list[at + 1..];
    var room := GrowthRoom(s.meta.maxSize, row.size, size);
    HitBase(s, at, size);
    NextPutHit(s, row.key, size);
    BaseIsGood(s, op);
    FirstFits(head, others, room, n);
    SplitKept(Base(s, op), room);
    KeptHead(Base(s, op), room, row.key, size);
    assert ([head] + others)[1..] == others;
    HeadAndRest(head, others, Keep(Base(s, op), room), Victims(s, op), head.(size := size));
  }

  lemma HeadAndRest(head: Row, others: seq<Row>, kept: seq<Row>, victims: seq<Row>, grown: Row)
    requires [head] + others == kept + Reversed(victims) && kept != []
    ensures kept[0] == head && others == kept[1..] + Reversed(victims)
    ensures ([grown] + kept[1..])[1..] == kept[1..]
  {
    assert ([head] + others)[0] == head && (kept + Reversed(victims))[0] == kept[0];
    assert ([head] + others)[1..] == others && (kept + Reversed(victims))[1..] == kept[1..] + Reversed(victims);
  }

  lemma HitBase(s: State, at: nat, size: nat)
    requires Inv(s) && at < |s.list| && 1 <= size <= s.meta.maxSize
    ensures var row, op := s.list[at], Put(s.list[at].key, size);
            var room := GrowthRoom(s.meta.maxSize, row.size, size);
            && row.key != "" && HasKey(s.list, row.key) && Find(s.list, row.key) == row
            && Base(s, op) == [row.(sequence := s.meta.sequence + 1)] + (s.list[..at] + s.list[at + 1..])
            && Keep(Base(s, op), room) != [] && row.size <= room
  {
    var row, op := s.list[at], Put(s.list[at].key, size);
    assert GoodRow(row);
    PositionAt(s.list, at);
    HitStays(s, op);
    TotalOnePoint(s.list, at);
  }

  /** How many rows stay behind a head. */
  lemma FirstFits(head: Row, others: seq<Row>, room: int, n: nat)
    requires n <= |others|
    ensures n < Fitting([head] + others, room) <==> head.size + Total(others[..n]) <= room
  {
    var l := [head] + others;
    SurvivesIffFits(l, room, n + 1);
    assert l[..n + 1] == [head] + others[..n];
    TotalAppend([head], others[..n]);
    assert Total([head]) == head.size;
  }

  lemma KeptHead(l: seq<Row>, room: int, key: string, size: nat)
    requires GoodList(l) && Keep(l, room) != [] && l[0].key == key
    ensures SetSize(Keep(l, room), key, size) == [l[0].(size := size)] + Keep(l, room)[1..]
  {
    KeptGood(l, room);
    PositionAt(Keep(l, room), 0);
  }

  /** `renew` of a key that is there moves its row first and does nothing else. */
  lemma RenewMoves(s: State, at: nat)
    requires Inv(s) && at < |s.list|
    ensures var op := Renew(s.list[at].key);
            && Result(s, op) == Returned(true) && Victims(s, op) == []
            && Next(s, op) == State([s.list[at].(sequence := s.meta.sequence + 1)] + (s.list[..at] + s.list[at + 1..]),
                                    s.meta.(sequence := s.meta.sequence + 1))
  {
    var op := Renew(s.list[at].key);
    assert GoodRow(s.list[at]);
    PositionAt(s.list, at);
    NextRenewHit(s, s.list[at].key);
    BaseIsGood(s, op);
    FitsWhole(Base(s, op), s.meta.maxSize);
  }

  /** `update` of a key that is there: the longest prefix of the list that fits beside the
      growth stays in place, and in it only the size of that key changes. */
  lemma UpdateKeeps(s: State, at: nat, size: nat, n: nat)
    requires Inv(s) && at < |s.list| && 1 <= size <= s.meta.maxSize && n <= |s.list|
    ensures var row := s.list[at];
            var op, t := Update(row.key, size), Next(s, Update(row.key, size));
            && Result(s, op) == Returned(true)
            && |t.list| <= |s.list| && s.list[|t.list|..] == Reversed(Victims(s, op))
            && (forall k :: 0 <= k < |t.list| ==> t.list[k] == if k == at then row.(size := size) else s.list[k])
            && (n <= |t.list| <==>
                  n == 0 || Total(s.list[..n]) + (if size > row.size then size - row.size else 0) <= s.meta.maxSize)
            && t.meta == s.meta.(cacheSize := Total(t.list))
  {
    hide Next, Victims, Result, Reversed, SetSize, Total, Find, Inv, HasKey, Sorted, GoodRows;
    var row := s.list[at];
    HitBase(s, at, size);
    NextUpdateHit(s, row.key, size);
    var room := GrowthRoom(s.meta.maxSize, row.size, size);
    SurvivesIffFits(s.list, room, n);
    ResizedInPlace(s, at, size, Fitting(s.list, room));
    TwiceReversed(s.list[Fitting(s.list, room)..]);
  }

  lemma ResizedInPlace(s: State, at: nat, size: nat, m: nat)
    requires Inv(s) && at < |s.list| && m <= |s.list|
    ensures var kept, row := s.list[..m], s.list[at];
            SetSize(kept, row.key, size) == if at < m then kept[at := row.(size := size)] else kept
  {
    var kept := s.list[..m];
    SortedSlice(s.list, 0, m);
    assert kept == s.list[0..m];
    if at < m { PositionAt(kept, at); }
    if HasKey(kept, s.list[at].key) { OneRowPerKey(s.list, at, Position(kept, s.list[at].key)); }
  }

  /** `renew` and `update` of a key that is not there return false and change nothing. */
  lemma AbsentKey(s: State, key: string, size: nat)
    requires Inv(s) && key != "" && !HasKey(s.list, key) && 1 <= size <= s.meta.maxSize
    ensures Result(s, Renew(key)) == Returned(false) && Result(s, Update(key, size)) == Returned(false)
    ensures Next(s, Renew(key)) == s == Next(s, Update(key, size))
    ensures Victims(s, Renew(key)) == [] == Victims(s, Update(key, size))
  {
    NextNothing(s, Renew(key));
    NextNothing(s, Update(key, size));
  }

  /** `resize`: the longest prefix of the list within the new limit stays as it is, the whole
      list if it fits; putting back the last victim would exceed the limit. */
  lemma ResizeKeeps(s: State, size: nat, n: nat)
    requires Inv(s) && size >= 1 && n <= |s.list|
    ensures var op, t := Resize(size), Next(s, Resize(size));
            && Result(s, op) == Returned(true)
            && s.list == t.list + Reversed(Victims(s, op))
            && (n <= |t.list| <==> n == 0 || Total(s.list[..n]) <= size)
            && (Total(s.list) <= size ==> t.list == s.list && Victims(s, op) == [])
            && (Victims(s, op) != [] ==> Total(t.list + [Victims(s, op)[|Victims(s, op)| - 1]]) > size)
            && t.meta == Meta(Total(t.list), size, s.meta.sequence)
  {
    SurvivesIffFits(s.list, size, n);
    SplitKept(s.list, size);
    LastDroppedWasNeeded(s.list, size);
    FitsWhole(s.list, size);
  }

  /** What the calls refuse, in this order: a null key, then a size that is zero or larger than
      the limit; `resize` refuses the limit zero.  A refused call changes nothing. */
  lemma Refusals(s: State, op: Op)
    requires Inv(s)
    ensures Result(s, op) == Threw(NullKey) <==> !op.Resize? && op.key == ""
    ensures Result(s, op) == Threw(BadSize)
            <==> (op.Put? || op.Update?) && op.key != "" && (op.size == 0 || op.size > s.meta.maxSize)
    ensures Result(s, op) == Threw(ZeroMaxSize) <==> op.Resize? && op.size == 0
    ensures Result(s, op).Threw? ==> Result(s, op).error in {NullKey, BadSize, ZeroMaxSize}
    ensures Result(s, op).Threw? ==> Next(s, op) == s && Victims(s, op) == []
  {
    if Result(s, op).Threw? { NextNothing(s, op); }
  }
}
