/** The LRU engine as a recency list: rows newest first, with the byte limit applied by
    dropping a suffix.  The table-backed engine (LruEngine.dfy) is proved to follow it. */
module LruRecency {
  import opened MachineWords
  import opened CacheEngine

  datatype Row = Row(key: string, size: nat, sequence: int)

  datatype Meta = Meta(cacheSize: nat, maxSize: nat, sequence: int)

  datatype State = State(list: seq<Row>, meta: Meta)

  datatype Op =
    | Put(key: string, size: nat)
    | Renew(key: string)
    | Update(key: string, size: nat)
    | Resize(size: nat)

  // ---------- lists of rows ----------

  function Total(l: seq<Row>): nat {
    if l == [] then 0 else Total(l[..|l| - 1]) + l[|l| - 1].size
  }

  predicate HasKey(l: seq<Row>, key: string) {
    exists i :: 0 <= i < |l| && l[i].key == key
  }

  /** Where the row of that key is. */
  ghost function Position(l: seq<Row>, key: string): (i: nat)
    requires HasKey(l, key)
    ensures i < |l| && l[i].key == key
  {
    var i :| 0 <= i < |l| && l[i].key == key;
    i
  }

  ghost function Find(l: seq<Row>, key: string): Row
    requires HasKey(l, key)
  {
    l[Position(l, key)]
  }

  /** `l` without the row of that key. */
  ghost function Without(l: seq<Row>, key: string): seq<Row>
    requires HasKey(l, key)
  {
    l[..Position(l, key)] + l[Position(l, key) + 1..]
  }

  ghost function SetSize(l: seq<Row>, key: string, size: nat): (r: seq<Row>)
    ensures |r| == |l|
  {
    if HasKey(l, key) then l[Position(l, key) := Find(l, key).(size := size)] else l
  }

  function Reversed(l: seq<Row>): (r: seq<Row>)
    ensures |r| == |l|
  {
    seq(|l|, i requires 0 <= i < |l| => l[|l| - 1 - i])
  }

  /** Row `i` is newer than row `j`, and about another key. */
  predicate Ordered(l: seq<Row>, i: int, j: int) {
    0 <= i < j < |l| ==> l[i].sequence > l[j].sequence && l[i].key != l[j].key
  }

  /** Newest first, one row per key. */
  ghost predicate Sorted(l: seq<Row>) {
    forall i, j :: Ordered(l, i, j)
  }

  predicate GoodRow(r: Row) {
    r.key != "" && r.size >= 1
  }

  predicate GoodRows(l: seq<Row>) {
    forall i {:trigger GoodRow(l[i])} :: 0 <= i < |l| ==> GoodRow(l[i])
  }

  /** How many rows eviction leaves: it drops rows from the old end until the rest fits. */
  function Fitting(l: seq<Row>, room: int): (n: nat)
    ensures n <= |l|
  {
    if l == [] || Total(l) <= room then |l| else Fitting(l[..|l| - 1], room)
  }

  function Keep(l: seq<Row>, room: int): seq<Row> {
    l[..Fitting(l, room)]
  }

  // ---------- the state machine ----------

  ghost predicate Inv(s: State) {
    && Sorted(s.list) && GoodRows(s.list)
    && (s.list != [] ==> s.list[0].sequence == s.meta.sequence)
    && s.meta.cacheSize == Total(s.list) <= s.meta.maxSize
    && 1 <= s.meta.maxSize < TWO63
  }

  /** The key a call names; `resize` names none, and no row has the empty key. */
  function KeyOf(op: Op): string {
    if op.Resize? then "" else op.key
  }

  /** What a call returns or throws; none of the database errors is among it. */
  function Result(s: State, op: Op): Outcome {
    match op
    case Put(key, size) =>
      if key == "" then Threw(NullKey)
      else if size == 0 || size > s.meta.maxSize then Threw(BadSize)
      else Returned(!HasKey(s.list, key))
    case Renew(key) => if key == "" then Threw(NullKey) else Returned(HasKey(s.list, key))
    case Update(key, size) =>
      if key == "" then Threw(NullKey)
      else if size == 0 || size > s.meta.maxSize then Threw(BadSize)
      else Returned(HasKey(s.list, key))
    case Resize(size) => if size == 0 then Threw(ZeroMaxSize) else Returned(true)
  }

  /** Whether the call takes a new sequence number, for the row of `op.key`. */
  predicate Touches(s: State, op: Op) {
    Result(s, op).Returned? && (op.Put? || (op.Renew? && HasKey(s.list, KeyOf(op))))
  }

  predicate Hits(s: State, op: Op) {
    Touches(s, op) && HasKey(s.list, KeyOf(op))
  }

  ghost function MoveToFront(l: seq<Row>, key: string, sequence: int): seq<Row>
    requires HasKey(l, key)
  {
    [Find(l, key).(sequence := sequence)] + Without(l, key)
  }

  /** The list once a hit has been moved to the front, before anything is evicted. */
  ghost function Base(s: State, op: Op): seq<Row> {
    if Hits(s, op) then MoveToFront(s.list, KeyOf(op), s.meta.sequence + 1) else s.list
  }

  /** What survivors may occupy while one row grows from `size` to `newSize`. */
  function GrowthRoom(maxSize: nat, size: nat, newSize: nat): int {
    if newSize > size then maxSize - (newSize - size) else maxSize
  }

  /** How much the surviving rows may occupy. */
  ghost function Room(s: State, op: Op): int {
    match op
    case Put(key, size) =>
      if HasKey(s.list, key) then GrowthRoom(s.meta.maxSize, Find(s.list, key).size, size)
      else s.meta.maxSize - size
    case Renew(_) => s.meta.maxSize
    case Update(key, size) =>
      if HasKey(s.list, key) then GrowthRoom(s.meta.maxSize, Find(s.list, key).size, size)
      else s.meta.maxSize
    case Resize(size) => size
  }

  ghost function Survivors(s: State, op: Op): seq<Row> {
    if Result(s, op).Threw? then s.list else Keep(Base(s, op), Room(s, op))
  }

  /** The rows handed to the remove callback, in the order they were deleted. */
  ghost function Victims(s: State, op: Op): seq<Row> {
    if Result(s, op).Threw? then [] else Reversed(Base(s, op)[|Survivors(s, op)|..])
  }

  ghost function NextList(s: State, op: Op): seq<Row> {
    var kept := Survivors(s, op);
    if Result(s, op).Threw? then s.list
    else match op
      case Put(key, size) =>
        if !HasKey(s.list, key) then [Row(key, size, s.meta.sequence + 1)] + kept
        else if size > Find(s.list, key).size then SetSize(kept, key, size)
        else kept
      case Renew(_) => kept
      case Update(key, size) => SetSize(kept, key, size)
      case Resize(_) => kept
  }

  ghost function Next(s: State, op: Op): State {
    State(NextList(s, op),
          Meta(if Result(s, op).Threw? then s.meta.cacheSize else Total(NextList(s, op)),
               if op.Resize? && op.size != 0 then op.size else s.meta.maxSize,
               if Touches(s, op) then s.meta.sequence + 1 else s.meta.sequence))
  }

  /** Sizes come through a signed 64-bit column. */
  predicate Representable(op: Op) {
    op.Resize? ==> op.size < TWO63
  }

  // ---------- the calls, one by one ----------

  lemma NextPutNew(s: State, key: string, size: nat)
    requires key != "" && 1 <= size <= s.meta.maxSize && !HasKey(s.list, key)
    ensures var op, kept, r := Put(key, size), Keep(s.list, s.meta.maxSize - size), Row(key, size, s.meta.sequence + 1);
            && Result(s, op) == Returned(true)
            && Victims(s, op) == Reversed(s.list[|kept|..])
            && Next(s, op) == State([r] + kept, Meta(Total([r] + kept), s.meta.maxSize, s.meta.sequence + 1))
  {
  }

  lemma NextPutHit(s: State, key: string, size: nat)
    requires key != "" && 1 <= size <= s.meta.maxSize && HasKey(s.list, key)
    ensures var op, before := Put(key, size), Find(s.list, key).size;
            var kept := Keep(Base(s, op), GrowthRoom(s.meta.maxSize, before, size));
            var l := if size > before then SetSize(kept, key, size) else kept;
            && Hits(s, op) && Result(s, op) == Returned(false)
            && Victims(s, op) == Reversed(Base(s, op)[|kept|..])
            && Next(s, op) == State(l, Meta(Total(l), s.meta.maxSize, s.meta.sequence + 1))
  {
  }

  lemma NextRenewHit(s: State, key: string)
    requires key != "" && HasKey(s.list, key)
    ensures var op := Renew(key);
            var kept := Keep(Base(s, op), s.meta.maxSize);
            && Hits(s, op) && Result(s, op) == Returned(true)
            && Victims(s, op) == Reversed(Base(s, op)[|kept|..])
            && Next(s, op) == State(kept, Meta(Total(kept), s.meta.maxSize, s.meta.sequence + 1))
  {
  }

  lemma NextUpdateHit(s: State, key: string, size: nat)
    requires key != "" && 1 <= size <= s.meta.maxSize && HasKey(s.list, key)
    ensures var op, kept := Update(key, size), Keep(s.list, GrowthRoom(s.meta.maxSize, Find(s.list, key).size, size));
            && Result(s, op) == Returned(true)
            && Victims(s, op) == Reversed(s.list[|kept|..])
            && Next(s, op) == State(SetSize(kept, key, size),
                                    s.meta.(cacheSize := Total(SetSize(kept, key, size))))
  {
  }

  /** A call that throws, or names an absent key without inserting it, changes nothing. */
  lemma NextNothing(s: State, op: Op)
    requires Inv(s)
    requires Result(s, op).Threw? || ((op.Renew? || op.Update?) && !HasKey(s.list, op.key))
    ensures Next(s, op) == s && Victims(s, op) == []
  {
    FitsWhole(s.list, s.meta.maxSize);
  }

  // ---------- list facts ----------

  lemma {:induction false} TotalAppend(a: seq<Row>, b: seq<Row>)
    ensures Total(a + b) == Total(a) + Total(b)
  {
    if b == [] {
      assert a + b == a;
    } else {
      TotalAppend(a, b[..|b| - 1]);
      assert (a + b)[..|a + b| - 1] == a + b[..|b| - 1];
    }
  }

  lemma OneRowPerKey(l: seq<Row>, i: nat, j: nat)
    requires Sorted(l) && i < |l| && j < |l|
    ensures l[i].key == l[j].key <==> i == j
  {
    assert Ordered(l, i, j) && Ordered(l, j, i);
  }

  lemma SortedSlice(l: seq<Row>, lo: nat, hi: nat)
    requires Sorted(l) && lo <= hi <= |l|
    ensures Sorted(l[lo..hi])
  {
    var m := l[lo..hi];
    forall i, j | 0 <= i < j < |m|
      ensures Ordered(m, i, j)
    {
      assert Ordered(l, lo + i, lo + j);
    }
  }

  lemma PositionAt(l: seq<Row>, i: nat)
    requires Sorted(l) && i < |l|
    ensures HasKey(l, l[i].key) && Position(l, l[i].key) == i
  {
    OneRowPerKey(l, Position(l, l[i].key), i);
  }

  lemma TotalOnePoint(l: seq<Row>, i: nat)
    requires i < |l|
    ensures Total(l) == Total(l[..i]) + l[i].size + Total(l[i + 1..])
  {
    assert l == l[..i] + [l[i]] + l[i + 1..];
    TotalAppend(l[..i] + [l[i]], l[i + 1..]);
    TotalAppend(l[..i], [l[i]]);
    assert Total([l[i]]) == l[i].size;
  }

  lemma TotalSetSize(l: seq<Row>, key: string, size: nat)
    ensures Total(SetSize(l, key, size)) == if HasKey(l, key) then Total(l) - Find(l, key).size + size else Total(l)
  {
    if HasKey(l, key) {
      var i, r := Position(l, key), SetSize(l, key, size);
      TotalOnePoint(l, i);
      TotalOnePoint(r, i);
      assert r[..i] == l[..i] && r[i + 1..] == l[i + 1..];
    }
  }

  lemma {:induction false} TotalPrefix(l: seq<Row>, n: nat)
    requires n <= |l|
    ensures Total(l[..n]) <= Total(l)
  {
    TotalAppend(l[..n], l[n..]);
    assert l == l[..n] + l[n..];
  }

  lemma FitsWhole(l: seq<Row>, room: int)
    ensures Total(l) <= room ==> Keep(l, room) == l
  {
  }

  /** `Keep` is the longest prefix that fits: the first `n` rows survive exactly when they
      fit together. */
  lemma {:induction false} SurvivesIffFits(l: seq<Row>, room: int, n: nat)
    requires n <= |l|
    ensures n <= Fitting(l, room) <==> n == 0 || Total(l[..n]) <= room
  {
    if l == [] || Total(l) <= room {
      TotalPrefix(l, n);
    } else if n == |l| {
      assert l[..n] == l;
    } else {
      SurvivesIffFits(l[..|l| - 1], room, n);
      assert l[..|l| - 1][..n] == l[..n];
    }
  }
}
