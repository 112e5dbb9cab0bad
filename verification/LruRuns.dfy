/** Whole runs of the LRU engine: what sequence numbers mean, what becomes of every inserted
    row, and why a larger cache never misses more. */
module LruRuns {
  import opened MachineWords
  import opened CacheEngine
  import opened LruRecency
  import opened LruProperties

  ghost function Run(s: State, ops: seq<Op>): State {
    if ops == [] then s else Next(Run(s, ops[..|ops| - 1]), ops[|ops| - 1])
  }

  predicate AllRepresentable(ops: seq<Op>) {
    forall i :: 0 <= i < |ops| ==> Representable(ops[i])
  }

  function Empty(maxSize: nat, sequence: int): State {
    State([], Meta(0, maxSize, sequence))
  }

  lemma {:induction false} RunInv(s: State, ops: seq<Op>)
    requires Inv(s) && AllRepresentable(ops)
    ensures Inv(Run(s, ops))
  {
    if ops != [] {
      RunInv(s, ops[..|ops| - 1]);
      InvKept(Run(s, ops[..|ops| - 1]), ops[|ops| - 1]);
    }
  }

  // ---------- sequence numbers are touch times ----------

  /** The keys touched, in order: inserted, put again, or renewed. */
  ghost function Touched(s: State, ops: seq<Op>): seq<string> {
    if ops == [] then []
    else
      var before, op := ops[..|ops| - 1], ops[|ops| - 1];
      Touched(s, before) + if Touches(Run(s, before), op) then [KeyOf(op)] else []
  }

  /** Touch number `n` (from 0) was of `key`, and `key` was not touched again. */
  predicate LastTouch(touched: seq<string>, key: string, n: int) {
    && 0 <= n < |touched| && touched[n] == key
    && forall m :: n < m < |touched| ==> touched[m] != key
  }

  predicate Timed(l: seq<Row>, first: int, touched: seq<string>) {
    forall i :: 0 <= i < |l| ==> LastTouch(touched, l[i].key, l[i].sequence - first - 1)
  }

  predicate CameFrom(l: seq<Row>, r: Row) {
    exists j :: 0 <= j < |l| && l[j].key == r.key && l[j].sequence == r.sequence
  }

  /** Every row of a surviving list was in the list before, apart from its size. */
  lemma NextRowFrom(s: State, op: Op, i: nat)
    requires Inv(s) && Result(s, op).Returned? && i < |NextList(s, op)|
    ensures var r := NextList(s, op)[i];
            && (Touches(s, op) && i == 0 ==> r.key == KeyOf(op) && r.sequence == s.meta.sequence + 1)
            && (Touches(s, op) && i > 0 ==> r.key != KeyOf(op))
            && (!(Touches(s, op) && i == 0) ==> CameFrom(s.list, r))
  {
    if op.Put? && !HasKey(s.list, op.key) {
      if i > 0 {
        assert s.list[i - 1] == NextList(s, op)[i];
        assert NextList(s, op)[i].key != op.key;
      }
    } else if Hits(s, op) {
      HitRowFrom(s, op, i);
    } else {
      assert s.list[i].key == NextList(s, op)[i].key && s.list[i].sequence == NextList(s, op)[i].sequence;
    }
  }

  lemma HitRowFrom(s: State, op: Op, i: nat)
    requires Inv(s) && Hits(s, op) && i < |NextList(s, op)|
    ensures var r, b := NextList(s, op)[i], Base(s, op);
            && i < |b| && r.key == b[i].key && r.sequence == b[i].sequence
    ensures var r := NextList(s, op)[i];
            && (i == 0 ==> r.key == KeyOf(op) && r.sequence == s.meta.sequence + 1)
            && (i > 0 ==> r.key != KeyOf(op))
            && (i > 0 ==> CameFrom(s.list, r))
  {
    HitRowInBase(s, op, i);
    HitBaseRow(s, op, i);
  }

  /** A hit moves its row to the front; the others come from behind. */
  lemma HitBaseRow(s: State, op: Op, i: nat)
    requires Inv(s) && Hits(s, op) && i < |Base(s, op)|
    ensures var r := Base(s, op)[i];
            && (i == 0 ==> r.key == KeyOf(op) && r.sequence == s.meta.sequence + 1)
            && (i > 0 ==> r.key != KeyOf(op) && CameFrom(s.list, r))
  {
    MovedRowFrom(s.list, Position(s.list, KeyOf(op)), s.meta.sequence + 1, i);
  }

  lemma MovedRowFrom(l: seq<Row>, at: nat, sequence: int, i: nat)
    requires Sorted(l) && at < |l| && i < |MoveToFront(l, l[at].key, sequence)|
    ensures var r := MoveToFront(l, l[at].key, sequence)[i];
            && (i == 0 ==> r.key == l[at].key && r.sequence == sequence)
            && (i > 0 ==> r.key != l[at].key && CameFrom(l, r))
  {
    MovedRows(l, at, sequence);
    hide MoveToFront;
    if i > 0 {
      assert MoveToFront(l, l[at].key, sequence)[i] == l[Origin(at, i)];
      OneRowPerKey(l, at, Origin(at, i));
    }
  }

  /** What follows a hit is the moved list, cut and perhaps with one size rewritten. */
  lemma HitRowInBase(s: State, op: Op, i: nat)
    requires Hits(s, op) && i < |NextList(s, op)|
    ensures var r, b := NextList(s, op)[i], Base(s, op);
            i < |b| && r.key == b[i].key && r.sequence == b[i].sequence
  {
    hide Base, Room, Fitting;
  }

  /** In every run from an empty table, the sequence number of a row is the index of the
      last touch of its key, and the current sequence number counts the touches. */
  lemma {:induction false} SequenceIsLastTouch(maxSize: nat, first: int, ops: seq<Op>)
    requires 1 <= maxSize < TWO63 && AllRepresentable(ops)
    ensures var s0 := Empty(maxSize, first);
            && Run(s0, ops).meta.sequence == first + |Touched(s0, ops)|
            && Timed(Run(s0, ops).list, first, Touched(s0, ops))
  {
    if ops != [] {
      var s0, before, op := Empty(maxSize, first), ops[..|ops| - 1], ops[|ops| - 1];
      SequenceIsLastTouch(maxSize, first, before);
      RunInv(s0, before);
      TimedStep(Run(s0, before), op, first, Touched(s0, before));
    }
  }

  /** A touch of one key changes nothing about the others. */
  lemma TimedOthers(l: seq<Row>, next: seq<Row>, first: int, touched: seq<string>, more: seq<string>)
    requires Timed(l, first, touched)
    requires forall i :: 0 <= i < |next| ==> CameFrom(l, next[i]) && next[i].key !in more
    ensures Timed(next, first, touched + more)
  {
    forall i | 0 <= i < |next|
      ensures LastTouch(touched + more, next[i].key, next[i].sequence - first - 1)
    {
      var j :| 0 <= j < |l| && l[j].key == next[i].key && l[j].sequence == next[i].sequence;
      assert LastTouch(touched, l[j].key, l[j].sequence - first - 1);
    }
  }

  lemma {:induction false} TimedStep(s: State, op: Op, first: int, touched: seq<string>)
    requires Inv(s) && Timed(s.list, first, touched) && s.meta.sequence == first + |touched|
    ensures Timed(NextList(s, op), first, touched + if Touches(s, op) then [KeyOf(op)] else [])
  {
    if Result(s, op).Returned? {
      forall i | 0 <= i < |NextList(s, op)|
        ensures Touches(s, op) && i > 0 ==> NextList(s, op)[i].key != KeyOf(op)
        ensures !(Touches(s, op) && i == 0) ==> CameFrom(s.list, NextList(s, op)[i])
      {
        NextRowFrom(s, op, i);
      }
      if Touches(s, op) && NextList(s, op) != [] {
        NextRowFrom(s, op, 0);
        TimedTouch(s.list, NextList(s, op), first, touched, KeyOf(op));
      } else {
        TimedOthers(s.list, NextList(s, op), first, touched, []);
        assert touched + [] == touched;
      }
    }
  }

  lemma TimedTouch(l: seq<Row>, next: seq<Row>, first: int, touched: seq<string>, key: string)
    requires Timed(l, first, touched)
    requires next != [] && next[0].key == key && next[0].sequence == first + |touched| + 1
    requires forall i :: 1 <= i < |next| ==> CameFrom(l, next[i]) && next[i].key != key
    ensures Timed(next, first, touched + [key])
  {
    forall i | 0 <= i < |next|
      ensures LastTouch(touched + [key], next[i].key, next[i].sequence - first - 1)
    {
      if i > 0 {
        var j :| 0 <= j < |l| && l[j].key == next[i].key && l[j].sequence == next[i].sequence;
        assert LastTouch(touched, l[j].key, l[j].sequence - first - 1);
      }
    }
  }

  /** Hence, in every run, whatever a call evicts was touched for the last time before
      everything that is in the table after the call. */
  lemma {:induction false} VictimsLeastRecentlyTouched(maxSize: nat, first: int, ops: seq<Op>, op: Op)
    requires 1 <= maxSize < TWO63 && AllRepresentable(ops) && Representable(op)
    ensures var s, touched := Run(Empty(maxSize, first), ops), Touched(Empty(maxSize, first), ops + [op]);
            && Timed(Victims(s, op), first, touched) && Timed(Next(s, op).list, first, touched)
            && AllOlder(Victims(s, op), Next(s, op).list)
  {
    var s0 := Empty(maxSize, first);
    hide Run, Touched, Next, Victims, Inv, Timed;
    RunMore(maxSize, first, ops, op);
    VictimsTimed(Run(s0, ops), op, first, Touched(s0, ops));
    VictimsOlder(Run(s0, ops), op);
  }

  predicate AllOlder(victims: seq<Row>, l: seq<Row>) {
    forall i, j :: 0 <= i < |victims| && 0 <= j < |l| ==> victims[i].sequence < l[j].sequence
  }

  lemma VictimsOlder(s: State, op: Op)
    requires Inv(s)
    ensures AllOlder(Victims(s, op), Next(s, op).list)
  {
    NextListIs(s, op);
    forall i, j | 0 <= i < |Victims(s, op)| && 0 <= j < |NextList(s, op)|
      ensures Victims(s, op)[i].sequence < NextList(s, op)[j].sequence
    {
      NextIsNewer(s, op, i, j);
    }
  }

  /** A run and one more call. */
  lemma {:induction false} RunMore(maxSize: nat, first: int, ops: seq<Op>, op: Op)
    requires 1 <= maxSize < TWO63 && AllRepresentable(ops) && Representable(op)
    ensures var s0 := Empty(maxSize, first);
            var s, touched := Run(s0, ops), Touched(s0, ops);
            && Inv(s) && Timed(s.list, first, touched)
            && Touched(s0, ops + [op]) == touched + (if Touches(s, op) then [KeyOf(op)] else [])
            && Timed(Next(s, op).list, first, Touched(s0, ops + [op]))
  {
    var all := ops + [op];
    assert all[..|all| - 1] == ops;
    RunInv(Empty(maxSize, first), ops);
    SequenceIsLastTouch(maxSize, first, ops);
    assert AllRepresentable(all);
    SequenceIsLastTouch(maxSize, first, all);
  }

  lemma VictimsTimed(s: State, op: Op, first: int, touched: seq<string>)
    requires Inv(s) && Timed(s.list, first, touched)
    ensures Timed(Victims(s, op), first, touched + if Touches(s, op) then [KeyOf(op)] else [])
  {
    hide Inv, Victims;
    forall i | 0 <= i < |Victims(s, op)|
      ensures CameFrom(s.list, Victims(s, op)[i])
      ensures Touches(s, op) ==> Victims(s, op)[i].key != KeyOf(op)
    {
      VictimFrom(s, op, i);
    }
    TimedOthers(s.list, Victims(s, op), first, touched, if Touches(s, op) then [KeyOf(op)] else []);
  }

  lemma NextListIs(s: State, op: Op)
    ensures Next(s, op).list == NextList(s, op)
  {
  }

  /** A victim was in the list before, and is not the row the call touches. */
  lemma {:induction false} VictimFrom(s: State, op: Op, i: nat)
    requires Inv(s) && i < |Victims(s, op)|
    ensures CameFrom(s.list, Victims(s, op)[i])
    ensures Touches(s, op) ==> Victims(s, op)[i].key != KeyOf(op)
  {
    hide *;
    if Hits(s, op) { VictimOfHit(s, op, i); } else { VictimOfOther(s, op, i); }
  }

  lemma {:induction false} VictimOfHit(s: State, op: Op, i: nat)
    requires Inv(s) && Hits(s, op) && i < |Victims(s, op)|
    ensures CameFrom(s.list, Victims(s, op)[i]) && Victims(s, op)[i].key != KeyOf(op)
  {
    hide *;
    VictimInBase(s, op, i);
    SomeSurvivor(s, op);
    HitBaseRow(s, op, |Base(s, op)| - 1 - i);
  }

  lemma SomeSurvivor(s: State, op: Op)
    requires Inv(s) && Hits(s, op)
    ensures |Survivors(s, op)| > 0
  {
    hide *;
    HitStays(s, op);
  }

  lemma {:induction false} VictimOfOther(s: State, op: Op, i: nat)
    requires Inv(s) && !Hits(s, op) && i < |Victims(s, op)|
    ensures CameFrom(s.list, Victims(s, op)[i])
    ensures Touches(s, op) ==> Victims(s, op)[i].key != KeyOf(op)
  {
    hide *;
    var at := |Base(s, op)| - 1 - i;
    VictimInBase(s, op, i);
    UntouchedBase(s, op);
    OwnRow(s.list, at);
  }

  lemma OwnRow(l: seq<Row>, i: nat)
    requires i < |l|
    ensures CameFrom(l, l[i]) && HasKey(l, l[i].key)
  {
  }

  lemma UntouchedBase(s: State, op: Op)
    ensures !Hits(s, op) ==> Base(s, op) == s.list
    ensures !Hits(s, op) && Touches(s, op) ==> !HasKey(s.list, KeyOf(op))
  {
  }

  lemma VictimInBase(s: State, op: Op, i: nat)
    requires i < |Victims(s, op)|
    ensures var at := |Base(s, op)| - 1 - i;
            |Survivors(s, op)| <= at < |Base(s, op)| && Victims(s, op)[i] == Base(s, op)[at]
  {
    hide Base, Room, Fitting;
  }

  /** The rows after a call are newer than its victims. */
  lemma NextIsNewer(s: State, op: Op, i: nat, j: nat)
    requires Inv(s) && i < |Victims(s, op)| && j < |NextList(s, op)|
    ensures Victims(s, op)[i].sequence < NextList(s, op)[j].sequence
  {
    VictimsAreOldestAndMinimal(s, op);
    if op.Put? && !HasKey(s.list, op.key) && j == 0 {
      NewRowIsNewer(s, op, i);
    } else {
      SurvivorAt(s, op, j);
    }
  }

  lemma NewRowIsNewer(s: State, op: Op, i: nat)
    requires Inv(s) && i < |Victims(s, op)| && op.Put? && !HasKey(s.list, op.key)
    ensures NextList(s, op) != [] && Victims(s, op)[i].sequence < NextList(s, op)[0].sequence
  {
    hide *;
    VictimInBase(s, op, i);
    NewRowAt(s, op, i);
    UntouchedBase(s, op);
    NoneNewer(s, |s.list| - 1 - i);
  }

  lemma NewRowAt(s: State, op: Op, i: nat)
    requires op.Put? && !HasKey(s.list, op.key) && i < |Victims(s, op)|
    ensures !Hits(s, op) && NextList(s, op) != [] && NextList(s, op)[0].sequence == s.meta.sequence + 1
  {
    hide Base, Room, Keep;
  }

  lemma NoneNewer(s: State, i: nat)
    requires Inv(s) && i < |s.list|
    ensures s.list[i].sequence <= s.meta.sequence
  {
    NewestFirst(s.list, i);
  }

  /** A row after a call is a new row or, with its sequence number, a survivor. */
  lemma SurvivorAt(s: State, op: Op, j: nat)
    requires Result(s, op).Returned? && j < |NextList(s, op)|
    requires !(op.Put? && !HasKey(s.list, op.key) && j == 0)
    ensures exists k :: 0 <= k < |Survivors(s, op)| && Survivors(s, op)[k].sequence == NextList(s, op)[j].sequence
  {
    var k := if op.Put? && !HasKey(s.list, op.key) then j - 1 else j;
    hide Base, Room, Keep, Find;
    assert Survivors(s, op)[k].sequence == NextList(s, op)[j].sequence;
  }

  // ---------- the ledger ----------

  function Count(l: seq<Row>, key: string): nat {
    if l == [] then 0 else Count(l[..|l| - 1], key) + if l[|l| - 1].key == key then 1 else 0
  }

  ghost predicate Inserts(s: State, op: Op, key: string) {
    op.Put? && op.key == key && Result(s, op) == Returned(true)
  }

  /** How often a run inserted a row of `key`. */
  ghost function Inserted(s: State, ops: seq<Op>, key: string): nat {
    if ops == [] then 0
    else
      var before, op := ops[..|ops| - 1], ops[|ops| - 1];
      Inserted(s, before, key) + if Inserts(Run(s, before), op, key) then 1 else 0
  }

  /** How often a run handed a row of `key` to the remove callback. */
  ghost function Reported(s: State, ops: seq<Op>, key: string): nat {
    if ops == [] then 0
    else
      var before, op := ops[..|ops| - 1], ops[|ops| - 1];
      Reported(s, before, key) + Count(Victims(Run(s, before), op), key)
  }

  lemma {:induction false} CountAppend(a: seq<Row>, b: seq<Row>, key: string)
    ensures Count(a + b, key) == Count(a, key) + Count(b, key)
  {
    if b == [] {
      assert a + b == a;
    } else {
      CountAppend(a, b[..|b| - 1], key);
      assert (a + b)[..|a + b| - 1] == a + b[..|b| - 1];
    }
  }

  lemma CountOne(r: Row, key: string)
    ensures Count([r], key) == if r.key == key then 1 else 0
  {
    assert [r][..0] == [];
  }

  lemma {:induction false} CountReversed(l: seq<Row>, key: string)
    ensures Count(Reversed(l), key) == Count(l, key)
  {
    if l != [] {
      var front, last := l[..|l| - 1], l[|l| - 1];
      CountReversed(front, key);
      CountAppend([last], Reversed(front), key);
      CountOne(last, key);
      assert Reversed(l) == [last] + Reversed(front);
    }
  }

  lemma CountOnePoint(l: seq<Row>, i: nat, key: string)
    requires i < |l|
    ensures Count(l, key) == Count(l[..i], key) + (if l[i].key == key then 1 else 0) + Count(l[i + 1..], key)
  {
    CountAppend(l[..i], [l[i]], key);
    CountAppend(l[..i] + [l[i]], l[i + 1..], key);
    CountOne(l[i], key);
    assert l == l[..i] + [l[i]] + l[i + 1..];
  }

  lemma CountSetSize(l: seq<Row>, target: string, size: nat, key: string)
    ensures Count(SetSize(l, target, size), key) == Count(l, key)
  {
    if HasKey(l, target) {
      var i, r := Position(l, target), SetSize(l, target, size);
      CountOnePoint(l, i, key);
      CountOnePoint(r, i, key);
      assert r[..i] == l[..i] && r[i + 1..] == l[i + 1..];
    }
  }

  lemma CountMoved(l: seq<Row>, target: string, sequence: int, key: string)
    requires HasKey(l, target)
    ensures Count(MoveToFront(l, target, sequence), key) == Count(l, key)
  {
    var i := Position(l, target);
    var moved := l[i].(sequence := sequence);
    CountOnePoint(l, i, key);
    CountAppend([moved], l[..i] + l[i + 1..], key);
    CountAppend(l[..i], l[i + 1..], key);
    CountOne(moved, key);
  }

  lemma CountBase(s: State, op: Op, key: string)
    requires Inv(s)
    ensures Count(Base(s, op), key) == Count(s.list, key)
  {
    if Hits(s, op) {
      CountMoved(s.list, KeyOf(op), s.meta.sequence + 1, key);
    }
  }

  lemma CountDropped(l: seq<Row>, room: int, key: string)
    ensures Count(Keep(l, room), key) + Count(Reversed(l[|Keep(l, room)|..]), key) == Count(l, key)
  {
    var n := Fitting(l, room);
    CountAppend(l[..n], l[n..], key);
    CountReversed(l[n..], key);
    assert l == l[..n] + l[n..];
  }

  lemma CountSplit(s: State, op: Op, key: string)
    requires Inv(s) && Result(s, op).Returned?
    ensures Count(Survivors(s, op), key) + Count(Victims(s, op), key) == Count(s.list, key)
  {
    hide Base, Keep, Room, Count;
    CountBase(s, op, key);
    CountDropped(Base(s, op), Room(s, op), key);
  }

  lemma LedgerOfCall(s: State, op: Op, key: string)
    requires Inv(s)
    ensures Count(Next(s, op).list, key) + Count(Victims(s, op), key)
            == Count(s.list, key) + if Inserts(s, op, key) then 1 else 0
  {
    if Result(s, op).Returned? {
      CountSplit(s, op, key);
      CountNext(s, op, key);
    }
  }

  lemma CountNext(s: State, op: Op, key: string)
    requires Result(s, op).Returned?
    ensures Count(NextList(s, op), key)
            == Count(Survivors(s, op), key) + if Inserts(s, op, key) then 1 else 0
  {
    if op.Put? {
      var added := Row(op.key, op.size, s.meta.sequence + 1);
      CountAppend([added], Survivors(s, op), key);
      CountOne(added, key);
    }
    if op.Put? || op.Update? {
      CountSetSize(Survivors(s, op), op.key, op.size, key);
    }
  }

  /** Every residency is accounted for, key by key: rows at the start and rows inserted are
      the rows resident at the end and the rows handed to the remove callback. */
  lemma {:induction false} Ledger(s: State, ops: seq<Op>, key: string)
    requires Inv(s) && AllRepresentable(ops)
    ensures Count(s.list, key) + Inserted(s, ops, key) == Count(Run(s, ops).list, key) + Reported(s, ops, key)
  {
    if ops != [] {
      Ledger(s, ops[..|ops| - 1], key);
      RunInv(s, ops[..|ops| - 1]);
      LedgerOfCall(Run(s, ops[..|ops| - 1]), ops[|ops| - 1], key);
    }
  }

  // ---------- inclusion ----------

  /** A trace of `put`s in which every key has one size. */
  function Puts(sizes: map<string, nat>, trace: seq<string>): seq<Op>
    requires forall i :: 0 <= i < |trace| ==> trace[i] in sizes
  {
    seq(|trace|, i requires 0 <= i < |trace| => Put(trace[i], sizes[trace[i]]))
  }

  /** How many calls of a run were `put`s of a key that was not resident. */
  ghost function Misses(s: State, ops: seq<Op>): nat {
    if ops == [] then 0
    else
      var before, op := ops[..|ops| - 1], ops[|ops| - 1];
      Misses(s, before) + if op.Put? && Result(Run(s, before), op) == Returned(true) then 1 else 0
  }

  predicate Sized(l: seq<Row>, sizes: map<string, nat>) {
    forall i {:trigger l[i].key} :: 0 <= i < |l| ==> l[i].key in sizes && l[i].size == sizes[l[i].key]
  }

  lemma KeepInclusion(l: seq<Row>, room: int, m: seq<Row>, moreRoom: int)
    requires l <= m && room <= moreRoom
    ensures Keep(l, room) <= Keep(m, moreRoom)
  {
    var n := |Keep(l, room)|;
    SurvivesIffFits(l, room, n);
    SurvivesIffFits(m, moreRoom, n);
    assert l[..n] == m[..n];
  }

  lemma WithoutPrefix(l: seq<Row>, m: seq<Row>, key: string)
    requires Sorted(m) && l <= m
    ensures HasKey(l, key) ==> HasKey(m, key) && Find(l, key) == Find(m, key)
    ensures HasKey(l, key) ==> Without(l, key) <= Without(m, key)
    ensures !HasKey(l, key) && HasKey(m, key) ==> l <= Without(m, key)
  {
    if HasKey(l, key) {
      PositionAt(m, Position(l, key));
    } else {
      assert forall i :: 0 <= i < |l| ==> l[i] == m[i];
    }
  }

  /** The list after a `put` whose size is the one the key already has, if it has any. */
  ghost function PutList(l: seq<Row>, r: Row, maxSize: nat): seq<Row> {
    [r] + if HasKey(l, r.key) then Without(l, r.key) else Keep(l, maxSize - r.size)
  }

  lemma PutListInclusion(l: seq<Row>, small: nat, m: seq<Row>, large: nat, r: Row)
    requires Sorted(m) && l <= m && small <= large
    ensures PutList(l, r, small) <= PutList(m, r, large)
  {
    WithoutPrefix(l, m, r.key);
    if !HasKey(l, r.key) {
      if HasKey(m, r.key) {
        assert Keep(l, small - r.size) <= l <= Without(m, r.key);
      } else {
        KeepInclusion(l, small - r.size, m, large - r.size);
      }
    }
  }

  lemma PutSized(s: State, key: string, sizes: map<string, nat>)
    requires Inv(s) && Sized(s.list, sizes)
    requires key != "" && key in sizes && 1 <= sizes[key] <= s.meta.maxSize
    ensures NextList(s, Put(key, sizes[key]))
            == PutList(s.list, Row(key, sizes[key], s.meta.sequence + 1), s.meta.maxSize)
  {
    var op := Put(key, sizes[key]);
    if HasKey(s.list, key) {
      assert Hits(s, op);
      BaseIsGood(s, op);
      FitsWhole(Base(s, op), Room(s, op));
    }
  }

  lemma SizedStep(l: seq<Row>, r: Row, sizes: map<string, nat>, maxSize: nat)
    requires Sized(l, sizes) && r.key in sizes && r.size == sizes[r.key]
    ensures Sized(PutList(l, r, maxSize), sizes)
  {
    hide Sorted, Fitting, HasKey;
    var next := PutList(l, r, maxSize);
    if HasKey(l, r.key) {
      var at := Position(l, r.key);
      assert forall i :: 1 <= i < |next| ==> next[i] == l[Origin(at, i)];
    } else {
      assert forall i :: 1 <= i < |next| ==> next[i] == l[i - 1];
    }
  }

  predicate FitsTrace(trace: seq<string>, sizes: map<string, nat>, maxSize: nat) {
    forall i :: 0 <= i < |trace| ==> trace[i] != "" && trace[i] in sizes && 1 <= sizes[trace[i]] <= maxSize
  }

  /** The two runs agree on everything but how far back they remember. */
  ghost predicate Included(s: State, t: State, sizes: map<string, nat>) {
    && Inv(s) && Inv(t) && s.list <= t.list
    && s.meta.maxSize <= t.meta.maxSize && s.meta.sequence == t.meta.sequence
    && Sized(s.list, sizes) && Sized(t.list, sizes)
  }

  lemma PutMeta(s: State, key: string, size: nat)
    requires Inv(s) && key != "" && 1 <= size <= s.meta.maxSize
    ensures var t := Next(s, Put(key, size));
            && t.list == NextList(s, Put(key, size)) && t.meta.maxSize == s.meta.maxSize
            && t.meta.sequence == s.meta.sequence + 1
    ensures Sorted(s.list)
  {
  }

  lemma InclusionStep(s: State, t: State, key: string, sizes: map<string, nat>)
    requires Included(s, t, sizes)
    requires key != "" && key in sizes && 1 <= sizes[key] <= s.meta.maxSize
    ensures Included(Next(s, Put(key, sizes[key])), Next(t, Put(key, sizes[key])), sizes)
    ensures HasKey(s.list, key) ==> HasKey(t.list, key)
  {
    hide Next, NextList, Result, Touches, Inv, PutList, Sized, Sorted, HasKey;
    var r := Row(key, sizes[key], s.meta.sequence + 1);
    PutMeta(s, key, sizes[key]);
    PutMeta(t, key, sizes[key]);
    PutSized(s, key, sizes);
    PutSized(t, key, sizes);
    PutListInclusion(s.list, s.meta.maxSize, t.list, t.meta.maxSize, r);
    SizedStep(s.list, r, sizes, s.meta.maxSize);
    SizedStep(t.list, r, sizes, t.meta.maxSize);
    InvKept(s, Put(key, sizes[key]));
    InvKept(t, Put(key, sizes[key]));
    WithoutPrefix(s.list, t.list, key);
  }

  lemma {:induction false} InclusionRun(s0: State, t0: State, trace: seq<string>, sizes: map<string, nat>)
    requires Included(s0, t0, sizes) && FitsTrace(trace, sizes, s0.meta.maxSize)
    ensures Included(Run(s0, Puts(sizes, trace)), Run(t0, Puts(sizes, trace)), sizes)
    ensures Run(s0, Puts(sizes, trace)).meta.maxSize == s0.meta.maxSize
    ensures Misses(t0, Puts(sizes, trace)) <= Misses(s0, Puts(sizes, trace))
  {
    if trace != [] {
      var before, key := trace[..|trace| - 1], trace[|trace| - 1];
      var ops := Puts(sizes, trace);
      assert ops[..|ops| - 1] == Puts(sizes, before);
      assert ops[|ops| - 1] == Put(key, sizes[key]);
      InclusionRun(s0, t0, before, sizes);
      InclusionStep(Run(s0, Puts(sizes, before)), Run(t0, Puts(sizes, before)), key, sizes);
    }
  }

  /** Over any trace of `put`s in which each key has one size, no larger than the smaller
      limit, the list under the smaller limit stays a prefix of the list under the larger
      one, so the larger cache never has more misses. */
  lemma {:induction false} Inclusion(small: nat, large: nat, first: int, trace: seq<string>, sizes: map<string, nat>)
    requires 1 <= small <= large < TWO63 && FitsTrace(trace, sizes, small)
    ensures Run(Empty(small, first), Puts(sizes, trace)).list <= Run(Empty(large, first), Puts(sizes, trace)).list
    ensures Misses(Empty(large, first), Puts(sizes, trace)) <= Misses(Empty(small, first), Puts(sizes, trace))
  {
    InclusionRun(Empty(small, first), Empty(large, first), trace, sizes);
  }
}
