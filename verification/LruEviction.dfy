/** The eviction loop of the LRU engine on any table, consistent or not
    (src/algo/algo_lru_sqlite.cpp:143-169). */
module LruEviction {
  import opened MachineWords
  import opened CacheEngine
  import opened Options
  import opened LruRecency
  import opened LruEngine

  /** When victim `k` was deleted, the limit was still exceeded. */
  predicate Needed(cacheSize: nat, victims: seq<Row>, k: int, required: nat, maxSize: nat) {
    0 <= k < |victims| ==>
      && victims[k].key != "" && Total(victims[..k]) <= cacheSize
      && Add64(cacheSize - Total(victims[..k]), required) > maxSize
  }

  /** What was deleted from the old end was reported, but for a row with an empty key; what was
      reported was taken off the size, but for a row that the size does not cover; and such
      rows and an empty table are where the loop fails. */
  ghost predicate Accounted(l: seq<Row>, cacheSize: nat, required: nat, maxSize: nat, d: Drained) {
    && (forall k :: Needed(cacheSize, d.victims, k, required, maxSize))
    && (Add64(d.cacheSize, required) <= maxSize <==> d.error == None)
    && match d.error
       case None => l == d.list + Reversed(d.victims) && cacheSize == d.cacheSize + Total(d.victims)
       case Some(NothingToEvict) =>
         && cacheSize == d.cacheSize + Total(d.victims)
         && (if |d.list| + |d.victims| == |l| then d.list == [] && l == Reversed(d.victims)
             else |d.list| < |l| && l[|d.list|].key == "" && l == d.list + [l[|d.list|]] + Reversed(d.victims))
       case Some(CacheSizeMismatch) =>
         && d.victims != [] && l == d.list + Reversed(d.victims)
         && var last := |d.victims| - 1;
            d.victims[last].size > d.cacheSize && cacheSize == d.cacheSize + Total(d.victims[..last])
       case _ => false
  }

  lemma {:induction false} DrainLedger(l: seq<Row>, cacheSize: nat, required: nat, maxSize: nat)
    ensures Accounted(l, cacheSize, required, maxSize, Drain(l, cacheSize, required, maxSize))
    decreases |l|
  {
    hide Accounted, Reversed, Total, Add64;
    AccountedAtOnce(l, cacheSize, required, maxSize);
    if Add64(cacheSize, required) > maxSize && l != [] {
      var front, v := l[..|l| - 1], l[|l| - 1];
      assert l == front + [v];
      if v.key != "" && cacheSize >= v.size {
        DrainLedger(front, cacheSize - v.size, required, maxSize);
        AccountedMore(front, v, cacheSize, required, maxSize, Drain(front, cacheSize - v.size, required, maxSize));
      } else {
        AccountedLast(front, v, cacheSize, required, maxSize);
      }
    }
  }

  /** Nothing to do, or nothing to do it with. */
  lemma AccountedAtOnce(l: seq<Row>, cacheSize: nat, required: nat, maxSize: nat)
    ensures Add64(cacheSize, required) <= maxSize ==>
              Accounted(l, cacheSize, required, maxSize, Drained(l, cacheSize, [], None))
    ensures Add64(cacheSize, required) > maxSize && l == [] ==>
              Accounted(l, cacheSize, required, maxSize, Drained(l, cacheSize, [], Some(NothingToEvict)))
  {
    assert l + Reversed([]) == l;
  }

  /** A failure at once. */
  lemma AccountedLast(front: seq<Row>, v: Row, cacheSize: nat, required: nat, maxSize: nat)
    requires Add64(cacheSize, required) > maxSize
    ensures v.key == "" ==>
              Accounted(front + [v], cacheSize, required, maxSize, Drained(front, cacheSize, [], Some(NothingToEvict)))
    ensures v.key != "" && cacheSize < v.size ==>
              Accounted(front + [v], cacheSize, required, maxSize,
                        Drained(front, cacheSize, [v], Some(CacheSizeMismatch)))
  {
    assert [v][..0] == [] && Reversed([v]) == [v];
    assert front + [v] + Reversed([]) == front + [v];
  }

  /** One more row from the old end. */
  lemma AccountedMore(front: seq<Row>, v: Row, cacheSize: nat, required: nat, maxSize: nat, d: Drained)
    requires v.key != "" && v.size <= cacheSize && Add64(cacheSize, required) > maxSize
    requires Accounted(front, cacheSize - v.size, required, maxSize, d)
    ensures Accounted(front + [v], cacheSize, required, maxSize, After([v], d))
  {
    var e := After([v], d);
    TotalFirst(v, d.victims);
    ReversedFirst(v, d.victims);
    hide Reversed, Total;
    forall k
      ensures Needed(cacheSize, e.victims, k, required, maxSize)
    {
      NeededMore(v, cacheSize, required, maxSize, d.victims, k);
    }
    if d.error == Some(CacheSizeMismatch) {
      var last := |d.victims| - 1;
      assert e.victims[..last + 1] == [v] + d.victims[..last];
      TotalFirst(v, d.victims[..last]);
    }
  }

  lemma NeededMore(v: Row, cacheSize: nat, required: nat, maxSize: nat, victims: seq<Row>, k: int)
    requires v.key != "" && v.size <= cacheSize && Add64(cacheSize, required) > maxSize
    requires Needed(cacheSize - v.size, victims, k - 1, required, maxSize)
    ensures Needed(cacheSize, [v] + victims, k, required, maxSize)
  {
    hide Add64;
    var more := [v] + victims;
    if 0 < k < |more| {
      assert more[..k] == [v] + victims[..k - 1];
      TotalFirst(v, victims[..k - 1]);
    } else if k == 0 {
      assert more[..0] == [];
    }
  }

  lemma TotalFirst(v: Row, l: seq<Row>)
    ensures Total([v] + l) == v.size + Total(l)
  {
    TotalAppend([v], l);
    assert [v][..0] == [];
  }

  lemma ReversedFirst(v: Row, l: seq<Row>)
    ensures Reversed([v] + l) == Reversed(l) + [v]
  {
  }
}
