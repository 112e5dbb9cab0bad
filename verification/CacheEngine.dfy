/** What the two SQLite cache engines share: outcomes, errors and `size_t` addition. */
module CacheEngine {
  import opened MachineWords

  /** The exceptions the engines raise. */
  datatype Error =
    | NullKey            // "key must not be null"
    | BadSize            // "size must not be zero or greater than max_size"
    | ZeroMaxSize        // "max_size must not be zero"
    | EmptyButSized      // init: "empty cache but cache_size mismatch"
    | SequenceMismatch   // init: "sequence mismatch"
    | CacheSizeMismatch  // "cache_size mismatch"
    | NothingToEvict     // "cache_size mismatch or cache with empty key"
    | FatalLogic         // "fatal logic error"
    | Violation          // the SQLiteError of a violated table constraint

  datatype Outcome = Returned(value: bool) | Threw(error: Error)

  /** What a statement that changes a table reports: the rows it changed, or that a constraint
      was violated, which throws. */
  datatype Executed = Changed(rows: nat) | Violated

  /** `size_t` and `uint64_t` addition. */
  function Add64(a: nat, b: nat): nat {
    (a + b) % TWO64
  }

  lemma Add64Exact(a: nat, b: nat)
    ensures a + b < TWO64 ==> Add64(a, b) == a + b
  {
  }

  /** The sums the engines form are a `cache_size` and a requested size, each up to
      `max_size`.  None of them can wrap around exactly when `max_size` is below 2^63. */
  lemma NoSumWrapsIff(maxSize: nat)
    requires maxSize < TWO64
    ensures (forall a: nat, b: nat :: a <= maxSize && b <= maxSize ==> Add64(a, b) == a + b)
            <==> maxSize < TWO63
  {
    if maxSize >= TWO63 {
      assert Add64(maxSize, maxSize) != maxSize + maxSize;
    }
  }
}
