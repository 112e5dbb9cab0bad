/** The callback every cache class is constructed with: it takes the entries one call evicted. */
module RemoveCallback {

  /** The vectors handed over so far, after a call that evicted `victims`: a call that evicts
      nothing does not invoke the callback. */
  function Logged<T>(removals: seq<seq<T>>, victims: seq<T>): seq<seq<T>> {
    removals + if victims == [] then [] else [victims]
  }

  function Flattened<T>(removals: seq<seq<T>>): seq<T> {
    if removals == [] then [] else Flattened(removals[..|removals| - 1]) + removals[|removals| - 1]
  }

  /** A call adds its victims, in their order, to what was reported before; it reports them in one
      vector, and never an empty one. */
  lemma OneReport<T>(removals: seq<seq<T>>, victims: seq<T>)
    ensures var after := Logged(removals, victims);
            && Flattened(after) == Flattened(removals) + victims
            && removals <= after && |after| <= |removals| + 1
            && ([] !in removals ==> [] !in after)
  {
    if victims == [] {
      assert removals + [] == removals;
    } else {
      assert (removals + [victims])[..|removals|] == removals;
    }
  }
}
