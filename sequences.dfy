/** Filtering a sequence, described by the positions of the elements the filter keeps.
    Java's `stream().filter(...).toList()` and the loops that skip some elements keep
    exactly these elements, in this order, with their repetitions. */
module Sequences {

  /** The positions of the elements of `s` that satisfy `keep`, from left to right. */
  function KeptIndices<T>(s: seq<T>, keep: T -> bool): (idx: seq<nat>)
    ensures forall k :: 0 <= k < |idx| ==> idx[k] < |s|
  {
    if s == [] then []
    else KeptIndices(s[..|s| - 1], keep) + (if keep(s[|s| - 1]) then [|s| - 1] else [])
  }

  /** `KeptIndices` lists, in increasing order, exactly the positions whose element is kept. */
  lemma {:induction false} KeptIndicesExactly<T>(s: seq<T>, keep: T -> bool)
    ensures var idx := KeptIndices(s, keep);
      && (forall k, l :: 0 <= k < l < |idx| ==> idx[k] < idx[l])
      && (forall j :: 0 <= j < |s| ==> (j in idx <==> keep(s[j])))
  {
    if s != [] {
      var init := s[..|s| - 1];
      KeptIndicesExactly(init, keep);
      assert forall j :: 0 <= j < |init| ==> init[j] == s[j];
    }
  }
}
