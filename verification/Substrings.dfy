/** Occurrences of one text in another, as JavaScript's `includes` and `indexOf` find them. */
module Substrings {

  predicate OccursAt(text: string, w: string, i: nat) {
    i + |w| <= |text| && text[i..i + |w|] == w
  }

  /** `text.includes(w)` */
  predicate Includes(text: string, w: string) {
    exists i :: 0 <= i <= |text| && OccursAt(text, w, i)
  }

  /** The leftmost occurrence at or after `from`. */
  function IndexOf(text: string, w: string, from: nat): (r: int)
    requires from <= |text|
    decreases |text| - from
    ensures r == -1 || (from <= r <= |text| && OccursAt(text, w, r))
    ensures forall i :: from <= i < (if r == -1 then |text| + 1 else r) ==> !OccursAt(text, w, i)
  {
    if OccursAt(text, w, from) then from
    else if from == |text| then -1
    else IndexOf(text, w, from + 1)
  }
}
