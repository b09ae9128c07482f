/** The early-return "first element that qualifies" scan shared by the header
    locator and the column mapper. */
module Search {
  import opened Wrappers

  /** Index of the first element of `s[lo..hi]` that satisfies `P`. */
  function FirstIndex<T>(s: seq<T>, P: T -> bool, lo: nat, hi: nat): (r: Option<nat>)
    requires lo <= hi <= |s|
    ensures r.Some? ==> lo <= r.value < hi && P(s[r.value])
    ensures r.Some? ==> forall j :: lo <= j < r.value ==> !P(s[j])
    ensures r.None? <==> forall j :: lo <= j < hi ==> !P(s[j])
    decreases hi - lo
  {
    if lo == hi then None
    else if P(s[lo]) then Some(lo)
    else FirstIndex(s, P, lo + 1, hi)
  }

  /** The first element that qualifies is the one found. */
  lemma FirstIndexIs<T>(s: seq<T>, P: T -> bool, lo: nat, hi: nat, i: nat)
    requires lo <= i < hi <= |s| && P(s[i])
    requires forall j :: lo <= j < i ==> !P(s[j])
    ensures FirstIndex(s, P, lo, hi) == Some(i)
  {
  }
}
