/** The one search pattern the script uses everywhere: a `for` loop over a
    list that returns (or breaks) on the first element that satisfies a test. */
module Search {
  import opened Wrappers

  /** `i` is the position of the first element of `s` that satisfies `p`. */
  predicate IsFirstMatch<T>(s: seq<T>, p: T -> bool, i: int) {
    0 <= i < |s| && p(s[i]) && forall j :: 0 <= j < i ==> !p(s[j])
  }

  /** Index of the first element of `s` satisfying `p`, or None when no
      element does. */
  function FirstMatch<T>(s: seq<T>, p: T -> bool): (r: Option<nat>)
    ensures r.Some? ==> IsFirstMatch(s, p, r.value)
    ensures r.None? <==> forall j :: 0 <= j < |s| ==> !p(s[j])
  {
    if |s| == 0 then None
    else if p(s[0]) then Some(0)
    else
      match FirstMatch(s[1..], p)
      case None => None
      case Some(k) => Some(k + 1)
  }

  /** The first match is unique: any position that is a first match is the
      one FirstMatch returns. */
  lemma FirstMatchIsUnique<T>(s: seq<T>, p: T -> bool, i: int)
    requires IsFirstMatch(s, p, i)
    ensures FirstMatch(s, p) == Some(i)
  {
  }
}
