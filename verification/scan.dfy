/** The linear "first match wins" scan shared by both lookup directions of the
    table: walk the rows in declaration order and stop at the first row that
    satisfies the test. */
module Scan {
  import opened Wrappers

  /** `i` is the first position of `s` whose element satisfies `p`. */
  ghost predicate IsFirstMatch<T>(s: seq<T>, p: T -> bool, i: int) {
    && 0 <= i < |s|
    && p(s[i])
    && forall j :: 0 <= j < i ==> !p(s[j])
  }

  /** The first position at or after `from` whose element satisfies `p`, or
      `None` when no element from `from` on satisfies it. */
  function FirstIndexFrom<T>(s: seq<T>, p: T -> bool, from: nat): (r: Option<nat>)
    requires from <= |s|
    ensures r.Some? ==> from <= r.value < |s| && p(s[r.value])
    ensures r.Some? ==> forall j :: from <= j < r.value ==> !p(s[j])
    ensures r.None? <==> forall j :: from <= j < |s| ==> !p(s[j])
    decreases |s| - from
  {
    if from == |s| then None
    else if p(s[from]) then Some(from)
    else FirstIndexFrom(s, p, from + 1)
  }

  /** The first position of `s` whose element satisfies `p`. */
  function FirstIndex<T>(s: seq<T>, p: T -> bool): (r: Option<nat>)
    ensures r.Some? ==> IsFirstMatch(s, p, r.value)
    ensures r.None? <==> forall j :: 0 <= j < |s| ==> !p(s[j])
  {
    FirstIndexFrom(s, p, 0)
  }

  /** The first match is unique: any position that satisfies `p` with no
      earlier position satisfying it is the one the scan returns. */
  lemma FirstIndexIsFirstMatch<T>(s: seq<T>, p: T -> bool, i: int)
    ensures FirstIndex(s, p) == Some(i) <==> IsFirstMatch(s, p, i)
  {
  }
}
