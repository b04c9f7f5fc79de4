/**
 * The first-match scan behind both catalogue lookups: a `for` loop over a
 * list that returns at the first element satisfying a test, or falls off
 * the end.
 */
module Scan {
  import opened Wrappers

  /** The index of the first element of `s[k..]` satisfying `p`. */
  function FirstFrom<T>(s: seq<T>, p: T -> bool, k: nat): (r: Option<nat>)
    requires k <= |s|
    ensures r.None? <==> forall j :: k <= j < |s| ==> !p(s[j])
    ensures r.Some? ==> k <= r.value < |s| && p(s[r.value])
    ensures r.Some? ==> forall j :: k <= j < r.value ==> !p(s[j])
    decreases |s| - k
  {
    if k == |s| then None
    else if p(s[k]) then Some(k)
    else FirstFrom(s, p, k + 1)
  }

  /** The index of the first element of `s` satisfying `p`. */
  function First<T>(s: seq<T>, p: T -> bool): Option<nat> {
    FirstFrom(s, p, 0)
  }

  /** The first match is the least index whose element satisfies `p`, and no other. */
  lemma FirstIsLeast<T>(s: seq<T>, p: T -> bool, i: nat)
    requires i < |s|
    ensures First(s, p) == Some(i) <==> p(s[i]) && forall j :: 0 <= j < i ==> !p(s[j])
  {
  }

  /** Elements after a match never change the outcome of the scan. */
  lemma {:induction false} FirstIgnoresSuffix<T>(s: seq<T>, rest: seq<T>, p: T -> bool)
    requires First(s, p).Some?
    ensures First(s + rest, p) == First(s, p)
  {
    var i := First(s, p).value;
    assert (s + rest)[i] == s[i];
    forall j | 0 <= j < i ensures !p((s + rest)[j]) {
      assert (s + rest)[j] == s[j];
    }
    FirstIsLeast(s + rest, p, i);
  }
}
