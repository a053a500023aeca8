/** Character searches shared by the path and dotted-name modules. */
module Strings {

  /** Python's `s.rfind(c)`: the index of the last `c` in `s`, or -1. */
  function LastIndexOf(s: string, c: char): (r: int)
    ensures -1 <= r < |s|
    ensures r >= 0 ==> s[r] == c
    ensures forall k :: r < k < |s| ==> s[k] != c
  {
    if s == [] then -1
    else if s[|s| - 1] == c then |s| - 1
    else LastIndexOf(s[..|s| - 1], c)
  }

  /** Every character of `s` is a dot (vacuously true of ""). */
  predicate AllDots(s: string) {
    forall i :: 0 <= i < |s| ==> s[i] == '.'
  }

  /** The last `c` of `u + v` is the one in `v` when `v` holds one. */
  lemma {:induction false} LastIndexOfAppend(u: string, v: string, c: char)
    requires c in v
    ensures LastIndexOf(u + v, c) == |u| + LastIndexOf(v, c)
  {
    var j := LastIndexOf(v, c);
    var r := LastIndexOf(u + v, c);
    assert (u + v)[|u| + j] == c;
    assert forall k :: |u| + j < k < |u + v| ==> (u + v)[k] == v[k - |u|];
  }
}
