/**
 * The first position of a sequence where a test holds: how a Python loop or
 * comprehension that raises on its first bad element is described here.
 */
module Search {

  /** The index of the first element satisfying `p`, or `|s|` when there is none. */
  function FirstWhere<T>(s: seq<T>, p: T -> bool): (i: nat)
    ensures i <= |s|
    ensures forall k :: 0 <= k < i ==> !p(s[k])
    ensures i < |s| ==> p(s[i])
    decreases |s|
  {
    if |s| == 0 then 0
    else if p(s[0]) then 0
    else
      var i := 1 + FirstWhere(s[1..], p);
      assert forall k :: 1 <= k < i ==> s[k] == s[1..][k - 1];
      i
  }

  /** Any index before which `p` fails everywhere and at which it holds (or the end) is the first one. */
  lemma FirstWhereIs<T>(s: seq<T>, p: T -> bool, i: nat)
    requires i <= |s|
    requires forall k :: 0 <= k < i ==> !p(s[k])
    requires i < |s| ==> p(s[i])
    ensures FirstWhere(s, p) == i
  {
  }
}
