/** Operations on sequences of anything. */
module Sequences {

  function Reversed<T>(s: seq<T>): (r: seq<T>)
    ensures |r| == |s| && forall i :: 0 <= i < |s| ==> r[i] == s[|s| - 1 - i]
  {
    if s == [] then [] else Reversed(s[1..]) + [s[0]]
  }

  /** Nothing stands twice. */
  ghost predicate Distinct<T>(s: seq<T>) {
    forall i :: 0 <= i < |s| ==> s[i] !in s[..i]
  }
}
