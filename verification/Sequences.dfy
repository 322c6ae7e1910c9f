/** Sequences of numbers used as lists of identifiers. */
module Sequences {
  ghost predicate NoRepeats(s: seq<nat>) {
    forall i, j :: 0 <= i < j < |s| ==> s[i] != s[j]
  }

  function SetOf(s: seq<nat>): set<nat> { set x | x in s }

  /** The sequence without the element at a position. */
  function Without(s: seq<nat>, p: nat): (r: seq<nat>)
    requires p < |s|
    ensures |r| == |s| - 1
  {
    s[..p] + s[p + 1..]
  }

  /** The sequence without the first occurrence of a value. */
  function Dropped(s: seq<nat>, v: nat): (r: seq<nat>) {
    if s == [] then [] else if s[0] == v then s[1..] else [s[0]] + Dropped(s[1..], v)
  }

  /** The elements that belong to a set, in their order. */
  function Kept<T>(s: seq<T>, keep: set<T>): seq<T> {
    if s == [] then [] else if s[0] in keep then [s[0]] + Kept(s[1..], keep) else Kept(s[1..], keep)
  }
}
