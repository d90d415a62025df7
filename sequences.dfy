/** Sequence helpers shared by the heap models. */
module Sequences {

  /** `s` without its element at index `j`. */
  function RemoveAt<T>(s: seq<T>, j: nat): (r: seq<T>)
    requires j < |s|
    ensures |r| == |s| - 1
  {
    s[..j] + s[j + 1..]
  }

  /** Removing an element adds none. */
  lemma RemoveAtMembers<T>(s: seq<T>, j: nat)
    requires j < |s|
    ensures forall x :: x in RemoveAt(s, j) ==> x in s
  {
    assert forall i :: 0 <= i < |RemoveAt(s, j)| ==> RemoveAt(s, j)[i] == s[if i < j then i else i + 1];
  }
}
