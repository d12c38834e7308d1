/** Joining the pieces of a sequence and erasing one element. */
module Sequences {

  function Concat<T>(pieces: seq<seq<T>>): seq<T> {
    if pieces == [] then [] else Concat(pieces[..|pieces| - 1]) + pieces[|pieces| - 1]
  }

  lemma ConcatNothing<T>()
    ensures Concat<T>([]) == []
  {
  }

  lemma {:induction false} ConcatSnoc<T>(pieces: seq<seq<T>>, s: seq<T>)
    ensures Concat(pieces + [s]) == Concat(pieces) + s
  {
    assert (pieces + [s])[..|pieces|] == pieces;
  }

  function Erase<T>(s: seq<T>, k: nat): seq<T>
    requires k < |s|
  {
    s[..k] + s[k + 1..]
  }

  /** The elements that satisfy p, in order. */
  function Filter<T(!new)>(s: seq<T>, p: T -> bool): (out: seq<T>)
    ensures forall x :: x in out <==> x in s && p(x)
  {
    if s == [] then []
    else
      var n := |s| - 1;
      assert s == s[..n] + [s[n]];
      Filter(s[..n], p) + (if p(s[n]) then [s[n]] else [])
  }
}
