/** Facts about sequences that several parts of the project use. */
module Seqs {

  function Reversed<T>(s: seq<T>): (r: seq<T>)
    ensures |r| == |s|
    ensures forall i :: 0 <= i < |s| ==> r[i] == s[|s| - 1 - i]
  {
    if s == [] then [] else Reversed(s[1..]) + [s[0]]
  }

  /** Two steps of a queue: what was there (p, p1) and what came (a, a1) is what went (r, r1) and what
      is left. */
  lemma Joined<T>(p: seq<T>, a: seq<T>, r: seq<T>, p1: seq<T>, a1: seq<T>, r1: seq<T>, left: seq<T>)
    requires p + a == r + p1 && p1 + a1 == r1 + left
    ensures p + (a + a1) == (r + r1) + left
  {
    calc {
      p + (a + a1);
      (p + a) + a1;
      r + (p1 + a1);
      (r + r1) + left;
    }
  }
}
