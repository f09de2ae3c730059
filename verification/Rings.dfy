/** Ring buffers: the queue that a fixed array, a head and a size stand for. */
module Rings {

  /** The position i places on from head, around an array of length cap. */
  function Index(cap: nat, head: nat, i: nat): (p: nat)
    requires head < cap && i <= cap
    ensures p < cap
  {
    if head + i < cap then head + i else head + i - cap
  }

  /** The size entries of a ring from head on, oldest first. */
  ghost function View<T>(ring: seq<T>, head: nat, size: nat): (q: seq<T>)
    requires head < |ring| && size <= |ring|
    ensures |q| == size
  {
    seq(size, i requires 0 <= i < size => ring[Index(|ring|, head, i)])
  }

  lemma Push<T>(ring: seq<T>, head: nat, size: nat, x: T)
    requires head < |ring| && size < |ring|
    ensures View(ring[Index(|ring|, head, size) := x], head, size + 1) == View(ring, head, size) + [x]
  {
    var q, r := View(ring, head, size), View(ring[Index(|ring|, head, size) := x], head, size + 1);
    forall i | 0 <= i < |r| ensures r[i] == (q + [x])[i] {}
  }

  lemma Pop<T>(ring: seq<T>, head: nat, size: nat)
    requires head < |ring| && 0 < size <= |ring|
    ensures View(ring, head, size) == [ring[head]] + View(ring, Index(|ring|, head, 1), size - 1)
  {
    var q, p := View(ring, head, size), View(ring, Index(|ring|, head, 1), size - 1);
    forall i | 0 <= i < |p| ensures p[i] == q[i + 1] {}
  }
}
