/** `memcpy` and `memset` of string.h on byte memory, and the same memory seen as 16-bit cells. */
module Memory {
  import opened Words

  /** `memcpy`: one byte after the other, lowest address first. */
  function Copied<T>(b: seq<T>, dst: nat, src: nat, n: nat): (r: seq<T>)
    requires dst + n <= |b| && src + n <= |b|
    ensures |r| == |b|
    decreases n
  {
    if n == 0 then b else Copied(b[dst := b[src]], dst + 1, src + 1, n - 1)
  }

  /** The copy as if the source had been read before anything was written. */
  function Moved<T>(b: seq<T>, dst: nat, src: nat, n: nat): (r: seq<T>)
    requires dst + n <= |b| && src + n <= |b|
    ensures |r| == |b|
  {
    b[..dst] + b[src..src + n] + b[dst + n..]
  }

  lemma MovedAt<T>(b: seq<T>, dst: nat, src: nat, n: nat, i: nat)
    requires dst + n <= |b| && src + n <= |b| && i < |b|
    ensures Moved(b, dst, src, n)[i] == if dst <= i < dst + n then b[src + (i - dst)] else b[i]
  {}

  /** The ascending copy does not clobber its source when it moves down, or the areas are disjoint. */
  predicate Harmless(dst: nat, src: nat, n: nat) {
    dst <= src || src + n <= dst
  }

  lemma {:induction false} CopyMoves<T>(b: seq<T>, dst: nat, src: nat, n: nat)
    requires dst + n <= |b| && src + n <= |b| && Harmless(dst, src, n)
    ensures Copied(b, dst, src, n) == Moved(b, dst, src, n)
    decreases n
  {
    if n > 0 {
      CopyMoves(b[dst := b[src]], dst + 1, src + 1, n - 1);
    }
  }

  lemma {:induction false} CopyFrame<T>(b: seq<T>, dst: nat, src: nat, n: nat, i: nat)
    requires dst + n <= |b| && src + n <= |b| && i < dst
    ensures Copied(b, dst, src, n)[i] == b[i]
    decreases n
  {
    if n > 0 { CopyFrame(b[dst := b[src]], dst + 1, src + 1, n - 1, i); }
  }

  /** Moving up into its own source, the ascending copy starts to repeat once it reaches it. */
  lemma {:induction false} CopyRepeats<T>(b: seq<T>, dst: nat, src: nat, n: nat, k: nat)
    requires src < dst && dst + n <= |b| && k < n && k <= dst - src
    ensures Copied(b, dst, src, n)[dst + k] == b[if src + k < dst then src + k else src]
    decreases n
  {
    var c := b[dst := b[src]];
    if k == 0 {
      CopyFrame(c, dst + 1, src + 1, n - 1, dst);
    } else {
      CopyRepeats(c, dst + 1, src + 1, n - 1, k - 1);
    }
  }

  /** Copying up into its own source, the loop reads a place it has already written. */
  lemma Clobbers(size: nat, dst: nat, src: nat, n: nat) returns (b: seq<int>)
    requires dst + n <= size && src + n <= size && !Harmless(dst, src, n)
    ensures |b| == size && Copied(b, dst, src, n) != Moved(b, dst, src, n)
  {
    b := seq(size, i => if i == src then 1 else 0);
    assert b[src] == 1 && b[dst] == 0;
    hide Copied, Moved;
    CopyRepeats(b, dst, src, n, dst - src);
    MovedAt(b, dst, src, n, dst + (dst - src));
  }

  /** `memcpy` copies every content faithfully exactly when it moves down or the areas are disjoint. */
  lemma HarmlessExactly(size: nat, dst: nat, src: nat, n: nat)
    requires dst + n <= size && src + n <= size
    ensures Harmless(dst, src, n) <==>
            forall b: seq<int> | |b| == size :: Copied(b, dst, src, n) == Moved(b, dst, src, n)
  {
    hide Copied, Moved;
    if Harmless(dst, src, n) {
      forall b: seq<int> | |b| == size ensures Copied(b, dst, src, n) == Moved(b, dst, src, n) {
        CopyMoves(b, dst, src, n);
      }
    } else {
      var b := Clobbers(size, dst, src, n);
    }
  }

  // ---- Cells ----

  type cell = x: int | 0 <= x < 0x1_0000

  function Cell16(lo: byte, hi: byte): cell {
    lo + 256 * hi
  }

  /** Byte memory as little-endian 16-bit cells. */
  function CellsOf(b: seq<byte>): (c: seq<cell>)
    requires |b| % 2 == 0
    ensures |c| == |b| / 2
  {
    seq(|b| / 2, k requires 0 <= k < |b| / 2 => Cell16(b[2 * k], b[2 * k + 1]))
  }

  lemma CellAt(b: seq<byte>, k: nat)
    requires |b| % 2 == 0 && 2 * k + 1 < |b|
    ensures CellsOf(b)[k] == Cell16(b[2 * k], b[2 * k + 1])
  {}

  lemma MoveCell(b: seq<byte>, dst: nat, src: nat, n: nat, k: nat)
    requires |b| % 2 == 0 && 2 * (dst + n) <= |b| && 2 * (src + n) <= |b| && 2 * k + 1 < |b|
    ensures CellsOf(Moved(b, 2 * dst, 2 * src, 2 * n))[k] == Moved(CellsOf(b), dst, src, n)[k]
  {
    hide CellsOf, Moved;
    var m := Moved(b, 2 * dst, 2 * src, 2 * n);
    CellAt(m, k);
    MovedAt(b, 2 * dst, 2 * src, 2 * n, 2 * k);
    MovedAt(b, 2 * dst, 2 * src, 2 * n, 2 * k + 1);
    MovedAt(CellsOf(b), dst, src, n, k);
    CellAt(b, if dst <= k < dst + n then src + (k - dst) else k);
  }

  /** Copying whole cells copies the cells. */
  lemma MoveCells(b: seq<byte>, dst: nat, src: nat, n: nat)
    requires |b| % 2 == 0 && 2 * (dst + n) <= |b| && 2 * (src + n) <= |b|
    ensures CellsOf(Moved(b, 2 * dst, 2 * src, 2 * n)) == Moved(CellsOf(b), dst, src, n)
  {
    hide CellsOf, Moved;
    forall k | 0 <= k < |b| / 2
      ensures CellsOf(Moved(b, 2 * dst, 2 * src, 2 * n))[k] == Moved(CellsOf(b), dst, src, n)[k]
    {
      MoveCell(b, dst, src, n, k);
    }
  }

  /** `memset`, with the value to fill in. */
  function Cleared<T>(b: seq<T>, dst: nat, n: nat, zero: T): (r: seq<T>)
    requires dst + n <= |b|
    ensures |r| == |b|
    ensures forall i :: 0 <= i < |b| ==> r[i] == if dst <= i < dst + n then zero else b[i]
  {
    b[..dst] + seq(n, _ => zero) + b[dst + n..]
  }

  lemma ClearCells(b: seq<byte>, dst: nat, n: nat)
    requires |b| % 2 == 0 && 2 * (dst + n) <= |b|
    ensures CellsOf(Cleared(b, 2 * dst, 2 * n, 0)) == Cleared(CellsOf(b), dst, n, 0)
  {
    var m, c := Cleared(b, 2 * dst, 2 * n, 0), Cleared(CellsOf(b), dst, n, 0);
    forall k | 0 <= k < |c| ensures CellsOf(m)[k] == c[k] {
      assert CellsOf(m)[k] == Cell16(m[2 * k], m[2 * k + 1]);
    }
  }

  /** A 16-bit store. */
  function Stored(b: seq<byte>, k: nat, v: cell): (s: seq<byte>)
    requires |b| % 2 == 0 && 2 * k + 1 < |b|
    ensures |s| == |b|
  {
    var low: seq<byte> := b[2 * k := v % 256];
    low[2 * k + 1 := v / 256]
  }

  lemma StoreCell(b: seq<byte>, k: nat, v: cell)
    requires |b| % 2 == 0 && 2 * k + 1 < |b|
    ensures CellsOf(Stored(b, k, v)) == CellsOf(b)[k := v]
  {}

  // ---- The code ----

  /** `memcpy` within one memory. */
  method Memcpy(memory: array<byte>, dst: nat, src: nat, n: nat)
    requires dst + n <= memory.Length && src + n <= memory.Length
    modifies memory
    ensures memory[..] == Copied(old(memory[..]), dst, src, n)
  {
    var d, s, left := dst, src, n;
    while left > 0
      invariant 0 <= left <= n && d == dst + n - left && s == src + n - left
      invariant Copied(memory[..], d, s, left) == Copied(old(memory[..]), dst, src, n)
    {
      ghost var before := memory[..];
      memory[d] := memory[s];
      assert memory[..] == before[d := before[s]];
      left, d, s := left - 1, d + 1, s + 1;
    }
  }

  /** `memset`; the value is converted to a byte. */
  method Memset(memory: array<byte>, dst: nat, c: int, n: nat)
    requires dst + n <= memory.Length
    modifies memory
    ensures memory[..] == Cleared(old(memory[..]), dst, n, c % 256)
  {
    var d, left := dst, n;
    while left > 0
      invariant 0 <= left <= n && d == dst + n - left
      invariant forall i :: 0 <= i < memory.Length ==> memory[i] == if dst <= i < d then c % 256 else old(memory[i])
    {
      memory[d] := c % 256;
      left, d := left - 1, d + 1;
    }
    assert memory[..] == Cleared(old(memory[..]), dst, n, c % 256);
  }
}
