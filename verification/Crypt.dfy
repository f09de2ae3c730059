/** The password comparison of the shell's `enc` command, on the strings its buffers hold. */
module Crypt {
  type char8 = bv8

  /** The string a buffer holds: what stands before its first NUL. */
  function Text(m: seq<char8>): (s: seq<char8>)
    ensures |s| <= |m| && s == m[..|s|] && 0 !in s
    ensures |s| < |m| ==> m[|s|] == 0
  {
    if m == [] || m[0] == 0 then [] else [m[0]] + Text(m[1..])
  }

  lemma {:induction false} TextIs(m: seq<char8>, n: nat)
    requires n <= |m| && 0 !in m[..n] && (n < |m| ==> m[n] == 0)
    ensures Text(m) == m[..n]
  {
    if n > 0 {
      assert m[0] == m[..n][0] && m[1..][..n - 1] == m[..n][1..];
      TextIs(m[1..], n - 1);
    }
  }

  lemma Longer(m: seq<char8>, s: seq<char8>)
    requires |s| < |m| && m[|s|] != 0
    ensures Text(m) != s
  {}

  /** The mixing formula of `crypt` for one byte of the text and one of the key. */
  function Mixed(a: char8, k: char8): char8 {
    !(a | k) | (a & !k)
  }

  /** The complement of a byte: never NUL for a byte other than 0xFF. */
  function Flipped(k: char8): (r: char8)
    ensures (r == 0 <==> k == 0xFF) && (r == 0xFF <==> k == 0)
  {
    !k
  }

  /** The text drops out of the formula: what is left is the complement of the key. */
  lemma MixedIsComplement(a: char8, k: char8)
    ensures Mixed(a, k) == Flipped(k) && Flipped(Flipped(k)) == k
  {}

  /** The place of the moving key pointer after i steps. */
  function Around(i: nat, n: nat): (r: nat)
    requires n > 0
    ensures r < n && (i < n ==> r == i) && (i == n ==> r == 0)
  {
    i % n
  }

  /** What `crypt` writes before its NUL: the key is used over and over. */
  function Crypted(a: seq<char8>, b: seq<char8>): (s: seq<char8>)
    requires b != []
    ensures |s| == |a|
  {
    seq(|a|, i requires 0 <= i < |a| => Mixed(a[i], b[Around(i, |b|)]))
  }

  lemma CryptedAt(a: seq<char8>, b: seq<char8>, i: nat)
    requires b != [] && i < |a|
    ensures Crypted(a, b)[i] == Flipped(b[Around(i, |b|)])
    ensures i < |b| ==> Crypted(a, b)[i] == Flipped(b[i])
  {
    MixedIsComplement(a[i], b[Around(i, |b|)]);
  }

  /** `strcpy` writes the characters of the string and no NUL behind them. */
  function Overwritten(m: seq<char8>, s: seq<char8>): (r: seq<char8>)
    requires |s| <= |m|
    ensures |r| == |m|
  {
    s + m[|s|..]
  }

  datatype Answer = Aborted | Told(same: bool)

  /** The encp buffer when the first password is stored in it. */
  function Stored(saver: seq<char8>, encp: seq<char8>, first: seq<char8>): (e: seq<char8>)
    requires |first| >= 2 && |first| < |saver| <= |encp|
    ensures |e| == |encp|
  {
    Overwritten(encp, Text(Crypted(saver, first)))[|first| := 0]
  }

  /** The second half of the command: the stored key undoes itself on the second password. */
  function Compared(e: seq<char8>, second: seq<char8>): (r: (Answer, seq<char8>))
    requires |second| < |e|
    ensures |r.1| == |e|
  {
    var key := Text(e);
    if second == [] || |key| < 2 then (Aborted, e)
    else
      var e2 := Overwritten(e, Text(Crypted(second, key)));
      (Told(second == Text(e2)), e2)
  }

  /** The command on the two passwords typed in, and the encp buffer it leaves. */
  function EncRun(saver: seq<char8>, encp: seq<char8>, first: seq<char8>, second: seq<char8>): (r: (Answer, seq<char8>))
    requires |first| < |saver| <= |encp| && |second| < |saver|
    ensures |r.1| == |encp|
  {
    if |first| < 2 then (Aborted, encp)
    else
      var e := Stored(saver, encp, first);
      Compared(e, second)
  }

  predicate Password(p: seq<char8>) {
    |p| <= 511 && 0 !in p && 0xFF !in p
  }

  lemma NoZeroInComplement(a: seq<char8>, b: seq<char8>)
    requires b != [] && 0xFF !in b
    ensures 0 !in Crypted(a, b) && Text(Crypted(a, b)) == Crypted(a, b)
  {
    var c := Crypted(a, b);
    forall i | 0 <= i < |c| ensures c[i] != 0 { CryptedAt(a, b, i); }
    hide Crypted, Text;
    TextIs(c, |c|);
    assert c[..|c|] == c;
  }

  /** The complement of a password, byte by byte. */
  predicate IsFlip(key: seq<char8>, first: seq<char8>) {
    |key| == |first| && forall i :: 0 <= i < |key| ==> key[i] == Flipped(first[i])
  }

  /** The stored key is the complement of the first password, and no other place before the end of
      the saver holds a NUL, whatever encp held before. */
  lemma StoredKey(saver: seq<char8>, encp: seq<char8>, first: seq<char8>)
    requires |saver| > 511 && |saver| <= |encp| && Password(first) && |first| >= 2
    ensures var e := Stored(saver, encp, first);
            && IsFlip(Text(e), first) && e[|first|] == 0
            && forall i :: 0 <= i < |saver| && i != |first| ==> e[i] != 0
  {
    var e, n := Stored(saver, encp, first), |first|;
    var c := Crypted(saver, first);
    NoZeroInComplement(saver, first);
    assert e == Overwritten(encp, c)[n := 0];
    hide Crypted, Text, Flipped, Stored;
    assert forall i :: 0 <= i < |saver| && i != n ==> e[i] == c[i];
    forall i | 0 <= i < n ensures e[i] == Flipped(first[i]) { CryptedAt(saver, first, i); }
    TextIs(e, n);
  }

  /** Enciphering with the stored key gives the first password back, as far as it goes. */
  lemma FlippedBack(text: seq<char8>, key: seq<char8>, first: seq<char8>)
    requires IsFlip(key, first) && key != [] && 0 !in first
    ensures Text(Crypted(text, key)) == Crypted(text, key)
    ensures forall i :: 0 <= i < |text| && i < |first| ==> Crypted(text, key)[i] == first[i]
  {
    NoZeroInComplement(text, key);
    hide Text, Crypted, Flipped;
    forall i | 0 <= i < |text| && i < |first| ensures Crypted(text, key)[i] == first[i] {
      CryptedAt(text, key, i);
      MixedIsComplement(0, first[i]);
    }
  }

  /** Main result: for all passwords of at most 511 bytes other than NUL and 0xFF, and whatever is
      left over in encp, the command answers exactly when the first password has two bytes or more and
      the second is not empty, and then it says "the same" exactly when the two are equal. */
  lemma PasswordsCompared(saver: seq<char8>, encp: seq<char8>, first: seq<char8>, second: seq<char8>)
    requires |saver| > 511 && |saver| <= |encp| && Password(first) && Password(second)
    ensures EncRun(saver, encp, first, second).0
         == if |first| < 2 || second == [] then Aborted else Told(first == second)
  {
    if |first| >= 2 && second != [] {
      var e, n := Stored(saver, encp, first), |second|;
      StoredKey(saver, encp, first);
      var key := Text(e);
      FlippedBack(second, key, first);
      var e2 := Overwritten(e, Crypted(second, key));
      assert EncRun(saver, encp, first, second).0 == Told(second == Text(e2));
      hide Text, Stored, Crypted, IsFlip, EncRun;
      assert e2[n] == e[n];
      if n == |first| {
        assert e2[..n] == first;
        TextIs(e2, n);
      } else {
        Longer(e2, second);
      }
    }
  }

  // ---- The byte 0xFF ----

  /** What encp holds after the command has been used with these pairs of passwords. */
  function AfterUses(saver: seq<char8>, encp: seq<char8>, uses: seq<(seq<char8>, seq<char8>)>): (e: seq<char8>)
    requires forall i :: 0 <= i < |uses| ==> Typed(saver, uses[i])
    requires |saver| <= |encp|
    ensures |e| == |encp|
    decreases |uses|
  {
    if uses == [] then encp
    else
      assert Typed(saver, uses[0]);
      AfterUses(saver, EncRun(saver, encp, uses[0].0, uses[0].1).1, uses[1..])
  }

  /** Two lines that can be typed in: shorter than the saver, without NUL. */
  predicate Typed(saver: seq<char8>, use: (seq<char8>, seq<char8>)) {
    |use.0| < |saver| && |use.1| < |saver| && 0 !in use.0 && 0 !in use.1
  }

  /** A key is a string, and the complement of a byte of it is never 0xFF. */
  lemma NoOnesCrypted(a: seq<char8>, b: seq<char8>)
    requires b != [] && 0 !in b
    ensures 0xFF !in Text(Crypted(a, b))
  {
    var c := Crypted(a, b);
    forall i | 0 <= i < |c| ensures c[i] != 0xFF { CryptedAt(a, b, i); }
    hide Crypted;
  }

  lemma NoOnesStored(saver: seq<char8>, encp: seq<char8>, first: seq<char8>)
    requires |first| >= 2 && |first| < |saver| <= |encp| && 0 !in first && 0xFF !in encp
    ensures 0xFF !in Stored(saver, encp, first)
  {
    NoOnesCrypted(saver, first);
    hide Crypted, Text;
  }

  /** No use of the command brings a byte 0xFF into encp, whatever the passwords hold. */
  lemma NoOnesKept(saver: seq<char8>, encp: seq<char8>, use: (seq<char8>, seq<char8>))
    requires Typed(saver, use) && |saver| <= |encp| && 0xFF !in encp
    ensures 0xFF !in EncRun(saver, encp, use.0, use.1).1
  {
    hide Crypted, Stored, Text;
    if |use.0| >= 2 {
      NoOnesStored(saver, encp, use.0);
      var key := Text(Stored(saver, encp, use.0));
      if use.1 != [] && |key| >= 2 {
        NoOnesCrypted(use.1, key);
      }
    }
  }

  lemma {:induction false} NoOnesEver(saver: seq<char8>, encp: seq<char8>, uses: seq<(seq<char8>, seq<char8>)>)
    requires forall i :: 0 <= i < |uses| ==> Typed(saver, uses[i])
    requires |saver| <= |encp| && 0xFF !in encp
    ensures 0xFF !in AfterUses(saver, encp, uses)
    decreases |uses|
  {
    hide EncRun;
    if uses != [] {
      assert Typed(saver, uses[0]);
      NoOnesKept(saver, encp, uses[0]);
      NoOnesEver(saver, EncRun(saver, encp, uses[0].0, uses[0].1).1, uses[1..]);
    }
  }

  /** The limit on the bytes is exact: after any uses of the command, starting from the zeros of a static
      buffer, it recognizes a password typed twice if and only if no byte of it is 0xFF. */
  lemma RecognizedExactly(saver: seq<char8>, zeros: seq<char8>, uses: seq<(seq<char8>, seq<char8>)>, p: seq<char8>)
    requires |saver| > 511 && |saver| <= |zeros| && 2 <= |p| <= 511 && 0 !in p
    requires forall i :: 0 <= i < |zeros| ==> zeros[i] == 0
    requires forall i :: 0 <= i < |uses| ==> Typed(saver, uses[i])
    ensures EncRun(saver, AfterUses(saver, zeros, uses), p, p).0 == Told(true) <==> 0xFF !in p
  {
    hide EncRun, AfterUses;
    NoOnesEver(saver, zeros, uses);
    var encp := AfterUses(saver, zeros, uses);
    if 0xFF !in p {
      PasswordsCompared(saver, encp, p, p);
    } else {
      OnesNeverRecognized(saver, encp, p);
    }
  }

  /** A password with a byte 0xFF is never recognized: the key holds no NUL, so what is enciphered with
      it holds no 0xFF. */
  lemma OnesNeverRecognized(saver: seq<char8>, encp: seq<char8>, p: seq<char8>)
    requires |saver| > 511 && |saver| <= |encp| && 2 <= |p| <= 511 && 0 !in p && 0xFF in p && 0xFF !in encp
    ensures EncRun(saver, encp, p, p).0 != Told(true)
  {
    NoOnesStored(saver, encp, p);
    hide Stored, Crypted;
    var e := Stored(saver, encp, p);
    var key := Text(e);
    if |key| >= 2 {
      NoOnesCrypted(p, key);
      hide Text;
      var e2 := Overwritten(e, Text(Crypted(p, key)));
      assert 0xFF !in e2;
      assert 0xFF !in Text(e2);
    }
  }
}
