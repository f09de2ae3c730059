/** The `enc` command as it runs: loops over character buffers that end at the first NUL. */
module CryptCode {
  import opened Crypt

  const LINE := 512
  const BUFFER := 8192

  /** The value of a `char`, which is signed. */
  function CharValue(c: char8): int {
    if c < 128 then c as int else c as int - 256
  }

  method Strlen(s: array<char8>) returns (l: nat)
    requires 0 in s[..]
    ensures l == |Text(s[..])| && l < s.Length && s[l] == 0
  {
    l := 0;
    while s[l] != 0
      invariant l < s.Length && 0 !in s[..l] && 0 in s[l..]
      decreases s.Length - l
    {
      assert s[l..] == [s[l]] + s[l + 1..];
      assert s[..l + 1] == s[..l] + [s[l]];
      l := l + 1;
    }
    TextIs(s[..], l);
  }

  /** `strcpy`: the characters, but not the NUL behind them. */
  method Strcpy(s1: array<char8>, s2: array<char8>)
    requires s1 != s2 && 0 in s2[..] && |Text(s2[..])| <= s1.Length
    modifies s1
    ensures s1[..] == Overwritten(old(s1[..]), Text(s2[..]))
  {
    ghost var text, was := Text(s2[..]), s1[..];
    TextEnds(s2[..]);
    assert forall j :: 0 <= j < |text| ==> text[j] == s2[j] != 0;
    hide Text;
    var i := 0;
    while s2[i] != 0
      invariant i <= |text| && s1[..] == text[..i] + was[i..]
      decreases |text| - i
    {
      PutNext(was, text, i, s1[..]);
      s1[i] := s2[i];
      i := i + 1;
    }
    assert text[..i] == text;
  }

  lemma TextEnds(m: seq<char8>)
    requires 0 in m
    ensures |Text(m)| < |m|
  {
    assert m[..|m|] == m;
  }

  /** `strcmp` returns 0 exactly for equal strings. */
  method Strcmp(s1: array<char8>, s2: array<char8>) returns (d: int)
    requires 0 in s1[..] && |Text(s1[..])| < s2.Length
    ensures d == 0 <==> Text(s1[..]) == Text(s2[..])
  {
    ghost var text := Text(s1[..]);
    TextEnds(s1[..]);
    var i := 0;
    while s1[i] != 0 && s1[i] == s2[i]
      invariant i <= |text| && text[..i] == s2[..i]
      decreases |text| - i
    {
      assert text[..i + 1] == text[..i] + [s1[i]] && s2[..i + 1] == s2[..i] + [s2[i]];
      i := i + 1;
    }
    d := CharValue(s1[i]) - CharValue(s2[i]);
    CompareEnds(s1[..], s2[..], i);
  }

  lemma CompareEnds(m1: seq<char8>, m2: seq<char8>, i: nat)
    requires |Text(m1)| < |m1| && i <= |Text(m1)| && i < |m2| && m1[..i] == m2[..i]
    requires m1[i] == 0 || m1[i] != m2[i]
    ensures m1[i] == m2[i] <==> Text(m1) == Text(m2)
  {
    assert m1[i] == 0 <==> i == |Text(m1)|;
    if m1[i] == m2[i] {
      TextIs(m2, i);
    }
  }

  /** `crypt` with its static buffer; a refusal is its null result. */
  method Encipher(a: array<char8>, b: array<char8>, enc: array<char8>) returns (done: bool)
    requires 0 in a[..] && 0 in b[..] && enc != a && enc != b && |Text(a[..])| < enc.Length
    modifies enc
    ensures done == (Text(a[..]) != [] && |Text(b[..])| >= 2)
    ensures done ==> enc[..] == Overwritten(old(enc[..]), Crypted(Text(a[..]), Text(b[..])) + [0])
    ensures !done ==> enc[..] == old(enc[..])
  {
    ghost var ta, tb := Text(a[..]), Text(b[..]);
    TextEnds(a[..]);
    TextEnds(b[..]);
    if a[0] == 0 || b[0] == 0 || b[1] == 0 {
      return false;
    }
    assert |tb| >= 2 && Holds(a, ta) && Holds(b, tb);
    hide Text, Crypted, Overwritten, Holds;
    MixAll(a, b, enc, ta, tb);
    done := true;
  }

  /** The string in an array is s. */
  ghost predicate Holds(a: array<char8>, s: seq<char8>)
    reads a
  {
    |s| < a.Length && a[..|s|] == s && 0 !in s && a[|s|] == 0
  }

  lemma HeldAt(a: array<char8>, s: seq<char8>, i: nat)
    requires Holds(a, s) && i <= |s|
    ensures i < a.Length && (a[i] == 0 <==> i == |s|)
    ensures i < |s| ==> a[i] == s[i]
  {}

  /** The buffer while the loop of `crypt` runs: the first i bytes of c in front of the old contents. */
  ghost predicate Partly(m: seq<char8>, c: seq<char8>, was: seq<char8>, i: nat) {
    i <= |c| < |was| && m == c[..i] + was[i..]
  }

  /** One turn of the loop: a byte is mixed, and the key pointer starts over at the end of the key. */
  method MixOne(a: array<char8>, b: array<char8>, enc: array<char8>, i: nat, bi: nat,
                ghost ta: seq<char8>, ghost tb: seq<char8>, ghost was: seq<char8>)
    returns (next: nat)
    requires Holds(a, ta) && Holds(b, tb) && enc != a && enc != b && tb != []
    requires i < |ta| && bi == Around(i, |tb|) && Partly(enc[..], Crypted(ta, tb), was, i)
    modifies enc
    ensures next == Around(i + 1, |tb|) && Partly(enc[..], Crypted(ta, tb), was, i + 1)
  {
    hide Crypted, Mixed, Around;
    HeldAt(a, ta, i);
    HeldAt(b, tb, bi);
    HeldAt(b, tb, bi + 1);
    EncipherStep(ta, tb, i);
    PutNext(was, Crypted(ta, tb), i, enc[..]);
    enc[i] := Mixed(a[i], b[bi]);
    next := bi + 1;
    if b[next] == 0 {
      next := 0;
    }
  }

  /** The loop of `crypt`, with a moving pointer into the text and another into the key. */
  method MixAll(a: array<char8>, b: array<char8>, enc: array<char8>, ghost ta: seq<char8>, ghost tb: seq<char8>)
    requires Holds(a, ta) && Holds(b, tb) && enc != a && enc != b && |ta| < enc.Length && tb != []
    modifies enc
    ensures enc[..] == Overwritten(old(enc[..]), Crypted(ta, tb) + [0])
  {
    ghost var was := enc[..];
    var i, bi := 0, 0;
    HeldAt(a, ta, 0);
    hide Crypted, Overwritten, Around, Holds;
    while a[i] != 0
      invariant i <= |ta| && bi == Around(i, |tb|) && Holds(a, ta) && Holds(b, tb)
      invariant i < a.Length && (a[i] == 0 <==> i == |ta|)
      invariant Partly(enc[..], Crypted(ta, tb), was, i)
      decreases |ta| - i
    {
      hide Partly;
      bi := MixOne(a, b, enc, i, bi, ta, tb, was);
      i := i + 1;
      HeldAt(a, ta, i);
    }
    PutLast(was, Crypted(ta, tb), enc[..]);
    enc[i] := 0;
  }

  lemma PutNext(was: seq<char8>, c: seq<char8>, i: nat, m: seq<char8>)
    requires i < |c| <= |was| && m == c[..i] + was[i..]
    ensures m[i := c[i]] == c[..i + 1] + was[i + 1..]
  {}

  lemma PutLast(was: seq<char8>, c: seq<char8>, m: seq<char8>)
    requires |c| < |was| && m == c[..|c|] + was[|c|..]
    ensures m[|c| := 0] == Overwritten(was, c + [0])
  {}

  /** The string in the static buffer is what was enciphered, up to its first NUL. */
  lemma TextWithNul(m: seq<char8>, c: seq<char8>)
    requires |c| < |m|
    ensures var r := Overwritten(m, c + [0]);
            0 in r && Text(r) == Text(c)
  {
    var r, n := Overwritten(m, c + [0]), |Text(c)|;
    assert r[|c|] == 0;
    assert r[..n] == c[..n];
    TextIs(r, n);
  }

  /** The moving key pointer is the position modulo the length of the key. */
  lemma EncipherStep(a: seq<char8>, b: seq<char8>, i: nat)
    requires b != [] && i < |a|
    ensures Crypted(a, b)[i] == Mixed(a[i], b[Around(i, |b|)])
    ensures var k := Around(i, |b|);
            Around(i + 1, |b|) == if k + 1 == |b| then 0 else k + 1
  {
    hide Mixed;
    var n, q := |b|, i / |b|;
    assert i + 1 == q * n + (i % n + 1);
    if i % n + 1 == n {
      assert i + 1 == (q + 1) * n + 0;
      Remainder(i + 1, n, q + 1, 0);
    } else {
      Remainder(i + 1, n, q, i % n + 1);
    }
  }

  lemma Remainder(x: nat, n: nat, q: nat, r: nat)
    requires r < n && x == q * n + r
    ensures x % n == r
  {
    var d, m := x / n, x % n;
    assert x == d * n + m;
    if q > d { AtLeast(q - d, n); } else if d > q { AtLeast(d - q, n); }
  }

  lemma AtLeast(k: nat, n: nat)
    requires k > 0
    ensures k * n >= n
  {}

  /** The buffers of the shell: one is on its stack, the others are static. */
  class Shell {
    const buf: array<char8>
    const passSaver: array<char8>
    const encp: array<char8>
    const enc: array<char8>

    ghost predicate Valid()
      reads this, passSaver
    {
      && buf.Length == LINE && passSaver.Length == encp.Length == BUFFER && enc.Length == BUFFER + 1
      && buf != passSaver && buf != encp && buf != enc && passSaver != encp && passSaver != enc && encp != enc
      && 0 in passSaver[..] && |Text(passSaver[..])| >= LINE
    }

    constructor (saver: array<char8>)
      requires saver.Length == BUFFER && 0 in saver[..] && |Text(saver[..])| >= LINE
      ensures Valid() && passSaver == saver && fresh(buf) && fresh(encp) && fresh(enc)
      ensures forall i :: 0 <= i < BUFFER ==> encp[i] == 0
    {
      buf, passSaver := new char8[LINE], saver;
      encp, enc := new char8[BUFFER](_ => 0), new char8[BUFFER + 1](_ => 0);
    }

    /** `memset` and `tty_read`: the line typed in, in a cleared buffer. */
    method ReadLine(line: seq<char8>)
      requires Valid() && |line| < LINE && 0 !in line
      modifies buf
      ensures 0 in buf[..] && Text(buf[..]) == line && buf[..|line|] == line && buf[|line|] == 0
    {
      for i := 0 to LINE
        invariant forall j :: 0 <= j < i ==> buf[j] == if j < |line| then line[j] else 0
      {
        buf[i] := if i < |line| then line[i] else 0;
      }
      assert buf[|line|] == 0 && buf[..|line|] == line;
      TextIs(buf[..], |line|);
    }

    /** The first half of the command: `crypt(pass_saver, buf)`, `strcpy` and a NUL behind the key. */
    method Remember(first: seq<char8>) returns (done: bool)
      requires Valid() && |first| < LINE && 0 !in first
      modifies buf, encp, enc
      ensures Valid() && passSaver[..] == old(passSaver[..])
      ensures done == (|first| >= 2)
      ensures encp[..] == if done then Stored(Text(passSaver[..]), old(encp[..]), first) else old(encp[..])
    {
      ghost var saver := Text(passSaver[..]);
      TextEnds(passSaver[..]);
      hide Text, Crypted, Overwritten;
      ReadLine(first);
      if buf[0] == 0 {
        return false;
      }
      done := Encipher(passSaver, buf, enc);
      if done {
        TextWithNul(old(enc[..]), Crypted(saver, first));
        Strcpy(encp, enc);
        var n := Strlen(buf);
        encp[n] := 0;
      }
    }

    /** The second half: `crypt(buf, encp)`, `strcpy` and `strcmp`. */
    method Compare(second: seq<char8>) returns (answer: Answer)
      requires Valid() && |second| < LINE && 0 !in second && 0 in encp[..]
      modifies buf, encp, enc
      ensures Valid() && passSaver[..] == old(passSaver[..])
      ensures (answer, encp[..]) == Compared(old(encp[..]), second)
    {
      hide Text, Crypted, Overwritten;
      ReadLine(second);
      if buf[0] == 0 {
        return Aborted;
      }
      var done := Encipher(buf, encp, enc);
      if !done {
        return Aborted;
      }
      TextWithNul(old(enc[..]), Crypted(second, Text(encp[..])));
      Strcpy(encp, enc);
      var d := Strcmp(buf, encp);
      answer := Told(d == 0);
    }

    method Enc(first: seq<char8>, second: seq<char8>) returns (answer: Answer)
      requires Valid() && |first| < LINE && |second| < LINE && 0 !in first && 0 !in second
      modifies buf, encp, enc
      ensures Valid() && passSaver[..] == old(passSaver[..])
      ensures (answer, encp[..]) == EncRun(Text(passSaver[..]), old(encp[..]), first, second)
    {
      TextEnds(passSaver[..]);
      hide Text, Compared;
      var done := Remember(first);
      if !done {
        return Aborted;
      }
      assert encp[|first|] == 0 && encp[|first|] in encp[..];
      hide Stored;
      answer := Compare(second);
    }
  }
}
