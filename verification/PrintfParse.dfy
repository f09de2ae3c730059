/** What a conversion specification means: written out and parsed, it gives back what was written. */
module PrintfParse {
  import opened Words
  import opened Seqs
  import opened Printf
  import opened PrintfLaws

  // ---- Specifications ----

  /** A width or a precision as it is written. */
  datatype Amount = Absent | Number(n: word) | Star

  datatype Length = Plain | Char | Short | Long | LongLong | PtrDiff | IntMax | Size

  /** A conversion specification up to its conversion character. */
  datatype Written = Written(flags: seq<byte>, width: Amount, dot: bool, prec: Amount, length: Length)

  function Decimal(n: word): seq<byte> {
    Reversed(Digits(n, 10, false))
  }

  function AmountText(a: Amount): seq<byte> {
    match a
    case Absent => []
    case Number(n) => Decimal(n)
    case Star => [42]
  }

  function PrecisionText(dot: bool, prec: Amount): seq<byte> {
    if dot then [46] + AmountText(prec) else []
  }

  function LengthText(l: Length): seq<byte> {
    match l
    case Plain => []
    case Char => [104, 104]
    case Short => [104]
    case Long => [108]
    case LongLong => [108, 108]
    case PtrDiff => [116]
    case IntMax => [106]
    case Size => [122]
  }

  function TextOf(t: Written): seq<byte> {
    t.flags + (AmountText(t.width) + (PrecisionText(t.dot, t.prec) + LengthText(t.length)))
  }

  predicate IsLengthLetter(c: byte) {
    c == 104 || c == 108 || c == 116 || c == 106 || c == 122
  }

  /** A character that can end a specification. */
  predicate Ends(c: byte) {
    !IsFlag(c) && !IsDigit(c) && c != 42 && c != 46 && !IsLengthLetter(c)
  }

  /** Its flags are flags, its width does not look like the flag 0, and a precision comes with a dot. */
  predicate WellWritten(t: Written) {
    && (forall i :: 0 <= i < |t.flags| ==> IsFlag(t.flags[i]))
    && (t.width.Number? ==> t.width.n > 0)
    && (!t.dot ==> t.prec.Absent?)
  }

  /** What a width says: a negative argument asks for left justification too. */
  function WidthValue(a: Amount, arg: int): nat {
    match a
    case Absent => 0
    case Number(n) => n
    case Star => if arg < 0 then -arg else arg
  }

  /** What a precision says: a negative argument is none. */
  function PrecisionValue(a: Amount, arg: int): nat {
    match a
    case Absent => 0
    case Number(n) => n
    case Star => if arg > 0 then arg else 0
  }

  /** How many arguments it takes before its own. */
  function Stars(a: Amount): nat {
    if a.Star? then 1 else 0
  }

  /** The meaning of a specification of the given length, read at p with the arguments from a on. */
  function Meaning(t: Written, p: nat, args: seq<Arg>, a: nat): Spec {
    var w := Signed(WordAt(args, a), 32);
    var n := Signed(WordAt(args, a + Stars(t.width)), 32);
    var l := t.length;
    Spec(Flags(zeropad := 48 in t.flags, left := 45 in t.flags || (t.width.Star? && w < 0), plus := 43 in t.flags,
               space := 32 in t.flags, hash := 35 in t.flags, upper := false,
               tiny := l.Char?, short := l.Short? || l.Char?,
               long := l.Long? || l.LongLong? || l.PtrDiff? || l.Size?, longLong := l.LongLong? || l.IntMax?,
               precision := t.dot),
         WidthValue(t.width, w), PrecisionValue(t.prec, n),
         p + |TextOf(t)|, a + Stars(t.width) + Stars(t.prec))
  }

  // ---- The parts ----

  /** The string s stands at p of the format. */
  predicate Holds(fmt: seq<byte>, p: nat, s: seq<byte>) {
    p + |s| <= |fmt| && forall i :: 0 <= i < |s| ==> fmt[p + i] == s[i]
  }

  lemma HoldsSplit(fmt: seq<byte>, p: nat, s: seq<byte>, t: seq<byte>)
    requires Holds(fmt, p, s + t)
    ensures Holds(fmt, p, s) && Holds(fmt, p + |s|, t)
  {
    var all := s + t;
    forall i | 0 <= i < |s| ensures fmt[p + i] == s[i] { assert all[i] == s[i]; }
    forall i | 0 <= i < |t| ensures fmt[p + |s| + i] == t[i] { assert all[|s| + i] == t[i]; }
  }

  lemma HoldsAt(fmt: seq<byte>, p: nat, s: seq<byte>)
    requires Holds(fmt, p, s) && s != []
    ensures p < |fmt| && At(fmt, p) == s[0] && Holds(fmt, p + 1, s[1..])
  {
    assert fmt[p + 0] == s[0];
    forall i | 0 <= i < |s[1..]| ensures fmt[p + 1 + i] == s[1..][i] { assert s[1..][i] == s[i + 1]; }
  }

  /** The flags f with those of a string. */
  function WithAll(f: Flags, s: seq<byte>): Flags {
    f.(zeropad := f.zeropad || 48 in s, left := f.left || 45 in s, plus := f.plus || 43 in s,
       space := f.space || 32 in s, hash := f.hash || 35 in s)
  }

  lemma WithNone(f: Flags)
    ensures WithAll(f, []) == f
  {}

  lemma AtIs(fmt: seq<byte>, p: nat)
    ensures p < |fmt| ==> At(fmt, p) == fmt[p]
  {}

  lemma WithAllCons(f: Flags, c: byte, s: seq<byte>)
    ensures WithAll(WithFlag(f, c), s) == WithAll(f, [c] + s)
  {
    InCons(48, c, s);
    InCons(45, c, s);
    InCons(43, c, s);
    InCons(32, c, s);
    InCons(35, c, s);
  }

  lemma InCons(x: byte, c: byte, s: seq<byte>)
    ensures x in [c] + s <==> x == c || x in s
  {}

  lemma {:induction false} FlagsParsed(fmt: seq<byte>, p: nat, f: Flags, s: seq<byte>)
    requires Holds(fmt, p, s) && (forall i :: 0 <= i < |s| ==> IsFlag(s[i])) && !IsFlag(At(fmt, p + |s|))
    ensures ParseFlags(fmt, p, f) == (WithAll(f, s), p + |s|)
    decreases |s|
  {
    hide Holds, WithAll, WithFlag, IsFlag, At;
    if s == [] {
      WithNone(f);
      AtIs(fmt, p);
    } else {
      HoldsAt(fmt, p, s);
      AtIs(fmt, p);
      FlagsParsed(fmt, p + 1, WithFlag(f, s[0]), s[1..]);
      assert s == [s[0]] + s[1..];
      WithAllCons(f, s[0], s[1..]);
    }
  }

  predicate AllDigits(s: seq<byte>) {
    forall i :: 0 <= i < |s| ==> IsDigit(s[i])
  }

  /** `_atoi` reads a run of digits as a decimal number modulo 2^32. */
  lemma {:induction false} NumberParsed(fmt: seq<byte>, p: nat, done: seq<byte>, s: seq<byte>)
    requires Holds(fmt, p, s) && AllDigits(s) && !IsDigit(At(fmt, p + |s|))
    ensures ParseNumber(fmt, p, Wrap(Decoded(done, 10))) == (Wrap(Decoded(done + s, 10)), p + |s|)
    decreases |s|
  {
    if s == [] {
      assert done + s == done;
    } else {
      HoldsAt(fmt, p, s);
      assert IsDigit(s[0]);
      var more := done + [s[0]];
      NumberParsed(fmt, p + 1, more, s[1..]);
      assert more + s[1..] == done + s;
      LastDigit(done, s[0], 10);
      WrapTen(Decoded(done, 10), s[0] - 48);
      hide Decoded, Wrap;
    }
  }

  lemma WrapTen(x: nat, d: nat)
    ensures Wrap(Wrap(x) * 10 + d) == Wrap(10 * x + d)
  {
    assert x == (x / TWO_32) * TWO_32 + x % TWO_32;
    assert 10 * x + d == Wrap(x) * 10 + d + (10 * (x / TWO_32)) * TWO_32;
  }

  lemma DecimalIs(n: word)
    ensures var s := Decimal(n);
            s != [] && AllDigits(s) && Decoded(s, 10) == n && (n > 0 ==> s[0] != 48)
  {
    NumeralOfDigits(n, 10, false);
    hide Digits, Numeral, Decoded;
    NumeralIs(Decimal(n), n);
  }

  lemma NumeralIs(s: seq<byte>, n: nat)
    requires Numeral(s, n, 10, false)
    ensures s != [] && AllDigits(s) && Decoded(s, 10) == n && (n > 0 ==> s[0] != 48)
  {
    hide Decoded;
    forall i | 0 <= i < |s| ensures IsDigit(s[i]) {
      assert IsDigitOf(s[i], 10, false);
    }
    if |s| == 1 && s[0] == 48 {
      SingleZero(s);
    }
  }

  lemma SingleZero(s: seq<byte>)
    requires s == [48]
    ensures Decoded(s, 10) == 0
  {
    assert s[..0] == [];
  }

  /** A decimal number parses back. */
  lemma DecimalParsed(fmt: seq<byte>, p: nat, n: word)
    requires Holds(fmt, p, Decimal(n)) && !IsDigit(At(fmt, p + |Decimal(n)|))
    ensures ParseNumber(fmt, p, 0) == (n, p + |Decimal(n)|) && IsDigit(At(fmt, p))
  {
    DecimalIs(n);
    HoldsAt(fmt, p, Decimal(n));
    assert [] + Decimal(n) == Decimal(n);
    NumberParsed(fmt, p, [], Decimal(n));
    WrapWord(n);
    WrapWord(0);
    hide Decimal, ParseNumber;
  }

  lemma WidthParsed(fmt: seq<byte>, args: seq<Arg>, s: Spec, width: Amount)
    requires Holds(fmt, s.p, AmountText(width)) && s.width == 0
    requires var c := At(fmt, s.p + |AmountText(width)|); !IsDigit(c) && c != 42
    ensures var w := Signed(WordAt(args, s.a), 32);
            ParseWidth(fmt, args, s)
              == s.(width := WidthValue(width, w), p := s.p + |AmountText(width)|, a := s.a + Stars(width),
                    flags := s.flags.(left := s.flags.left || (width.Star? && w < 0)))
  {
    match width
    case Absent =>
    case Number(n) => DecimalParsed(fmt, s.p, n);
    case Star => HoldsAt(fmt, s.p, [42]);
  }

  lemma PrecisionParsed(fmt: seq<byte>, args: seq<Arg>, s: Spec, dot: bool, prec: Amount)
    requires Holds(fmt, s.p, PrecisionText(dot, prec)) && s.prec == 0 && !s.flags.precision && (!dot ==> prec.Absent?)
    requires var c := At(fmt, s.p + |PrecisionText(dot, prec)|); !IsDigit(c) && c != 42 && c != 46
    ensures var n := Signed(WordAt(args, s.a), 32);
            ParsePrecision(fmt, args, s)
              == s.(prec := PrecisionValue(prec, n), p := s.p + |PrecisionText(dot, prec)|, a := s.a + Stars(prec),
                    flags := s.flags.(precision := dot))
  {
    if dot {
      HoldsAt(fmt, s.p, PrecisionText(dot, prec));
      DotText(prec);
      assert s.p + |PrecisionText(dot, prec)| == s.p + 1 + |AmountText(prec)|;
      hide Holds, PrecisionText, ParsePrecision, AmountText, Signed, WordAt, IsDigit, At;
      DotAmount(fmt, args, s, prec);
    } else {
      SameSpec(s);
      hide Signed, WordAt, IsDigit, Holds;
    }
  }

  lemma SameSpec(s: Spec)
    ensures s.(prec := s.prec, p := s.p + 0, a := s.a + 0, flags := s.flags.(precision := s.flags.precision)) == s
  {}

  lemma DotText(prec: Amount)
    ensures var s := PrecisionText(true, prec);
            s != [] && s[0] == 46 && s[1..] == AmountText(prec) && |s| == 1 + |AmountText(prec)|
  {
    hide AmountText;
  }

  lemma DotAmount(fmt: seq<byte>, args: seq<Arg>, s: Spec, prec: Amount)
    requires At(fmt, s.p) == 46 && Holds(fmt, s.p + 1, AmountText(prec)) && s.prec == 0
    requires var c := At(fmt, s.p + 1 + |AmountText(prec)|); !IsDigit(c) && c != 42
    ensures var n := Signed(WordAt(args, s.a), 32);
            ParsePrecision(fmt, args, s)
              == s.(prec := PrecisionValue(prec, n), p := s.p + 1 + |AmountText(prec)|, a := s.a + Stars(prec),
                    flags := s.flags.(precision := true))
  {
    hide ParsePrecision, Signed, WordAt, IsDigit, At, ParseNumber;
    match prec
    case Absent => DotAlone(fmt, args, s);
    case Number(n) =>
      DecimalParsed(fmt, s.p + 1, n);
      DotNumber(fmt, args, s, n, s.p + 1 + |Decimal(n)|);
    case Star =>
      HoldsAt(fmt, s.p + 1, [42]);
      DotStar(fmt, args, s);
  }

  lemma DotAlone(fmt: seq<byte>, args: seq<Arg>, s: Spec)
    requires At(fmt, s.p) == 46 && !IsDigit(At(fmt, s.p + 1)) && At(fmt, s.p + 1) != 42
    ensures ParsePrecision(fmt, args, s) == s.(p := s.p + 1, flags := s.flags.(precision := true))
  {
    hide At, IsDigit;
  }

  lemma DotNumber(fmt: seq<byte>, args: seq<Arg>, s: Spec, n: word, q: nat)
    requires At(fmt, s.p) == 46 && IsDigit(At(fmt, s.p + 1)) && ParseNumber(fmt, s.p + 1, 0) == (n, q)
    ensures ParsePrecision(fmt, args, s) == s.(prec := n, p := q, flags := s.flags.(precision := true))
  {
    hide At, IsDigit, ParseNumber;
  }

  lemma DotStar(fmt: seq<byte>, args: seq<Arg>, s: Spec)
    requires At(fmt, s.p) == 46 && At(fmt, s.p + 1) == 42
    ensures var n := Signed(WordAt(args, s.a), 32);
            ParsePrecision(fmt, args, s)
              == s.(prec := if n > 0 then n else 0, p := s.p + 2, a := s.a + 1, flags := s.flags.(precision := true))
  {
    hide At, Signed, WordAt;
  }

  lemma LengthParsed(fmt: seq<byte>, s: Spec, l: Length)
    requires Holds(fmt, s.p, LengthText(l)) && !IsLengthLetter(At(fmt, s.p + |LengthText(l)|))
    requires !s.flags.tiny && !s.flags.short && !s.flags.long && !s.flags.longLong
    ensures ParseLength(fmt, s)
         == s.(p := s.p + |LengthText(l)|,
               flags := s.flags.(tiny := l.Char?, short := l.Short? || l.Char?,
                                 long := l.Long? || l.LongLong? || l.PtrDiff? || l.Size?,
                                 longLong := l.LongLong? || l.IntMax?))
  {
    var t := LengthText(l);
    if t != [] {
      HoldsAt(fmt, s.p, t);
      if |t| == 2 { HoldsAt(fmt, s.p + 1, t[1..]); }
    }
  }

  // ---- The whole ----

  /** Writing a specification and parsing it gives back exactly its meaning: the flags by membership,
      the width and the precision as numbers or from the arguments, the length; and parsing stops at
      the conversion character. */
  lemma ParsesBack(fmt: seq<byte>, p: nat, t: Written, c: byte, args: seq<Arg>, a: nat)
    requires p <= |fmt| && WellWritten(t) && Ends(c) && Holds(fmt, p, TextOf(t) + [c])
    ensures Parse(fmt, p, args, a) == Meaning(t, p, args, a) && At(fmt, p + |TextOf(t)|) == c
  {
    hide ParseFlags, ParseWidth, ParsePrecision, ParseLength, AmountText, PrecisionText, LengthText, Signed;
    hide Holds, At, WithAll, Meaning, WidthValue, PrecisionValue, Stars, IsFlag, IsDigit, IsLengthLetter, Ends, WordAt;
    Placed(fmt, p, t, c);
    var q := p + |t.flags|;
    FlagsParsed(fmt, p, NO_FLAGS, t.flags);
    var s0 := Spec(WithAll(NO_FLAGS, t.flags), 0, 0, q, a);
    WidthParsed(fmt, args, s0, t.width);
    var s1 := ParseWidth(fmt, args, s0);
    NoLength(t.flags);
    PrecisionParsed(fmt, args, s1, t.dot, t.prec);
    var s2 := ParsePrecision(fmt, args, s1);
    LengthParsed(fmt, s2, t.length);
    Combined(t, p, args, a, s0, s1, s2, ParseLength(fmt, s2));
  }

  lemma NoLength(flags: seq<byte>)
    ensures var f := WithAll(NO_FLAGS, flags);
            !f.precision && !f.tiny && !f.short && !f.long && !f.longLong && !f.upper
  {}

  /** Where the parts stand, and what stands behind each of them. */
  lemma Placed(fmt: seq<byte>, p: nat, t: Written, c: byte)
    requires WellWritten(t) && Ends(c) && Holds(fmt, p, TextOf(t) + [c])
    ensures var w, n, l := AmountText(t.width), PrecisionText(t.dot, t.prec), LengthText(t.length);
            var q0 := p + |t.flags|; var q1 := q0 + |w|; var q2 := q1 + |n|; var q3 := q2 + |l|;
            && Holds(fmt, p, t.flags) && Holds(fmt, q0, w) && Holds(fmt, q1, n) && Holds(fmt, q2, l)
            && q3 == p + |TextOf(t)| && At(fmt, q3) == c && !IsLengthLetter(At(fmt, q3))
            && !IsFlag(At(fmt, q0))
            && !IsDigit(At(fmt, q1)) && At(fmt, q1) != 42
            && !IsDigit(At(fmt, q2)) && At(fmt, q2) != 42 && At(fmt, q2) != 46
  {
    var w, n, l := AmountText(t.width), PrecisionText(t.dot, t.prec), LengthText(t.length);
    Starts(t, c);
    assert c == (l + [c])[|l|] && !IsLengthLetter(c);
    hide AmountText, PrecisionText, LengthText, IsFlag, IsDigit, Holds, At, Ends, WellWritten;
    Regrouped(t.flags, w, n, l, [c]);
    assert TextOf(t) == t.flags + (w + (n + l));
    hide TextOf;
    PlacedParts(fmt, p, t.flags, w, n, l, c);
  }

  lemma Regrouped(f: seq<byte>, w: seq<byte>, n: seq<byte>, l: seq<byte>, c: seq<byte>)
    ensures f + (w + (n + l)) + c == f + (w + (n + (l + c)))
    ensures |f + (w + (n + l))| == |f| + |w| + |n| + |l|
  {}

  lemma PlacedParts(fmt: seq<byte>, p: nat, f: seq<byte>, w: seq<byte>, n: seq<byte>, l: seq<byte>, c: byte)
    requires Holds(fmt, p, f + (w + (n + (l + [c]))))
    ensures var q0 := p + |f|; var q1 := q0 + |w|; var q2 := q1 + |n|; var q3 := q2 + |l|;
            && Holds(fmt, p, f) && Holds(fmt, q0, w) && Holds(fmt, q1, n) && Holds(fmt, q2, l)
            && At(fmt, q0) == (w + (n + (l + [c])))[0] && At(fmt, q1) == (n + (l + [c]))[0]
            && At(fmt, q2) == (l + [c])[0] && At(fmt, q3) == c
  {
    hide Holds, At;
    var t3 := l + [c];
    var t2 := n + t3;
    var t1 := w + t2;
    HoldsSplit(fmt, p, f, t1);
    HoldsSplit(fmt, p + |f|, w, t2);
    HoldsSplit(fmt, p + |f| + |w|, n, t3);
    HoldsSplit(fmt, p + |f| + |w| + |n|, l, [c]);
    HoldsAt(fmt, p + |f| + |w| + |n| + |l|, [c]);
    HoldsAt(fmt, p + |f| + |w| + |n|, t3);
    HoldsAt(fmt, p + |f| + |w|, t2);
    HoldsAt(fmt, p + |f|, t1);
  }

  lemma Combined(t: Written, p: nat, args: seq<Arg>, a: nat, s0: Spec, s1: Spec, s2: Spec, s3: Spec)
    requires s0 == Spec(WithAll(NO_FLAGS, t.flags), 0, 0, p + |t.flags|, a)
    requires var w := Signed(WordAt(args, s0.a), 32);
             s1 == s0.(width := WidthValue(t.width, w), p := s0.p + |AmountText(t.width)|, a := s0.a + Stars(t.width),
                       flags := s0.flags.(left := s0.flags.left || (t.width.Star? && w < 0)))
    requires var n := Signed(WordAt(args, s1.a), 32);
             s2 == s1.(prec := PrecisionValue(t.prec, n), p := s1.p + |PrecisionText(t.dot, t.prec)|,
                       a := s1.a + Stars(t.prec), flags := s1.flags.(precision := t.dot))
    requires var l := t.length;
             s3 == s2.(p := s2.p + |LengthText(l)|,
                       flags := s2.flags.(tiny := l.Char?, short := l.Short? || l.Char?,
                                          long := l.Long? || l.LongLong? || l.PtrDiff? || l.Size?,
                                          longLong := l.LongLong? || l.IntMax?))
    ensures s3 == Meaning(t, p, args, a)
  {
    hide AmountText, PrecisionText, LengthText, Signed, WidthValue, PrecisionValue, Stars;
  }

  /** What the parts begin with does not continue the part before. */
  lemma Starts(t: Written, c: byte)
    requires WellWritten(t) && Ends(c)
    ensures var w, n, l := AmountText(t.width), PrecisionText(t.dot, t.prec), LengthText(t.length);
            && (var x := (l + [c])[0]; !IsFlag(x) && !IsDigit(x) && x != 42 && x != 46)
            && (var x := (n + (l + [c]))[0]; !IsFlag(x) && !IsDigit(x) && x != 42)
            && (var x := (w + (n + (l + [c])))[0]; !IsFlag(x))
  {
    if t.width.Number? { DecimalIs(t.width.n); }
    hide Decimal;
  }
}
