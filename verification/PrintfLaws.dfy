/** The layout of printed numbers, and reading them back. */
module PrintfLaws {
  import opened Words
  import opened Seqs
  import opened Printf

  // ---- Decoding ----

  /** The value of a digit; 0 for any other character. */
  function DigitValue(c: byte): (d: nat)
    ensures d < 16
  {
    if 48 <= c <= 57 then c - 48
    else if 65 <= c <= 70 then c - 55
    else if 97 <= c <= 102 then c - 87
    else 0
  }

  /** The number a string of digits stands for, most significant first. */
  function Decoded(s: seq<byte>, base: nat): nat {
    if s == [] then 0 else base * Decoded(s[..|s| - 1], base) + DigitValue(s[|s| - 1])
  }

  lemma {:induction false} DigitsDecode(v: nat, base: nat, upper: bool)
    requires 2 <= base <= 16
    ensures Decoded(Reversed(Digits(v, base, upper)), base) == v
    decreases v
  {
    var d, q := DigitsUnfold(v, base, upper);
    var c := Digit(d, upper);
    assert DigitValue(c) == d;
    hide Digits, DigitValue, Digit;
    var rest := if q == 0 then [] else Digits(q, base, upper);
    if q != 0 { DigitsDecode(q, base, upper); }
    assert Decoded(Reversed(rest), base) == q;
    hide Decoded, Reversed;
    ReversedCons(c, rest);
    LastDigit(Reversed(rest), c, base);
  }

  /** The last digit and the number the other digits stand for. */
  lemma DigitsUnfold(v: nat, base: nat, upper: bool) returns (d: nat, q: nat)
    requires 2 <= base <= 16
    ensures d < base && v == base * q + d && (q == 0 ==> d == v) && (q != 0 ==> q < v)
    ensures Digits(v, base, upper) == [Digit(d, upper)] + if q == 0 then [] else Digits(q, base, upper)
  {
    d, q := v % base, v / base;
    Quotient(v, base);
    hide Digit;
  }

  lemma Quotient(v: nat, base: nat)
    requires base >= 2
    ensures v == base * (v / base) + v % base
    ensures v / base != 0 ==> v / base < v
  {
    assert base * (v / base) >= 2 * (v / base) by { TimesLeft(2, base, v / base); }
  }

  lemma TimesLeft(a: nat, b: nat, x: nat)
    requires a <= b
    ensures a * x <= b * x
  {}

  lemma ReversedCons(c: byte, s: seq<byte>)
    ensures Reversed([c] + s) == Reversed(s) + [c]
  {}

  lemma LastDigit(s: seq<byte>, c: byte, base: nat)
    ensures Decoded(s + [c], base) == base * Decoded(s, base) + DigitValue(c)
  {
    assert (s + [c])[..|s|] == s;
  }

  /** A leading character of value 0 adds nothing. */
  lemma {:induction false} LeadingZero(c: byte, s: seq<byte>, base: nat)
    requires DigitValue(c) == 0
    ensures Decoded([c] + s, base) == Decoded(s, base)
    decreases |s|
  {
    var t := [c] + s;
    if s == [] {
      assert t[..|t| - 1] == [];
    } else {
      assert t[..|t| - 1] == [c] + s[..|s| - 1];
      LeadingZero(c, s[..|s| - 1], base);
    }
  }

  lemma {:induction false} LeadingZeros(c: byte, n: nat, s: seq<byte>, base: nat)
    requires DigitValue(c) == 0
    ensures Decoded(Repeat(c, n) + s, base) == Decoded(s, base)
    decreases n
  {
    if n == 0 {
      assert Repeat(c, 0) + s == s;
    } else {
      LeadingZeros(c, n - 1, s, base);
      assert Repeat(c, n) + s == [c] + (Repeat(c, n - 1) + s);
      LeadingZero(c, Repeat(c, n - 1) + s, base);
    }
  }

  // ---- The conversion buffer ----

  lemma ReversedConcat(a: seq<byte>, b: seq<byte>)
    ensures Reversed(a + b) == Reversed(b) + Reversed(a)
  {}

  lemma ReversedRepeat(c: byte, n: nat)
    ensures Reversed(Repeat(c, n)) == Repeat(c, n)
  {}

  lemma ReversedSign(negative: bool, f: Flags)
    ensures Reversed(SignOf(negative, f)) == SignOf(negative, f)
  {
    ReversedRepeat(0, 0);
  }

  function Max(a: nat, b: nat): nat {
    if a > b then a else b
  }

  lemma ZeroPaddedIs(buf: seq<byte>, prec: nat, w: nat, f: Flags)
    requires !f.left && |buf| <= 32
    ensures var goal := if f.zeropad then Max(prec, w) else prec;
            var full := if goal < 32 then goal else 32;
            ZeroPadded(buf, prec, w, f) == buf + Repeat(48, Max(full, |buf|) - |buf|)
  {
    if f.zeropad && w > prec {
      var b := ZerosTo(buf, prec);
      assert b == buf + Repeat(48, |b| - |buf|);
    }
  }

  /** How much of the buffer n digits and zeros up to a goal take: never more than its 32 places. */
  function Filled(n: nat, goal: nat): nat {
    Max(if goal < 32 then goal else 32, n)
  }

  /** What zeros fill up to. */
  function Goal(prec: nat, w: nat, f: Flags): nat {
    if f.zeropad then Max(prec, w) else prec
  }

  /** The sign finds room only in a buffer that is not full. */
  function Shown(sign: seq<byte>, full: nat): seq<byte> {
    if full < 32 then sign else []
  }

  /** The conversion buffer without '#': digits, zeros, and the sign if there is room. */
  lemma FinishedIs(buf: seq<byte>, negative: bool, base: nat, prec: nat, width: nat, f: Flags)
    requires !f.left && !f.hash && |buf| <= 32
    ensures var full := Filled(|buf|, Goal(prec, PadWidth(negative, width, f), f));
            Finished(buf, negative, base, prec, width, f)
              == buf + Repeat(48, full - |buf|) + Shown(SignOf(negative, f), full)
  {
    hide SignOf;
    var w := PadWidth(negative, width, f);
    ZeroPaddedIs(buf, prec, w, f);
    hide ZeroPadded, PadWidth;
    var h := ZeroPadded(buf, prec, w, f);
    assert h + [] == h;
  }

  /** The conversion buffer backwards, without '#'. */
  lemma FinishedReversed(buf: seq<byte>, negative: bool, base: nat, prec: nat, width: nat, f: Flags)
    requires !f.left && !f.hash && |buf| <= 32
    ensures var full := Filled(|buf|, Goal(prec, PadWidth(negative, width, f), f));
            var sign := Shown(SignOf(negative, f), full);
            && |Finished(buf, negative, base, prec, width, f)| == full + |sign|
            && Reversed(Finished(buf, negative, base, prec, width, f))
                 == sign + (Repeat(48, full - |buf|) + Reversed(buf))
  {
    hide Finished, Goal, PadWidth, Reversed, SignOf, Repeat;
    FinishedIs(buf, negative, base, prec, width, f);
    var full := Filled(|buf|, Goal(prec, PadWidth(negative, width, f), f));
    var z, sign := Repeat(48, full - |buf|), Shown(SignOf(negative, f), full);
    ReversedConcat(buf + z, sign);
    ReversedConcat(buf, z);
    ReversedRepeat(48, |z|);
    ReversedSign(negative, f);
    ReversedNothing();
  }

  lemma ReversedNothing()
    ensures Reversed<byte>([]) == []
  {}

  lemma TenDigits(v: word, f: Flags)
    ensures |BareDigits(v, 10, f)| <= 10
  {
    PowerValues();
    DigitsFit(v, 10, f.upper, 10);
  }

  // ---- Numerals ----

  predicate IsDigitOf(c: byte, base: nat, upper: bool) {
    DigitValue(c) < base && c == Digit(DigitValue(c), upper)
  }

  /** The digits are those of v in the base, without leading zeros. */
  predicate Numeral(digits: seq<byte>, v: nat, base: nat, upper: bool) {
    && digits != []
    && (forall i :: 0 <= i < |digits| ==> IsDigitOf(digits[i], base, upper))
    && (|digits| > 1 ==> digits[0] != 48)
    && Decoded(digits, base) == v
  }

  lemma {:induction false} DigitsAreNumeral(v: nat, base: nat, upper: bool)
    requires 2 <= base <= 16
    ensures var s := Digits(v, base, upper);
            && (forall i :: 0 <= i < |s| ==> IsDigitOf(s[i], base, upper))
            && (v != 0 || |s| > 1 ==> s[|s| - 1] != 48)
    decreases v
  {
    var d, q := DigitsUnfold(v, base, upper);
    assert IsDigitOf(Digit(d, upper), base, upper) && (Digit(d, upper) == 48 <==> d == 0);
    hide Digits, IsDigitOf, Digit;
    if q != 0 { DigitsAreNumeral(q, base, upper); }
  }

  /** Only one numeral stands for a number. */
  lemma {:induction false} NumeralUnique(a: seq<byte>, b: seq<byte>, v: nat, base: nat, upper: bool)
    requires 2 <= base <= 16 && Numeral(a, v, base, upper) && Numeral(b, v, base, upper)
    ensures a == b
    decreases |a|
  {
    NumeralSplit(a, v, base, upper);
    NumeralSplit(b, v, base, upper);
    hide Numeral, Decoded, IsDigitOf, Digit, DigitValue;
    if v / base != 0 {
      NumeralUnique(a[..|a| - 1], b[..|b| - 1], v / base, base, upper);
    }
  }

  /** The last digit of a numeral, and the numeral in front of it. */
  lemma NumeralSplit(a: seq<byte>, v: nat, base: nat, upper: bool)
    requires 2 <= base <= 16 && Numeral(a, v, base, upper)
    ensures 0 <= v % base < base && 0 <= v / base && a[|a| - 1] == Digit(v % base, upper)
    ensures if v / base == 0 then a == [a[|a| - 1]]
            else |a| > 1 && a == a[..|a| - 1] + [a[|a| - 1]] && Numeral(a[..|a| - 1], v / base, base, upper)
  {
    var init, last := a[..|a| - 1], DigitValue(a[|a| - 1]);
    assert IsDigitOf(a[|a| - 1], base, upper);
    assert v == base * Decoded(init, base) + last;
    DivMod(v, base, Decoded(init, base), last);
    if |a| > 1 {
      assert init[0] == a[0] != 48;
      assert IsDigitOf(init[0], base, upper);
      LeadNonzero(init, base);
    } else {
      assert init == [];
    }
  }

  lemma DivMod(v: nat, base: nat, q: nat, d: nat)
    requires base >= 2 && d < base && v == base * q + d
    ensures v / base == q && v % base == d
  {
    var x, y := v / base, v % base;
    assert base * x + y == base * q + d;
    if x < q { TimesLeft(1, q - x, base); } else if q < x { TimesLeft(1, x - q, base); }
  }

  /** A number with a leading digit other than zero is not zero. */
  lemma {:induction false} LeadNonzero(s: seq<byte>, base: nat)
    requires base >= 2 && s != [] && DigitValue(s[0]) != 0
    ensures Decoded(s, base) > 0
    decreases |s|
  {
    if |s| > 1 {
      LeadNonzero(s[..|s| - 1], base);
      TimesLeft(1, base, Decoded(s[..|s| - 1], base));
    }
  }

  lemma NumeralOfDigits(v: nat, base: nat, upper: bool)
    requires 2 <= base <= 16
    ensures Numeral(Reversed(Digits(v, base, upper)), v, base, upper)
  {
    DigitsAreNumeral(v, base, upper);
    DigitsDecode(v, base, upper);
    hide Digits, Decoded, Reversed;
    var s := Digits(v, base, upper);
    assert Reversed(s)[0] == s[|s| - 1];
  }

  lemma BareNumeral(v: word, base: nat, f: Flags)
    requires 2 <= base <= 16
    ensures var digits := Reversed(BareDigits(v, base, f));
            if f.precision && v == 0 then digits == [] else Numeral(digits, v, base, f.upper)
  {
    NumeralOfDigits(v, base, f.upper);
    hide Digits, Numeral;
  }

  lemma BareDecode(v: word, base: nat, f: Flags)
    requires 2 <= base <= 16
    ensures Decoded(Reversed(BareDigits(v, base, f)), base) == v
    ensures Reversed(BareDigits(v, base, f)) == [] <==> v == 0 && f.precision
  {
    hide Power;
    DigitsDecode(v, base, f.upper);
  }

  // ---- Reading hexadecimal ----

  /** `__read_hex`: every character shifts the accumulator by four bits, digit or not. */
  function ReadHex(s: seq<byte>): word {
    if s == [] then 0 else Wrap(ReadHex(s[..|s| - 1]) * 16 + DigitValue(s[|s| - 1]))
  }

  lemma {:induction false} ReadHexDecodes(s: seq<byte>)
    ensures ReadHex(s) == Wrap(Decoded(s, 16))
    decreases |s|
  {
    if s != [] {
      ReadHexDecodes(s[..|s| - 1]);
      WrapShift(Decoded(s[..|s| - 1], 16), DigitValue(s[|s| - 1]));
    }
  }

  lemma WrapShift(x: nat, d: nat)
    ensures Wrap(Wrap(x) * 16 + d) == Wrap(16 * x + d)
  {
    assert x == (x / TWO_32) * TWO_32 + x % TWO_32;
    assert 16 * x + d == Wrap(x) * 16 + d + (16 * (x / TWO_32)) * TWO_32;
  }

  /** Leading zeros, and leading spaces, never change what is read. */
  lemma LeadingZerosIgnored(n: nat, m: nat, s: seq<byte>)
    ensures ReadHex(Repeat(32, n) + (Repeat(48, m) + s)) == ReadHex(s)
  {
    ReadHexDecodes(s);
    ReadHexDecodes(Repeat(32, n) + (Repeat(48, m) + s));
    LeadingZeros(32, n, Repeat(48, m) + s, 16);
    LeadingZeros(48, m, s, 16);
  }

  /** Print and parse: whatever the width and the precision, hexadecimal text that is neither
      left-justified nor prefixed reads back as the number, but for a zero printed as nothing. */
  lemma HexRoundTrip(v: word, prec: nat, width: nat, f: Flags)
    requires !f.left && !f.hash && !f.plus && !f.space
    ensures ReadHex(NumberText(v, false, 16, prec, width, f)) == v
  {
    assert f.(hash := false) == f && SignOf(false, f) == [] && PadWidth(false, width, f) == width;
    hide *;
    var buf := BareDigits(v, 16, f);
    BareDecode(v, 16, f);
    var sp, z := HexText(v, prec, width, f);
    LeadingZerosIgnored(sp, z, Reversed(buf));
    ReadHexDecodes(Reversed(buf));
    WrapWord(v);
  }

  lemma WrapWord(v: word)
    ensures Wrap(v) == v
  {}

  lemma HexText(v: word, prec: nat, width: nat, f: Flags) returns (sp: nat, z: nat)
    requires !f.left && f.(hash := false) == f && SignOf(false, f) == [] && PadWidth(false, width, f) == width
    ensures NumberText(v, false, 16, prec, width, f)
         == Repeat(32, sp) + (Repeat(48, z) + Reversed(BareDigits(v, 16, f)))
  {
    hide Finished, Reversed, BareDigits, SignOf, PadWidth;
    var buf := BareDigits(v, 16, f);
    FinishedReversed(buf, false, 16, prec, width, f);
    var b := Finished(buf, false, 16, prec, width, f);
    sp := if f.zeropad then 0 else |Spaces(|b|, width)|;
    z := |b| - |buf|;
    assert [] + (Repeat(48, z) + Reversed(buf)) == Repeat(48, z) + Reversed(buf);
  }

  const REGISTER_FORMAT: seq<byte> := [37, 48, 49, 54, 88]  // "%016X"
  const WORD_FORMAT: seq<byte> := [37, 48, 56, 88]  // "%08X"

  /** The debugger reads back what the register dump and the peek command print. */
  lemma DumpReadsBack(v: word)
    ensures ReadHex(Formatted(REGISTER_FORMAT, 0, [Word(v)], 0)) == v
    ensures ReadHex(Formatted(WORD_FORMAT, 0, [Word(v)], 0)) == v
  {
    var f := NO_FLAGS.(zeropad := true);
    RegisterText(v, f);
    WordText(v, f);
    hide Formatted, NumberText, ReadHex;
    HexRoundTrip(v, 0, 16, IntegerFlags(88, f));
    HexRoundTrip(v, 0, 8, IntegerFlags(88, f));
  }

  lemma RegisterText(v: word, f: Flags)
    requires f == NO_FLAGS.(zeropad := true)
    ensures Formatted(REGISTER_FORMAT, 0, [Word(v)], 0) == IntegerText(88, Spec(f, 16, 0, 4, 0), v)
  {
    assert ParseFlags(REGISTER_FORMAT, 1, NO_FLAGS) == (f, 2);
    assert ParseNumber(REGISTER_FORMAT, 2, 0) == (16, 4);
    assert Parse(REGISTER_FORMAT, 1, [Word(v)], 0) == Spec(f, 16, 0, 4, 0);
    hide Parse, IntegerText;
  }

  lemma WordText(v: word, f: Flags)
    requires f == NO_FLAGS.(zeropad := true)
    ensures Formatted(WORD_FORMAT, 0, [Word(v)], 0) == IntegerText(88, Spec(f, 8, 0, 3, 0), v)
  {
    assert ParseFlags(WORD_FORMAT, 1, NO_FLAGS) == (f, 2);
    assert ParseNumber(WORD_FORMAT, 2, 0) == (8, 3);
    assert Parse(WORD_FORMAT, 1, [Word(v)], 0) == Spec(f, 8, 0, 3, 0);
    hide Parse, IntegerText;
  }
}
