/** The '#' flag of hexadecimal and octal conversions: where it follows section 7.21.6.1 of ISO C11. */
module PrintfHash {
  import opened Words
  import opened Seqs
  import opened Printf
  import opened PrintfLaws
  import opened PrintfLayout

  // ---- Without a precision ----

  /** The prefix of a hexadecimal or octal number. */
  function PrefixOf(base: nat, upper: bool): seq<byte> {
    if base == 16 then [48, if upper then 88 else 120] else [48]
  }

  /** Section 7.21.6.1 of ISO C11 with the '#' flag, without a precision: the prefix in front of the
      digits, and the padding in front of it, or behind it when it is zeros. */
  function HashLayout(prefix: seq<byte>, digits: seq<byte>, width: nat, zeropad: bool): seq<byte> {
    var pad := Max(width, |prefix| + |digits|) - |prefix| - |digits|;
    if zeropad then prefix + (Repeat(48, pad) + digits) else Repeat(32, pad) + (prefix + digits)
  }

  /** Where the code follows it: the digits, or the digits with their zeros, must not end exactly where
      the field does, unless zeros are there to give way; and zeros must not fill the buffer. */
  predicate HashFits(prefix: seq<byte>, n: nat, width: nat, zeropad: bool) {
    if zeropad then n > width || n + |prefix| <= width <= 32 else n != width
  }

  /** What is left of digits and zeros when the field is full: room is made by dropping what was put
      last, be it zeros or digits. */
  function Dropped(h: seq<byte>, base: nat, width: nat): seq<byte> {
    if |h| != width || h == [] then h else if |h| > 1 && base == 16 then h[..|h| - 2] else h[..|h| - 1]
  }

  lemma HashFinished(buf: seq<byte>, base: nat, width: nat, f: Flags)
    requires base == 16 || base == 8
    requires f.hash && !f.left && !f.precision && SignOf(false, f) == [] && 1 <= |buf| <= 11
    ensures var m := if f.zeropad then Filled(|buf|, width) else |buf|;
            var h := buf + Repeat(48, m - |buf|);
            Finished(buf, false, base, 0, width, f)
              == if m == 32 && m != width then h
                 else Dropped(h, base, width) + (if base == 16 then [if f.upper then 88 else 120] else []) + [48]
  {
    assert PadWidth(false, width, f) == width;
    ZeroPaddedIs(buf, 0, width, f);
    var h := ZeroPadded(buf, 0, width, f);
    assert 1 <= |h| <= 32 && (|h| <= 30 || |h| == 32 || |h| == width);
    hide ZeroPadded, SignOf, PadWidth, Hashed, Dropped, Filled, Repeat;
    HashedIs(h, base, width, f);
    var r := Hashed(h, base, 0, width, f);
    EmptyLast(r);
  }

  lemma EmptyLast(s: seq<byte>)
    ensures s + [] == s
  {}

  lemma HashedIs(h: seq<byte>, base: nat, width: nat, f: Flags)
    requires (base == 16 || base == 8) && f.hash && !f.precision
    requires 1 <= |h| <= 32 && (|h| <= 30 || |h| == 32 || |h| == width)
    ensures Hashed(h, base, 0, width, f)
         == if |h| == 32 && |h| != width then h
            else Dropped(h, base, width) + (if base == 16 then [if f.upper then 88 else 120] else []) + [48]
  {
    var cut := Dropped(h, base, width);
    if base == 8 { EmptyLast(cut); }
  }

  /** The prefix in front of what is left of the digits, and spaces to fill the field. */
  function HashProduced(prefix: seq<byte>, kept: seq<byte>, width: nat, zeropad: bool): seq<byte> {
    (if zeropad then [] else Spaces(|prefix| + |kept|, width)) + (prefix + kept)
  }

  lemma HashText(v: word, base: nat, width: nat, f: Flags)
    requires (base == 16 || base == 8) && v != 0
    requires f.hash && !f.left && !f.precision && SignOf(false, f) == []
    ensures var buf := BareDigits(v, base, f);
            var m := if f.zeropad then Filled(|buf|, width) else |buf|;
            var h := buf + Repeat(48, m - |buf|);
            && 1 <= |buf| <= 11
            && NumberText(v, false, base, 0, width, f)
                 == if m == 32 && m != width then Reversed(h)
                    else HashProduced(PrefixOf(base, f.upper), Reversed(Dropped(h, base, width)), width, f.zeropad)
  {
    hide NumberText, Finished, BareDigits, Reversed, Dropped, SignOf, Spaces, Repeat, PrefixOf, PadWidth;
    ElevenDigits(v, base, f);
    var buf := BareDigits(v, base, f);
    var m := if f.zeropad then Filled(|buf|, width) else |buf|;
    var h := buf + Repeat(48, m - |buf|);
    HashFinished(buf, base, width, f);
    HashJustified(v, base, width, f);
    PrefixReversed(Dropped(h, base, width), base, f.upper);
    EmptyFirst(Reversed(h));
  }

  lemma EmptyFirst(s: seq<byte>)
    ensures [] + s == s
  {}

  lemma HashJustified(v: word, base: nat, width: nat, f: Flags)
    requires 2 <= base <= 16 && v != 0 && !f.left && SignOf(false, f) == []
    ensures var fin := Finished(BareDigits(v, base, f), false, base, 0, width, f);
            NumberText(v, false, base, 0, width, f)
              == (if f.zeropad then [] else Spaces(|fin|, width)) + Reversed(fin)
  {
    assert PadWidth(false, width, f) == width;
    hide Finished, BareDigits, Reversed, Justified, SignOf, PadWidth, Spaces;
    JustifiedRight(Finished(BareDigits(v, base, f), false, base, 0, width, f), width, f);
  }

  /** The digits and zeros that are left, in the order they are printed. */
  function KeptOf(h: seq<byte>, base: nat, width: nat): seq<byte> {
    if |h| != width || h == [] then h else if |h| > 1 && base == 16 then h[2..] else h[1..]
  }

  lemma DroppedReversed(h: seq<byte>, base: nat, width: nat)
    ensures Reversed(Dropped(h, base, width)) == KeptOf(Reversed(h), base, width)
  {
    var r := Reversed(h);
    if |h| == width && h != [] {
      var d := if |h| > 1 && base == 16 then 2 else 1;
      var cut := h[..|h| - d];
      assert forall i :: 0 <= i < |cut| ==> Reversed(cut)[i] == r[d..][i];
    }
  }

  lemma HashLayoutLength(prefix: seq<byte>, digits: seq<byte>, width: nat, zeropad: bool)
    ensures |HashLayout(prefix, digits, width, zeropad)| == Max(width, |prefix| + |digits|)
  {}

  /** Zeros up to the width give way to the prefix, as far as they go. */
  lemma HashPadded(digits: seq<byte>, base: nat, upper: bool, width: nat)
    requires (base == 16 || base == 8) && 1 <= |digits| <= 11 && |digits| <= width
    ensures var prefix, h := PrefixOf(base, upper), Repeat(48, width - |digits|) + digits;
            HashProduced(prefix, KeptOf(h, base, width), width, true) == HashLayout(prefix, digits, width, true)
            <==> |digits| + |prefix| <= width
  {
    var prefix, h := PrefixOf(base, upper), Repeat(48, width - |digits|) + digits;
    HashLayoutLength(prefix, digits, width, true);
    var kept := KeptOf(h, base, width);
    EmptyFirst(prefix + kept);
    if |digits| + |prefix| <= width {
      assert kept == Repeat(48, width - |digits| - |prefix|) + digits;
    }
  }

  /** Digits that do not end where the field does stay as they are; those that do are cut. */
  lemma HashUnpadded(digits: seq<byte>, base: nat, upper: bool, width: nat, zeropad: bool)
    requires (base == 16 || base == 8) && 1 <= |digits| <= 11 && (zeropad ==> |digits| > width)
    ensures var prefix := PrefixOf(base, upper);
            var kept := KeptOf(digits, base, width);
            HashProduced(prefix, kept, width, zeropad) == HashLayout(prefix, digits, width, zeropad)
            <==> |digits| != width
  {
    var prefix, kept := PrefixOf(base, upper), KeptOf(digits, base, width);
    HashLayoutLength(prefix, digits, width, zeropad);
    if |digits| != width {
      EmptyFirst(prefix + digits);
      EmptyFirst(digits);
      assert Repeat(48, 0) + digits == digits;
    } else {
      assert |HashProduced(prefix, kept, width, zeropad)| < |prefix| + |digits|;
    }
  }

  /** The '#' flag, exactly: a hexadecimal or octal conversion of a number other than 0, without '-' and
      precision, follows the standard if and only if it does not come to end where its field does, or
      has zeros enough to give way to the prefix. Otherwise digits are lost. */
  lemma HashExactly(c: byte, s: Spec, w: word)
    requires (c == 120 || c == 88 || c == 111) && IntegerValue(c, s.flags, w) != 0
    requires s.flags.hash && !s.flags.left && !s.flags.precision && s.prec == 0
    ensures var prefix := PrefixOf(BaseOf(c), s.flags.upper || c == 88);
            var digits := Reversed(BareDigits(IntegerValue(c, s.flags, w), BaseOf(c), IntegerFlags(c, s.flags)));
            && Numeral(digits, IntegerValue(c, s.flags, w), BaseOf(c), s.flags.upper || c == 88)
            && (IntegerText(c, s, w) == HashLayout(prefix, digits, s.width, s.flags.zeropad)
                <==> HashFits(prefix, |digits|, s.width, s.flags.zeropad))
  {
    hide IntegerValue, NumberText, HashLayout, HashFits, Numeral, Reversed, BareDigits, PrefixOf;
    var v: word := IntegerValue(c, s.flags, w);
    BareNumeral(v, BaseOf(c), IntegerFlags(c, s.flags));
    HashNumber(v, BaseOf(c), s.width, IntegerFlags(c, s.flags));
  }

  lemma HashNumber(v: word, base: nat, width: nat, f: Flags)
    requires (base == 16 || base == 8) && v != 0
    requires f.hash && !f.left && !f.precision && SignOf(false, f) == []
    ensures var prefix, digits := PrefixOf(base, f.upper), Reversed(BareDigits(v, base, f));
            NumberText(v, false, base, 0, width, f) == HashLayout(prefix, digits, width, f.zeropad)
            <==> HashFits(prefix, |digits|, width, f.zeropad)
  {
    hide NumberText, Reversed, BareDigits, SignOf, HashProduced, HashLayout, KeptOf, Repeat, PrefixOf;
    var prefix, digits := PrefixOf(base, f.upper), Reversed(BareDigits(v, base, f));
    HashRight(v, base, width, f);
    if f.zeropad && |digits| <= width {
      if width <= 32 {
        HashPadded(digits, base, f.upper, width);
      } else {
        HashLayoutLength(prefix, digits, width, f.zeropad);
      }
    } else {
      NoZeros(digits);
      HashUnpadded(digits, base, f.upper, width, f.zeropad);
    }
  }

  /** The text of a '#' conversion, in the order it is printed. */
  lemma HashRight(v: word, base: nat, width: nat, f: Flags)
    requires (base == 16 || base == 8) && v != 0
    requires f.hash && !f.left && !f.precision && SignOf(false, f) == []
    ensures var digits := Reversed(BareDigits(v, base, f));
            var m := if f.zeropad then Filled(|digits|, width) else |digits|;
            var h := Repeat(48, m - |digits|) + digits;
            && 1 <= |digits| <= 11
            && NumberText(v, false, base, 0, width, f)
                 == if m == 32 && m != width then h
                    else HashProduced(PrefixOf(base, f.upper), KeptOf(h, base, width), width, f.zeropad)
  {
    hide NumberText, Reversed, BareDigits, SignOf, HashProduced, Dropped, KeptOf, Repeat, PrefixOf, Filled;
    var buf := BareDigits(v, base, f);
    var m := if f.zeropad then Filled(|buf|, width) else |buf|;
    HashText(v, base, width, f);
    ZerosReversed(buf, m - |buf|);
    DroppedReversed(buf + Repeat(48, m - |buf|), base, width);
  }

  lemma ZerosReversed(s: seq<byte>, n: nat)
    ensures Reversed(s + Repeat(48, n)) == Repeat(48, n) + Reversed(s)
  {
    ReversedConcat(s, Repeat(48, n));
    ReversedRepeat(48, n);
    hide Reversed, Repeat;
  }

  lemma NoZeros(s: seq<byte>)
    ensures Repeat(48, 0) + s == s
  {}

  lemma PrefixReversed(s: seq<byte>, base: nat, upper: bool)
    ensures var r := s + (if base == 16 then [if upper then 88 else 120] else []) + [48];
            Reversed(r) == PrefixOf(base, upper) + Reversed(s) && |r| == |PrefixOf(base, upper)| + |s|
  {}

  lemma ElevenDigits(v: word, base: nat, f: Flags)
    requires (base == 16 || base == 8) && (v != 0 || !f.precision)
    ensures 1 <= |BareDigits(v, base, f)| <= 11
  {
    assert Power(8, 11) == 0x2_0000_0000 by { EightPowers(); }
    PowerGrows(8, base, 11);
    DigitsFit(v, base, f.upper, 11);
    hide Digits;
  }

  lemma EightPowers()
    ensures Power(8, 11) == 0x2_0000_0000
  {
    assert Power(8, 4) == 4096;
    assert Power(8, 8) == 0x100_0000;
  }

  // ---- With a precision ----

  /** The standard: a hexadecimal number has its prefix in front of its zeros; an octal number has at
      least one zero in front of its digits. */
  function PrecisionBody(base: nat, upper: bool, digits: seq<byte>, prec: nat): seq<byte> {
    if base == 16 then PrefixOf(base, upper) + (Repeat(48, Max(prec, |digits|) - |digits|) + digits)
    else Repeat(48, Max(prec, |digits| + 1) - |digits|) + digits
  }

  function PrecisionLayout(base: nat, upper: bool, digits: seq<byte>, prec: nat, width: nat): seq<byte> {
    var body := PrecisionBody(base, upper, digits, prec);
    Spaces(|body|, width) + body
  }

  /** Where the code follows it. */
  predicate PrecisionFits(base: nat, n: nat, prec: nat) {
    if base == 16 then prec <= 30 else prec <= n || prec == 32
  }

  /** As much of the prefix as finds room behind m digits and zeros. */
  function MarkOf(base: nat, upper: bool, m: nat): seq<byte> {
    if m >= 32 then [] else if base == 16 && m == 31 then [if upper then 88 else 120] else PrefixOf(base, upper)
  }

  function ProducedBody(base: nat, upper: bool, digits: seq<byte>, prec: nat): seq<byte> {
    var m := Filled(|digits|, prec);
    MarkOf(base, upper, m) + (Repeat(48, m - |digits|) + digits)
  }

  function PrecisionProduced(base: nat, upper: bool, digits: seq<byte>, prec: nat, width: nat): seq<byte> {
    var body := ProducedBody(base, upper, digits, prec);
    Spaces(|body|, width) + body
  }

  /** A text that is spaces up to a width and then a body: it tells the body. */
  lemma BodyTold(a: seq<byte>, b: seq<byte>, width: nat)
    requires a != [] && b != [] && a[0] != 32 && b[0] != 32
    ensures Spaces(|a|, width) + a == Spaces(|b|, width) + b <==> a == b
  {
    var s, t := Spaces(|a|, width) + a, Spaces(|b|, width) + b;
    var p, q := |Spaces(|a|, width)|, |Spaces(|b|, width)|;
    if |a| == |b| {
      assert s[p..] == a && t[p..] == b;
    } else if |s| == |t| {
      if p < q { assert s[p] == a[0] && t[p] == 32; } else { assert t[q] == b[0] && s[q] == 32; }
    }
  }

  lemma HexBodies(upper: bool, digits: seq<byte>, prec: nat)
    requires 1 <= |digits| <= 11
    ensures var a, b := ProducedBody(16, upper, digits, prec), PrecisionBody(16, upper, digits, prec);
            && a != [] && b != [] && a[0] != 32 && b[0] != 32 && (a == b <==> prec <= 30)
  {
    var a, b := ProducedBody(16, upper, digits, prec), PrecisionBody(16, upper, digits, prec);
    if prec > 30 {
      assert |a| == 32 && |b| == prec + 2;
      if prec > 31 { EmptyFirst(Repeat(48, 32 - |digits|) + digits); }
    }
  }

  lemma OctalBodies(upper: bool, digits: seq<byte>, prec: nat)
    requires 1 <= |digits| <= 11
    ensures var a, b := ProducedBody(8, upper, digits, prec), PrecisionBody(8, upper, digits, prec);
            && a != [] && b != [] && a[0] != 32 && b[0] != 32 && (a == b <==> prec <= |digits| || prec == 32)
  {
    var n := |digits|;
    var a, b := ProducedBody(8, upper, digits, prec), PrecisionBody(8, upper, digits, prec);
    if prec <= n {
      assert [48] + (Repeat(48, 0) + digits) == Repeat(48, 1) + digits;
    } else {
      assert |b| == prec && b[0] == 48;
      if prec >= 32 {
        EmptyFirst(Repeat(48, 32 - n) + digits);
        assert |a| == 32 && a[0] == 48;
      } else {
        assert |a| == prec + 1;
      }
    }
  }

  lemma HashedKeeps(h: seq<byte>, m: nat, base: nat, prec: nat, width: nat, f: Flags)
    requires (base == 16 || base == 8) && f.hash && f.precision && 1 <= |h| == m <= 32
    ensures Reversed(Hashed(h, base, prec, width, f)) == MarkOf(base, f.upper, m) + Reversed(h)
  {
    if base == 16 {
      var x: byte := if f.upper then 88 else 120;
      if |h| <= 30 {
        assert Hashed(h, base, prec, width, f) == h + [x] + [48];
        PrefixReversed(h, base, f.upper);
      } else if |h| == 31 {
        ReversedCat(h, x);
      } else {
        EmptyFirst(Reversed(h));
      }
    } else if |h| < 32 {
      ReversedCat(h, 48);
    } else {
      EmptyFirst(Reversed(h));
    }
  }

  lemma ReversedCat(s: seq<byte>, c: byte)
    ensures Reversed(s + [c]) == [c] + Reversed(s)
  {}

  lemma PrecisionText(v: word, base: nat, prec: nat, width: nat, f: Flags)
    requires (base == 16 || base == 8) && v != 0
    requires f.hash && !f.left && f.precision && !f.zeropad && SignOf(false, f) == []
    ensures var digits := Reversed(BareDigits(v, base, f));
            NumberText(v, false, base, prec, width, f) == PrecisionProduced(base, f.upper, digits, prec, width)
  {
    hide NumberText, BareDigits, Reversed, Finished, SignOf, MarkOf, Filled, Repeat, Spaces;
    ElevenDigits(v, base, f);
    PrecisionFinished(BareDigits(v, base, f), base, prec, width, f);
    PrecisionJustified(v, base, prec, width, f);
  }

  lemma PrecisionJustified(v: word, base: nat, prec: nat, width: nat, f: Flags)
    requires 2 <= base <= 16 && v != 0 && !f.left && !f.zeropad && SignOf(false, f) == []
    ensures var fin := Finished(BareDigits(v, base, f), false, base, prec, width, f);
            NumberText(v, false, base, prec, width, f) == Spaces(|fin|, width) + Reversed(fin)
  {
    assert PadWidth(false, width, f) == width;
    hide Finished, BareDigits, Reversed, Justified, SignOf, PadWidth, Spaces;
    JustifiedRight(Finished(BareDigits(v, base, f), false, base, prec, width, f), width, f);
  }

  lemma PrecisionFinished(buf: seq<byte>, base: nat, prec: nat, width: nat, f: Flags)
    requires (base == 16 || base == 8) && 1 <= |buf| <= 11
    requires f.hash && !f.left && f.precision && !f.zeropad && SignOf(false, f) == []
    ensures Reversed(Finished(buf, false, base, prec, width, f)) == ProducedBody(base, f.upper, Reversed(buf), prec)
  {
    hide Finished, ProducedBody, Hashed, Reversed, SignOf, Filled, Repeat;
    FinishedHashed(buf, base, prec, width, f);
    HashedBody(buf, base, prec, width, f);
  }

  lemma HashedBody(buf: seq<byte>, base: nat, prec: nat, width: nat, f: Flags)
    requires (base == 16 || base == 8) && 1 <= |buf| <= 11 && f.hash && f.precision
    ensures var m := Filled(|buf|, prec);
            && m <= 32
            && Reversed(Hashed(buf + Repeat(48, m - |buf|), base, prec, width, f))
                 == ProducedBody(base, f.upper, Reversed(buf), prec)
  {
    var m := Filled(|buf|, prec);
    assert |buf| <= m <= 32;
    hide Hashed, Filled, Repeat, MarkOf, Reversed, ProducedBody;
    HashedKeeps(buf + Repeat(48, m - |buf|), m, base, prec, width, f);
    ZerosReversed(buf, m - |buf|);
    BodyIs(base, f.upper, Reversed(buf), prec, m);
  }

  lemma BodyIs(base: nat, upper: bool, digits: seq<byte>, prec: nat, m: nat)
    requires m == Filled(|digits|, prec)
    ensures ProducedBody(base, upper, digits, prec) == MarkOf(base, upper, m) + (Repeat(48, m - |digits|) + digits)
  {
    hide MarkOf, Filled, Repeat;
  }

  lemma FinishedHashed(buf: seq<byte>, base: nat, prec: nat, width: nat, f: Flags)
    requires 1 <= |buf| <= 11 && !f.left && !f.zeropad && SignOf(false, f) == []
    ensures var m := Filled(|buf|, prec);
            && m <= 32
            && Finished(buf, false, base, prec, width, f) == Hashed(buf + Repeat(48, m - |buf|), base, prec, width, f)
  {
    assert PadWidth(false, width, f) == width;
    ZeroPaddedIs(buf, prec, width, f);
    hide ZeroPadded, SignOf, PadWidth, Hashed;
    EmptyLast(Hashed(ZeroPadded(buf, prec, width, f), base, prec, width, f));
  }

  /** The '#' flag with a precision, exactly: a hexadecimal number follows the standard if and only if
      the precision leaves room for the prefix in the conversion buffer; an octal one, which gets a zero
      even when the precision has brought one, if and only if the precision does not exceed its digits,
      or fills the buffer. */
  lemma HashPrecisionExactly(c: byte, s: Spec, w: word)
    requires (c == 120 || c == 88 || c == 111) && IntegerValue(c, s.flags, w) != 0
    requires s.flags.hash && !s.flags.left && s.flags.precision
    ensures var upper := s.flags.upper || c == 88;
            var digits := Reversed(BareDigits(IntegerValue(c, s.flags, w), BaseOf(c), IntegerFlags(c, s.flags)));
            && Numeral(digits, IntegerValue(c, s.flags, w), BaseOf(c), upper)
            && (IntegerText(c, s, w) == PrecisionLayout(BaseOf(c), upper, digits, s.prec, s.width)
                <==> PrecisionFits(BaseOf(c), |digits|, s.prec))
  {
    hide IntegerValue, NumberText, PrecisionLayout, PrecisionFits, Numeral, Reversed, BareDigits;
    var v: word := IntegerValue(c, s.flags, w);
    BareNumeral(v, BaseOf(c), IntegerFlags(c, s.flags));
    PrecisionNumber(v, BaseOf(c), s.prec, s.width, IntegerFlags(c, s.flags));
  }

  lemma PrecisionNumber(v: word, base: nat, prec: nat, width: nat, f: Flags)
    requires (base == 16 || base == 8) && v != 0
    requires f.hash && !f.left && f.precision && !f.zeropad && SignOf(false, f) == []
    ensures var digits := Reversed(BareDigits(v, base, f));
            NumberText(v, false, base, prec, width, f) == PrecisionLayout(base, f.upper, digits, prec, width)
            <==> PrecisionFits(base, |digits|, prec)
  {
    hide NumberText, BareDigits, Reversed, SignOf, PrecisionBody, ProducedBody, Spaces;
    var digits := Reversed(BareDigits(v, base, f));
    ElevenDigits(v, base, f);
    PrecisionText(v, base, prec, width, f);
    if base == 16 { HexBodies(f.upper, digits, prec); } else { OctalBodies(f.upper, digits, prec); }
    BodyTold(ProducedBody(base, f.upper, digits, prec), PrecisionBody(base, f.upper, digits, prec), width);
  }
}
