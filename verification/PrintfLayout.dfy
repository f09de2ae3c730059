/** The layout of printed integers: where it is that of section 7.21.6.1 of ISO C11, exactly. */
module PrintfLayout {
  import opened Words
  import opened Seqs
  import opened Printf
  import opened PrintfLaws

  // ---- The layout of the standard ----

  /** Section 7.21.6.1 of ISO C11: spaces, the sign, zeros, the digits; or zeros for the spaces. */
  function Layout(sign: seq<byte>, digits: seq<byte>, prec: nat, width: nat, zeropad: bool): seq<byte> {
    var body := Max(prec, |digits|);
    var total := Max(width, |sign| + body);
    if zeropad then sign + Repeat(48, total - |sign| - |digits|) + digits
    else Repeat(32, total - |sign| - body) + sign + Repeat(48, body - |digits|) + digits
  }

  lemma LayoutLength(sign: seq<byte>, digits: seq<byte>, prec: nat, width: nat, zeropad: bool)
    ensures |Layout(sign, digits, prec, width, zeropad)| == Max(width, |sign| + Max(prec, |digits|))
  {}

  // ---- The layout of the code ----

  /** What the code prints: the buffer holds 32 characters at most, and the sign comes last into it. */
  function Produced(sign: seq<byte>, digits: seq<byte>, prec: nat, w: nat, zeropad: bool): seq<byte> {
    var full := Filled(|digits|, if zeropad then Max(prec, w) else prec);
    var shown := Shown(sign, full);
    (if zeropad then [] else Spaces(full + |shown|, w)) + (shown + (Repeat(48, full - |digits|) + digits))
  }

  lemma NumberProduced(v: word, negative: bool, base: nat, prec: nat, width: nat, f: Flags)
    requires 2 <= base <= 16 && !f.left && !f.hash
    ensures var w, digits := PadWidth(negative, width, f), Reversed(BareDigits(v, base, f));
            NumberText(v, negative, base, prec, width, f) == Produced(SignOf(negative, f), digits, prec, w, f.zeropad)
  {
    NumberUnmarked(v, negative, base, prec, width, f);
    hide NumberText, Finished, Reversed, BareDigits, Spaces, PadWidth, SignOf, Filled, Shown, Repeat;
    FinishedReversed(BareDigits(v, base, f), negative, base, prec, width, f);
    JustifiedRight(Finished(BareDigits(v, base, f), negative, base, prec, width, f), PadWidth(negative, width, f), f);
  }

  lemma JustifiedRight(buf: seq<byte>, width: nat, f: Flags)
    requires !f.left
    ensures Justified(buf, width, f) == (if f.zeropad then [] else Spaces(|buf|, width)) + Reversed(buf)
  {
    hide Reversed, Spaces;
    EmptyBehind(if f.zeropad then [] else Spaces(|buf|, width), Reversed(buf));
  }

  lemma EmptyBehind(s: seq<byte>, t: seq<byte>)
    ensures s + t + [] == s + t
  {}

  /** Where the two agree: with zero padding a field of at most 32 places; otherwise a precision of at
      most 31, or of 32 when there is no sign, or the sign is a space in front of which there is room. */
  predicate Fits(sign: seq<byte>, prec: nat, width: nat, zeropad: bool) {
    if zeropad then width <= 32
    else prec <= 31 || (prec == 32 && (sign == [] || (sign == [32] && width >= 33)))
  }

  /** A sign is one character and goes with a decimal number. */
  predicate SignFor(sign: seq<byte>, digits: seq<byte>) {
    |digits| <= 32 && (sign == [] || ((sign == [45] || sign == [43] || sign == [32]) && |digits| <= 10))
  }

  /** The width a sign leaves to zero padding. */
  predicate WidthFor(w: nat, width: nat, sign: seq<byte>, zeropad: bool) {
    w == if zeropad && width > 0 && sign != [] then width - 1 else width
  }

  lemma AgreePadded(sign: seq<byte>, digits: seq<byte>, width: nat, w: nat)
    requires SignFor(sign, digits) && WidthFor(w, width, sign, true)
    ensures Produced(sign, digits, 0, w, true) == Layout(sign, digits, 0, width, true) <==> width <= 32
  {
    var full := Filled(|digits|, Max(0, w));
    var z := Repeat(48, full - |digits|);
    LayoutLength(sign, digits, 0, width, true);
    if width <= 32 {
      assert [] + (sign + (z + digits)) == sign + z + digits;
    } else {
      assert |Produced(sign, digits, 0, w, true)| == 32;
    }
  }

  lemma AgreeBelow(sign: seq<byte>, digits: seq<byte>, prec: nat, width: nat)
    requires SignFor(sign, digits) && (prec <= 31 || (prec == 32 && sign == []))
    ensures Produced(sign, digits, prec, width, false) == Layout(sign, digits, prec, width, false)
  {
    var full := Filled(|digits|, prec);
    var sp, z := Spaces(full + |sign|, width), Repeat(48, full - |digits|);
    assert sp + (sign + (z + digits)) == sp + sign + z + digits;
    assert Shown(sign, full) == sign;
  }

  lemma AgreeAt32(sign: seq<byte>, digits: seq<byte>, width: nat)
    requires SignFor(sign, digits) && sign != []
    ensures Produced(sign, digits, 32, width, false) == Layout(sign, digits, 32, width, false)
            <==> sign == [32] && width >= 33
  {
    var tail := Repeat(48, 32 - |digits|) + digits;
    Produced32(sign, digits, width);
    Layout32(sign, digits, width);
    hide Produced, Layout, Repeat, Spaces;
    assert sign == [sign[0]];
    SpaceBefore(sign[0], tail, width);
  }

  lemma Produced32(sign: seq<byte>, digits: seq<byte>, width: nat)
    requires |digits| <= 32
    ensures Produced(sign, digits, 32, width, false) == Spaces(32, width) + (Repeat(48, 32 - |digits|) + digits)
  {
    hide Spaces, Repeat;
    EmptyBefore([], Repeat(48, 32 - |digits|) + digits);
  }

  lemma Layout32(sign: seq<byte>, digits: seq<byte>, width: nat)
    requires |digits| <= 32 && |sign| == 1
    ensures Layout(sign, digits, 32, width, false)
         == Spaces(33, width) + sign + (Repeat(48, 32 - |digits|) + digits)
  {
    var z := Repeat(48, 32 - |digits|);
    assert Repeat(32, Max(width, 33) - 33) == Spaces(33, width);
    assert Spaces(33, width) + sign + z + digits == Spaces(33, width) + sign + (z + digits);
  }

  /** A space in place of a sign is a sign only if it is a space, and there is one. */
  lemma SpaceBefore(c: byte, tail: seq<byte>, width: nat)
    requires |tail| == 32
    ensures Spaces(32, width) + tail == Spaces(33, width) + [c] + tail <==> c == 32 && width >= 33
  {
    var text, goal := Spaces(32, width) + tail, Spaces(33, width) + [c] + tail;
    if width >= 33 {
      assert text[width - 33] == 32 && goal[width - 33] == c;
      if c == 32 { assert Spaces(32, width) == Spaces(33, width) + [c]; }
    } else {
      assert |text| == 32 && |goal| == 33;
    }
  }

  lemma DifferAbove(sign: seq<byte>, digits: seq<byte>, prec: nat, width: nat)
    requires SignFor(sign, digits) && prec >= 33
    ensures Produced(sign, digits, prec, width, false) != Layout(sign, digits, prec, width, false)
  {
    var text, goal := Produced(sign, digits, prec, width, false), Layout(sign, digits, prec, width, false);
    LayoutLength(sign, digits, prec, width, false);
    assert |text| == Max(width, 32);
    if width >= |sign| + prec {
      assert goal[width - prec] == 48 && text[width - prec] == 32;
    }
  }

  /** The code's layout is the standard's exactly where it fits. */
  lemma ProducedExactly(sign: seq<byte>, digits: seq<byte>, prec: nat, width: nat, w: nat, zeropad: bool)
    requires SignFor(sign, digits) && WidthFor(w, width, sign, zeropad) && (zeropad ==> prec == 0)
    ensures Produced(sign, digits, prec, w, zeropad) == Layout(sign, digits, prec, width, zeropad)
            <==> Fits(sign, prec, width, zeropad)
  {
    hide Produced, Layout;
    if zeropad {
      AgreePadded(sign, digits, width, w);
    } else if prec <= 31 || (prec == 32 && sign == []) {
      AgreeBelow(sign, digits, prec, width);
    } else if prec == 32 {
      AgreeAt32(sign, digits, width);
    } else {
      DifferAbove(sign, digits, prec, width);
    }
  }

  /** Exact layout of a number without '-' and '#': for every width and precision, the text is that of
      the standard if and only if it fits. */
  lemma NumberLayoutExactly(v: word, negative: bool, base: nat, prec: nat, width: nat, f: Flags)
    requires 2 <= base <= 16 && !f.left && !f.hash && (f.zeropad ==> prec == 0)
    requires SignOf(negative, f) != [] ==> base == 10
    ensures var sign, digits := SignOf(negative, f), Reversed(BareDigits(v, base, f));
            NumberText(v, negative, base, prec, width, f) == Layout(sign, digits, prec, width, f.zeropad)
            <==> Fits(sign, prec, width, f.zeropad)
  {
    var sign, digits := SignOf(negative, f), Reversed(BareDigits(v, base, f));
    if sign != [] { TenDigits(v, f); }
    assert SignFor(sign, digits);
    assert WidthFor(PadWidth(negative, width, f), width, sign, f.zeropad);
    hide BareDigits, NumberText, Layout, Produced, SignOf, Reversed, Fits, SignFor, WidthFor, PadWidth;
    NumberProduced(v, negative, base, prec, width, f);
    ProducedExactly(sign, digits, prec, width, PadWidth(negative, width, f), f.zeropad);
  }

  // ---- Conversions ----

  /** The text is the layout of the sign and the digits of v; `none` leaves a zero without digits. */
  ghost predicate LaidOut(text: seq<byte>, v: nat, base: nat, upper: bool, none: bool,
                          sign: seq<byte>, prec: nat, width: nat, zeropad: bool)
  {
    exists digits: seq<byte> ::
      && text == Layout(sign, digits, prec, width, zeropad)
      && if none && v == 0 then digits == [] else Numeral(digits, v, base, upper)
  }

  /** Only one numeral stands for a number. */
  lemma LaidOutDigits(text: seq<byte>, v: word, base: nat, f: Flags,
                      sign: seq<byte>, prec: nat, width: nat, zeropad: bool)
    requires 2 <= base <= 16
    ensures LaidOut(text, v, base, f.upper, f.precision, sign, prec, width, zeropad)
            <==> text == Layout(sign, Reversed(BareDigits(v, base, f)), prec, width, zeropad)
  {
    var bare := Reversed(BareDigits(v, base, f));
    BareNumeral(v, base, f);
    hide BareDigits, Layout, Reversed, Numeral;
    forall digits | Numeral(digits, v, base, f.upper) && Numeral(bare, v, base, f.upper) ensures digits == bare {
      NumeralUnique(digits, bare, v, base, f.upper);
    }
  }

  /** The sign of a conversion: a minus, or what the flags ask for in front of a signed number. */
  function SignText(c: byte, f: Flags, v: int): seq<byte> {
    if v < 0 then [45] else if !IsSigned(c) then [] else if f.plus then [43] else if f.space then [32] else []
  }

  /** Exact number layout: every d, i, u, x, X, o and b conversion without '-' and '#', whatever its
      width, precision, flags and length, prints the layout of the standard, with the canonical digits
      of the absolute value, if and only if it fits. */
  lemma IntegerLayoutExactly(c: byte, s: Spec, w: word)
    requires IsInteger(c) && !s.flags.left && !s.flags.hash && (s.prec != 0 ==> s.flags.precision)
    ensures var v, f := IntegerValue(c, s.flags, w), s.flags;
            var sign, zeropad := SignText(c, f, v), f.zeropad && !f.precision;
            LaidOut(IntegerText(c, s, w), Printf.Abs(v), BaseOf(c), f.upper || c == 88, f.precision,
                    sign, s.prec, s.width, zeropad)
            <==> Fits(sign, s.prec, s.width, zeropad)
  {
    hide IntegerValue, NumberText, LaidOut, Layout, Fits, BareDigits, Reversed;
    var v, g := IntegerValue(c, s.flags, w), IntegerFlags(c, s.flags);
    var a: word, sign := Printf.Abs(v), SignText(c, s.flags, v);
    NumberLayoutExactly(a, v < 0, BaseOf(c), s.prec, s.width, g);
    LaidOutDigits(IntegerText(c, s, w), a, BaseOf(c), g, sign, s.prec, s.width, g.zeropad);
  }

  // ---- Left-justified ----

  /** Section 7.21.6.1 of ISO C11 with the '-' flag: the sign, zeros up to the precision, the digits,
      and spaces behind them. */
  function LeftLayout(sign: seq<byte>, digits: seq<byte>, prec: nat, width: nat): seq<byte> {
    var body := sign + (Repeat(48, Max(prec, |digits|) - |digits|) + digits);
    body + Spaces(|body|, width)
  }

  /** What the code prints with the '-' flag: no zeros, whatever the precision. */
  lemma LeftParts(v: word, negative: bool, base: nat, prec: nat, width: nat, f: Flags)
    requires 2 <= base <= 16 && f.left && !f.hash
    requires SignOf(negative, f) != [] ==> |BareDigits(v, base, f)| < 32
    ensures var sign, digits := SignOf(negative, f), Reversed(BareDigits(v, base, f));
            NumberText(v, negative, base, prec, width, f) == sign + digits + Spaces(|sign| + |digits|, width)
  {
    assert PadWidth(negative, width, f) == width;
    hide *;
    var buf, sign := BareDigits(v, base, f), SignOf(negative, f);
    LeftFinished(buf, negative, base, prec, width, f);
    NumberUnmarked(v, negative, base, prec, width, f);
    JustifiedLeft(buf + sign, width, f);
    ReversedConcat(buf, sign);
    ReversedSign(negative, f);
  }

  lemma JustifiedLeft(buf: seq<byte>, width: nat, f: Flags)
    requires f.left
    ensures Justified(buf, width, f) == Reversed(buf) + Spaces(|buf|, width)
  {
    hide Reversed, Spaces;
    EmptyBefore(Reversed(buf), Spaces(|buf|, width));
  }

  lemma EmptyBefore(s: seq<byte>, t: seq<byte>)
    ensures [] + s + t == s + t
  {}

  lemma NumberUnmarked(v: word, negative: bool, base: nat, prec: nat, width: nat, f: Flags)
    requires 2 <= base <= 16 && !f.hash
    ensures NumberText(v, negative, base, prec, width, f)
         == Justified(Finished(BareDigits(v, base, f), negative, base, prec, width, f), PadWidth(negative, width, f), f)
  {
    hide Justified, Finished, PadWidth, BareDigits;
    assert f.(hash := false) == f;
  }

  lemma LeftFinished(buf: seq<byte>, negative: bool, base: nat, prec: nat, width: nat, f: Flags)
    requires |buf| <= 32 && f.left && !f.hash && (SignOf(negative, f) != [] ==> |buf| < 32)
    ensures Finished(buf, negative, base, prec, width, f) == buf + SignOf(negative, f)
  {
    hide SignOf;
    assert buf + [] == buf;
  }

  lemma LeftDiffers(sign: seq<byte>, digits: seq<byte>, prec: nat, width: nat)
    requires digits == [] || digits[0] != 48
    ensures sign + digits + Spaces(|sign| + |digits|, width) == LeftLayout(sign, digits, prec, width)
            <==> prec <= |digits|
  {
    var text, goal := sign + digits + Spaces(|sign| + |digits|, width), LeftLayout(sign, digits, prec, width);
    if prec <= |digits| {
      assert Repeat(48, 0) + digits == digits;
    } else {
      assert goal[|sign|] == 48;
      assert |text| > |sign| ==> text[|sign|] != 48;
    }
  }

  /** The '-' flag drops the precision: a left-justified conversion without '#' follows the standard
      exactly when the precision asks for no more digits than the number has. */
  lemma LeftJustifiedExactly(c: byte, s: Spec, w: word)
    requires IsInteger(c) && s.flags.left && !s.flags.hash && (s.prec != 0 ==> s.flags.precision)
    ensures var v, f := IntegerValue(c, s.flags, w), IntegerFlags(c, s.flags);
            var sign, digits := SignOf(v < 0, f), Reversed(BareDigits(Printf.Abs(v), BaseOf(c), f));
            && IntegerText(c, s, w) == sign + digits + Spaces(|sign| + |digits|, s.width)
            && (IntegerText(c, s, w) == LeftLayout(sign, digits, s.prec, s.width) <==> s.prec <= |digits|)
  {
    hide IntegerValue, NumberText, BareDigits, LeftLayout, Numeral, Reversed;
    var v, f := IntegerValue(c, s.flags, w), IntegerFlags(c, s.flags);
    var a := Printf.Abs(v);
    TenDigits(a, f);
    LeftParts(a, v < 0, BaseOf(c), s.prec, s.width, f);
    BareNumeral(a, BaseOf(c), f);
    LeftNumeral(a, BaseOf(c), s.prec, s.width, SignOf(v < 0, f), f);
  }

  lemma LeftNumeral(v: word, base: nat, prec: nat, width: nat, sign: seq<byte>, f: Flags)
    requires 2 <= base <= 16 && (prec != 0 ==> f.precision)
    ensures var digits := Reversed(BareDigits(v, base, f));
            sign + digits + Spaces(|sign| + |digits|, width) == LeftLayout(sign, digits, prec, width)
            <==> prec <= |digits|
  {
    var digits := Reversed(BareDigits(v, base, f));
    BareLead(v, base, f);
    hide BareDigits, Reversed, LeftLayout, Spaces;
    if digits == [] || digits[0] != 48 {
      LeftDiffers(sign, digits, prec, width);
    } else {
      LeftPlain(sign, digits, prec, width);
    }
  }

  /** A leading zero is printed only for the number 0 without a precision. */
  lemma BareLead(v: word, base: nat, f: Flags)
    requires 2 <= base <= 16
    ensures var digits := Reversed(BareDigits(v, base, f));
            digits != [] && digits[0] == 48 ==> !f.precision
  {
    DigitsAreNumeral(v, base, f.upper);
    hide Digits;
  }

  lemma LeftPlain(sign: seq<byte>, digits: seq<byte>, prec: nat, width: nat)
    requires prec == 0
    ensures sign + digits + Spaces(|sign| + |digits|, width) == LeftLayout(sign, digits, prec, width)
  {
    assert Repeat(48, 0) + digits == digits;
  }
}
