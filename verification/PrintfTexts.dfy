/** What the conversions print, in characters and numbers. */
module PrintfTexts {
  import opened Words
  import opened Seqs
  import opened Printf
  import opened PrintfLaws
  import opened PrintfLayout
  import opened PrintfParse
  import opened PrintfRuns

  // ---- Characters of digits ----

  /** The digits of a base: 0 to 9, then A to F or a to f. */
  lemma DigitCharacters(c: byte, base: nat, upper: bool)
    requires 2 <= base <= 16
    ensures IsDigitOf(c, base, upper) <==>
            || (48 <= c <= 57 && c - 48 < base)
            || (upper && 65 <= c <= 70 && c - 55 < base)
            || (!upper && 97 <= c <= 102 && c - 87 < base)
    ensures IsDigitOf(c, base, upper) ==> c == DigitValue(c) + if c <= 57 then 48 else if c <= 70 then 55 else 87
  {}

  /** Reading one more character: 0 to 9, A to F and a to f add their value, any other adds 0, and all of
      them shift what was read by four bits. */
  lemma ReadHexStep(s: seq<byte>, c: byte)
    ensures ReadHex(s + [c]) == (16 * ReadHex(s) + if 48 <= c <= 57 then c - 48
                                                   else if 65 <= c <= 70 then c - 55
                                                   else if 97 <= c <= 102 then c - 87
                                                   else 0) % 0x1_0000_0000
  {
    assert (s + [c])[..|s|] == s;
  }

  // ---- Integers ----

  predicate NoStars(t: Written) {
    !t.width.Star? && !t.prec.Star?
  }

  function Written0(a: Amount): word {
    if a.Number? then a.n else 0
  }

  /** The base of a conversion: 16 for x and X, 8 for o, 2 for b, and 10 for d, i and u. */
  function NumberBase(c: byte): (b: nat)
    ensures 2 <= b <= 16
  {
    match c
    case 120 => 16
    case 88 => 16
    case 111 => 8
    case 98 => 2
    case _ => 10
  }

  /** The number w stands for, cut to a length of 8, 16 or 32 bits: congruent to w, and signed for d and i. */
  predicate CutTo(v: int, w: word, l: Length, signed: bool) {
    match l
    case Char => (v - w) % 0x100 == 0 && if signed then -0x80 <= v < 0x80 else 0 <= v < 0x100
    case Short => (v - w) % 0x1_0000 == 0 && if signed then -0x8000 <= v < 0x8000 else 0 <= v < 0x1_0000
    case _ =>
      (v - w) % 0x1_0000_0000 == 0 && if signed then -0x8000_0000 <= v < 0x8000_0000 else 0 <= v < 0x1_0000_0000
  }

  function FlagsOf(t: Written): Flags {
    var l := t.length;
    Flags(zeropad := 48 in t.flags, left := 45 in t.flags, plus := 43 in t.flags, space := 32 in t.flags,
          hash := 35 in t.flags, upper := false, tiny := l.Char?, short := l.Short? || l.Char?,
          long := l.Long? || l.LongLong? || l.PtrDiff? || l.Size?, longLong := l.LongLong? || l.IntMax?,
          precision := t.dot)
  }

  lemma MeaningParts(t: Written, args: seq<Arg>)
    requires NoStars(t)
    ensures Meaning(t, 1, args, 0) == Spec(FlagsOf(t), Written0(t.width), Written0(t.prec), 1 + |TextOf(t)|, 0)
    ensures WellWritten(t) && !t.dot ==> Written0(t.prec) == 0
  {
    hide TextOf, Signed, WordAt;
  }

  lemma LowBits(w: word)
    ensures (w % 0x100 - w) % 0x100 == 0 && (w % 0x100 - 0x100 - w) % 0x100 == 0
    ensures (w % 0x1_0000 - w) % 0x1_0000 == 0 && (w % 0x1_0000 - 0x1_0000 - w) % 0x1_0000 == 0
  {}

  lemma ValueOf(t: Written, c: byte, w: word)
    requires c in {100, 105, 117, 120, 88, 111, 98} && !t.length.LongLong? && !t.length.IntMax?
    ensures CutTo(IntegerValue(c, FlagsOf(t), w), w, t.length, c in {100, 105})
  {
    LowBits(w);
  }

  /** What stands in front of a number: a minus; for d and i, a plus or a space if a flag asks for it. */
  function SignBefore(t: Written, c: byte, v: int): seq<byte> {
    if v < 0 then [45]
    else if c in {100, 105} && 43 in t.flags then [43]
    else if c in {100, 105} && 32 in t.flags then [32]
    else []
  }

  lemma IntegerLeaves(t: Written, c: byte, w: word)
    requires c in {100, 105, 117, 120, 88, 111, 98}
    ensures IsInteger(c) && Ends(c) && BaseOf(c) == NumberBase(c)
    ensures var f := FlagsOf(t);
            && SignText(c, f, IntegerValue(c, f, w)) == SignBefore(t, c, IntegerValue(c, f, w))
            && ConversionText(c, Spec(f, Written0(t.width), Written0(t.prec), 1 + |TextOf(t)|, 0), [Word(w)])
               == IntegerText(c, Spec(f, Written0(t.width), Written0(t.prec), 1 + |TextOf(t)|, 0), w)
  {
    hide IntegerText, IntegerValue, TextOf;
  }

  /** Every written integer conversion without stars, '-' and '#', as a format of its own: it prints the
      layout of section 7.21.6.1 of ISO C11 for the argument cut to its length, in the base of its character,
      if and only if that fits the 32 places of the conversion buffer. */
  lemma IntegerConversion(t: Written, c: byte, w: word) returns (v: int)
    requires WellWritten(t) && NoStars(t) && 45 !in t.flags && 35 !in t.flags
    requires c in {100, 105, 117, 120, 88, 111, 98} && !t.length.LongLong? && !t.length.IntMax?
    ensures CutTo(v, w, t.length, c in {100, 105})
    ensures var sign, zeropad := SignBefore(t, c, v), 48 in t.flags && !t.dot;
            LaidOut(Alone(Conv(t, c), [Word(w)]), if v < 0 then -v else v, NumberBase(c), c == 88, t.dot,
                    sign, Written0(t.prec), Written0(t.width), zeropad)
            <==> Fits(sign, Written0(t.prec), Written0(t.width), zeropad)
  {
    hide Alone, ConversionText, Meaning, IntegerText, IntegerValue, LaidOut, Fits, SignText, SignBefore, CutTo, Ends;
    v := IntegerValue(c, FlagsOf(t), w);
    ValueOf(t, c, w);
    IntegerLeaves(t, c, w);
    AloneIs(t, c, [Word(w)]);
    MeaningParts(t, [Word(w)]);
    IntegerLayoutExactly(c, Meaning(t, 1, [Word(w)], 0), w);
  }

  lemma LeftSign(t: Written, c: byte, v: int)
    requires c in {100, 105, 117, 120, 88, 111, 98} && (v < 0 ==> IsSigned(c))
    ensures var g := IntegerFlags(c, FlagsOf(t));
            && SignOf(v < 0, g) == SignBefore(t, c, v)
            && g.upper == (c == 88) && g.precision == t.dot
            && Printf.Abs(v) == if v < 0 then -v else v
    ensures FlagsOf(t).left == (45 in t.flags) && FlagsOf(t).hash == (35 in t.flags)
    ensures FlagsOf(t).precision == t.dot
  {}

  /** With '-' but without '#': the sign, the digits, and blanks behind them up to the width. */
  lemma LeftConversion(t: Written, c: byte, w: word) returns (v: int, digits: seq<byte>)
    requires WellWritten(t) && NoStars(t) && 45 in t.flags && 35 !in t.flags
    requires c in {100, 105, 117, 120, 88, 111, 98} && !t.length.LongLong? && !t.length.IntMax?
    ensures CutTo(v, w, t.length, c in {100, 105})
    ensures if t.dot && v == 0 then digits == []
            else Numeral(digits, if v < 0 then -v else v, NumberBase(c), c == 88)
    ensures var shown := SignBefore(t, c, v) + digits;
            Alone(Conv(t, c), [Word(w)]) == shown + Spaces(|shown|, Written0(t.width))
  {
    hide Alone, ConversionText, Meaning, IntegerText, IntegerValue, IntegerFlags, FlagsOf, SignBefore, SignOf;
    hide CutTo, Ends, Numeral, BareDigits, Reversed, Spaces, LeftLayout, BaseOf, NumberBase, Printf.Abs, TextOf;
    v := IntegerValue(c, FlagsOf(t), w);
    LeftSign(t, c, v);
    IntegerLeaves(t, c, w);
    ValueOf(t, c, w);
    MeaningParts(t, [Word(w)]);
    AloneIs(t, c, [Word(w)]);
    var a, g := Printf.Abs(v), IntegerFlags(c, FlagsOf(t));
    LeftJustifiedExactly(c, Meaning(t, 1, [Word(w)], 0), w);
    BareNumeral(a, BaseOf(c), g);
    digits := Reversed(BareDigits(a, BaseOf(c), g));
  }

  // ---- Stars ----

  /** The specification with its width written out for a star that takes w: a number of 2^31 and above is
      negative, and asks for '-' as well. */
  function WidthWritten(t: Written, w: word): Written {
    if w == 0 then t.(width := Absent)
    else if w < 0x8000_0000 then t.(width := Number(w))
    else t.(width := Number(0x1_0000_0000 - w), flags := t.flags + [45])
  }

  /** A star as the width is the number it takes. */
  lemma StarWidth(t: Written, c: byte, w: word, arg: Arg)
    requires WellWritten(t) && Ends(c) && t.width.Star? && !t.prec.Star?
    ensures WellWritten(WidthWritten(t, w))
    ensures Alone(Conv(t, c), [Word(w), arg]) == Alone(Conv(WidthWritten(t, w), c), [arg])
  {
    hide Alone, ConversionText, TextOf, Ends;
    var u := WidthWritten(t, w);
    assert forall x: byte :: x in t.flags + [45] <==> x in t.flags || x == 45;
    AloneIs(t, c, [Word(w), arg]);
    AloneIs(u, c, [arg]);
    var m, n := Meaning(t, 1, [Word(w), arg], 0), Meaning(u, 1, [arg], 0);
    assert WordAt([Word(w), arg], 1) == WordAt([arg], 0) && StrAt([Word(w), arg], 1) == StrAt([arg], 0);
    TextBehind(c, m, [Word(w), arg], n, [arg]);
  }

  /** A star as the precision is the number it takes, and 0 for a negative one. */
  lemma StarPrecision(t: Written, c: byte, n: word, arg: Arg)
    requires WellWritten(t) && Ends(c) && !t.width.Star? && t.prec.Star?
    ensures var u := t.(prec := Number(if n < 0x8000_0000 then n else 0));
            WellWritten(u) && Alone(Conv(t, c), [Word(n), arg]) == Alone(Conv(u, c), [arg])
  {
    hide Alone, ConversionText, TextOf, Ends;
    var u := t.(prec := Number(if n < 0x8000_0000 then n else 0));
    AloneIs(t, c, [Word(n), arg]);
    AloneIs(u, c, [arg]);
    assert WordAt([Word(n), arg], 1) == WordAt([arg], 0) && StrAt([Word(n), arg], 1) == StrAt([arg], 0);
    TextBehind(c, Meaning(t, 1, [Word(n), arg], 0), [Word(n), arg], Meaning(u, 1, [arg], 0), [arg]);
  }

  // ---- Characters and strings ----

  /** The text s at place i of a field, and blanks in the rest of it. */
  predicate InField(text: seq<byte>, i: nat, s: seq<byte>) {
    && i + |s| <= |text|
    && (forall k :: 0 <= k < |s| ==> text[i + k] == s[k])
    && (forall k :: 0 <= k < |text| && !(i <= k < i + |s|) ==> text[k] == 32)
  }

  /** A field as wide as asked for, or as the text needs, with the text on its left or right side. */
  predicate Field(text: seq<byte>, s: seq<byte>, width: nat, left: bool) {
    && |text| == (if |s| < width then width else |s|)
    && InField(text, if left then 0 else |text| - |s|, s)
  }

  lemma FieldIs(s: seq<byte>, width: nat, left: bool)
    ensures Field(if left then s + Spaces(|s|, width) else Spaces(|s|, width) + s, s, width, left)
  {}

  /** c prints the low byte of its argument in its field. */
  lemma CharConversion(t: Written, w: word)
    requires WellWritten(t) && NoStars(t)
    ensures Field(Alone(Conv(t, 99), [Word(w)]), [w % 256], Written0(t.width), 45 in t.flags)
  {
    hide Alone, Meaning, TextOf, Field, Spaces;
    AloneIs(t, 99, [Word(w)]);
    MeaningParts(t, [Word(w)]);
    FieldIs([w % 256], Written0(t.width), 45 in t.flags);
  }

  /** s prints its string in its field, cut at the precision. */
  lemma StringConversion(t: Written, str: seq<byte>)
    requires WellWritten(t) && NoStars(t)
    ensures var n := Written0(t.prec);
            Field(Alone(Conv(t, 115), [Str(str)]), if t.dot && n < |str| then str[..n] else str,
                  Written0(t.width), 45 in t.flags)
  {
    hide Alone, Meaning, TextOf, Field, Spaces;
    AloneIs(t, 115, [Str(str)]);
    MeaningParts(t, [Str(str)]);
    var n := Written0(t.prec);
    FieldIs(if t.dot && n < |str| then str[..n] else str, Written0(t.width), 45 in t.flags);
  }

  // ---- Hexadecimal fields ----

  /** The n capital hexadecimal digits of w. */
  predicate HexField(text: seq<byte>, w: word, n: nat) {
    && |text| == n
    && (forall i :: 0 <= i < n ==> 48 <= text[i] <= 57 || 65 <= text[i] <= 70)
    && ReadHex(text) == w
  }

  lemma EightDigits(w: word)
    ensures |Digits(w, 16, true)| <= 8
  {
    assert Power(16, 4) == 0x1_0000;
    assert Power(16, 8) == 0x1_0000_0000;
    DigitsFit(w, 16, true, 8);
  }

  lemma HexDigitsShown(w: word, n: nat, f: Flags)
    requires 8 <= n <= 32 && f.upper && f.zeropad && !f.left && !f.hash && !f.plus && !f.space && !f.precision
    ensures HexField(NumberText(w, false, 16, 0, n, f), w, n)
  {
    hide *;
    var digits := Reversed(Digits(w, 16, true));
    PlainHex(w, f);
    EightDigits(w);
    HexRoundTrip(w, 0, n, f);
    NumberLayoutExactly(w, false, 16, 0, n, f);
    NumeralOfDigits(w, 16, true);
    FitsHex(n);
    ZerosAndDigits(digits, w, n);
    HexFieldIs(NumberText(w, false, 16, 0, n, f), w, n);
  }

  lemma PlainHex(w: word, f: Flags)
    requires f.upper && !f.plus && !f.space && !f.precision
    ensures SignOf(false, f) == [] && BareDigits(w, 16, f) == Digits(w, 16, true)
  {
    hide Digits;
  }

  lemma HexFieldIs(text: seq<byte>, w: word, n: nat)
    requires |text| == n && (forall i :: 0 <= i < n ==> 48 <= text[i] <= 57 || 65 <= text[i] <= 70)
    requires ReadHex(text) == w
    ensures HexField(text, w, n)
  {
    hide ReadHex;
  }

  lemma FitsHex(n: nat)
    ensures n <= 32 ==> Fits([], 0, n, true)
  {}

  lemma ZerosAndDigits(digits: seq<byte>, w: word, n: nat)
    requires |digits| <= 8 <= n && Numeral(digits, w, 16, true)
    ensures var text := Layout([], digits, 0, n, true);
            |text| == n && forall i :: 0 <= i < n ==> 48 <= text[i] <= 57 || 65 <= text[i] <= 70
  {
    hide Decoded;
    forall c: byte ensures IsDigitOf(c, 16, true) ==> 48 <= c <= 57 || 65 <= c <= 70 {
      DigitCharacters(c, 16, true);
    }
  }

  /** p prints the eight capital hexadecimal digits of its argument, whatever the width. */
  lemma PointerConversion(t: Written, w: word)
    requires WellWritten(t) && NoStars(t) && !t.dot && forall i :: 0 <= i < |t.flags| ==> t.flags[i] == 48
    ensures HexField(Alone(Conv(t, 112), [Word(w)]), w, 8)
  {
    hide Alone, Meaning, TextOf, HexField, NumberText;
    AloneIs(t, 112, [Word(w)]);
    MeaningParts(t, [Word(w)]);
    HexDigitsShown(w, 8, FlagsOf(t).(zeropad := true, upper := true));
  }

  // ---- The register dump ----

  /** %016X, as the dump prints each register. */
  const REGISTER: Written := Written([48], Number(16), false, Absent, Plain)

  lemma RegisterSource()
    ensures Source(Conv(REGISTER, 88)) == [37, 48, 49, 54, 88] && WellFormed(Conv(REGISTER, 88))
  {
    assert Digits(16, 10, false) == [54, 49];
    assert Decimal(16) == [49, 54];
  }

  lemma RegisterShown(w: word)
    ensures HexField(Alone(Conv(REGISTER, 88), [Word(w)]), w, 16)
  {
    RegisterSource();
    hide Alone, Meaning, TextOf, HexField, NumberText;
    AloneIs(REGISTER, 88, [Word(w)]);
    MeaningParts(REGISTER, [Word(w)]);
    HexDigitsShown(w, 16, IntegerFlags(88, FlagsOf(REGISTER)));
  }

  /** The entries of a dump, and its arguments. */
  function Dump(names: seq<seq<byte>>): (e: seq<Entry>)
    ensures |e| == |names| && forall k :: 0 <= k < |e| ==> e[k] == Entry(names[k], REGISTER, 88)
  {
    seq(|names|, k requires 0 <= k < |names| => Entry(names[k], REGISTER, 88))
  }

  function ArgsOf(values: seq<word>): (a: seq<Arg>)
    ensures |a| == |values| && forall k :: 0 <= k < |a| ==> a[k] == Word(values[k])
  {
    seq(|values|, k requires 0 <= k < |values| => Word(values[k]))
  }

  /** The text of a dump from register k on: each name, then 16 digits that read back as its own value. */
  predicate Dumped(text: seq<byte>, names: seq<seq<byte>>, values: seq<word>, k: nat)
    requires k <= |names| == |values|
    decreases |names| - k
  {
    if k == |names| then text == []
    else
      var n := |names[k]|;
      && |text| >= n + 16
      && text[..n] == names[k]
      && HexField(text[n..n + 16], values[k], 16)
      && Dumped(text[n + 16..], names, values, k + 1)
  }

  lemma ThreeParts(a: seq<byte>, b: seq<byte>, c: seq<byte>)
    ensures var text := a + (b + c); var n := |a| + |b|;
            |text| >= n && text[..|a|] == a && text[|a|..n] == b && text[n..] == c
  {}

  lemma DumpedStep(hex: seq<byte>, rest: seq<byte>, names: seq<seq<byte>>, values: seq<word>, k: nat)
    requires k < |names| == |values| && HexField(hex, values[k], 16) && Dumped(rest, names, values, k + 1)
    ensures Dumped(names[k] + (hex + rest), names, values, k)
  {
    ThreeParts(names[k], hex, rest);
    assert |hex| == 16 by { FieldLength(hex, values[k]); }
    hide HexField;
  }

  lemma {:induction false} EntriesDumped(names: seq<seq<byte>>, values: seq<word>, k: nat)
    requires k <= |names| == |values|
    ensures Dumped(EntriesText(Dump(names), ArgsOf(values), k), names, values, k)
    decreases |names| - k
  {
    hide Alone, HexField, Source;
    if k < |names| {
      RegisterShown(values[k]);
      EntriesDumped(names, values, k + 1);
      DumpedStep(Alone(Conv(REGISTER, 88), [Word(values[k])]), EntriesText(Dump(names), ArgsOf(values), k + 1),
                 names, values, k);
      hide Dumped;
    }
  }

  lemma FieldLength(hex: seq<byte>, w: word)
    requires HexField(hex, w, 16)
    ensures |hex| == 16
  {}

  /** The dump of a trap shows every register: whatever the names between them, the k-th value printed with
      %016X stands behind the k-th name, and reads back as the k-th argument. */
  lemma DumpShowsEach(names: seq<seq<byte>>, values: seq<word>)
    requires |names| == |values| && forall k :: 0 <= k < |names| ==> 37 !in names[k] && 0 !in names[k]
    ensures Dumped(Formatted(EntriesFormat(Dump(names)), 0, ArgsOf(values), 0), names, values, 0)
  {
    hide Formatted, Dumped, Source;
    RegisterSource();
    assert Dump(names)[0..] == Dump(names) && ArgsOf(values)[0..] == ArgsOf(values);
    KthPrintsKth(Dump(names), ArgsOf(values), 0);
    EntriesDumped(names, values, 0);
  }
}
