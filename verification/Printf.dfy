/** What the formatted output engine prints: parsing of conversions, and the text of each of them. */
module Printf {
  import opened Words
  import opened Seqs

  const NTOA_BUFFER_SIZE := 32

  /** A variadic argument: a 32-bit word, or a pointer to a string. */
  datatype Arg = Word(w: word) | Str(s: seq<byte>)

  datatype Flags = Flags(
    zeropad: bool, left: bool, plus: bool, space: bool, hash: bool, upper: bool,
    tiny: bool, short: bool, long: bool, longLong: bool, precision: bool)

  const NO_FLAGS := Flags(false, false, false, false, false, false, false, false, false, false, false)

  /** The character at p of a string, or its terminating NUL. */
  function At(s: seq<byte>, p: nat): byte {
    if p < |s| then s[p] else 0
  }

  function WordAt(args: seq<Arg>, a: nat): word {
    if a < |args| && args[a].Word? then args[a].w else 0
  }

  function StrAt(args: seq<Arg>, a: nat): seq<byte> {
    if a < |args| && args[a].Str? then args[a].s else []
  }

  /** A word read as a signed number of the given width. */
  function Signed(w: word, bits: nat): (v: int)
    requires bits in {8, 16, 32}
    ensures -0x8000_0000 <= v < 0x8000_0000
  {
    if bits == 8 then (if w % 256 < 128 then w % 256 else w % 256 - 256)
    else if bits == 16 then (if w % 0x1_0000 < 0x8000 then w % 0x1_0000 else w % 0x1_0000 - 0x1_0000)
    else if w < 0x8000_0000 then w else w - 0x1_0000_0000
  }

  predicate IsDigit(c: byte) {
    48 <= c <= 57
  }

  // ---- Parsing a conversion ----

  /** A conversion as far as it is parsed: where the format and the arguments stand. */
  datatype Spec = Spec(flags: Flags, width: word, prec: word, p: nat, a: nat)

  predicate IsFlag(c: byte) {
    c == 48 || c == 45 || c == 43 || c == 32 || c == 35
  }

  function WithFlag(f: Flags, c: byte): Flags {
    f.(zeropad := f.zeropad || c == 48, left := f.left || c == 45, plus := f.plus || c == 43,
       space := f.space || c == 32, hash := f.hash || c == 35)
  }

  function ParseFlags(fmt: seq<byte>, p: nat, f: Flags): (r: (Flags, nat))
    ensures p <= r.1 && (p <= |fmt| ==> r.1 <= |fmt|)
    decreases |fmt| - p
  {
    if p < |fmt| && IsFlag(fmt[p]) then ParseFlags(fmt, p + 1, WithFlag(f, fmt[p])) else (f, p)
  }

  /** `_atoi`: digits accumulate modulo 2^32. */
  function ParseNumber(fmt: seq<byte>, p: nat, i: word): (r: (word, nat))
    ensures p <= r.1 && (p <= |fmt| ==> r.1 <= |fmt|)
    decreases |fmt| - p
  {
    if p < |fmt| && IsDigit(fmt[p]) then ParseNumber(fmt, p + 1, Wrap(i * 10 + (fmt[p] - 48))) else (i, p)
  }

  /** A width of `*` is an argument; a negative one means left-justified. */
  function ParseWidth(fmt: seq<byte>, args: seq<Arg>, s: Spec): (r: Spec)
    ensures s.p <= r.p && r.prec == s.prec && r.flags.precision == s.flags.precision
  {
    if IsDigit(At(fmt, s.p)) then
      var (n, p) := ParseNumber(fmt, s.p, 0);
      s.(width := n, p := p)
    else if At(fmt, s.p) == 42 then
      var w := Signed(WordAt(args, s.a), 32);
      if w < 0 then s.(flags := s.flags.(left := true), width := -w, p := s.p + 1, a := s.a + 1)
      else s.(width := w, p := s.p + 1, a := s.a + 1)
    else s
  }

  function ParsePrecision(fmt: seq<byte>, args: seq<Arg>, s: Spec): (r: Spec)
    ensures s.p <= r.p && (r.flags.precision || r.prec == s.prec)
  {
    if At(fmt, s.p) != 46 then s
    else
      var t := s.(flags := s.flags.(precision := true), p := s.p + 1);
      if IsDigit(At(fmt, t.p)) then
        var (n, p) := ParseNumber(fmt, t.p, 0);
        t.(prec := n, p := p)
      else if At(fmt, t.p) == 42 then
        var n := Signed(WordAt(args, t.a), 32);
        t.(prec := if n > 0 then n else 0, p := t.p + 1, a := t.a + 1)
      else t
  }

  /** l, ll, h, hh, t, j and z; a `long long` has twice the size of a `long`. */
  function LengthFlags(c: byte, next: byte, f: Flags): (g: Flags)
    ensures g.precision == f.precision
  {
    match c
    case 108 => if next == 108 then f.(long := true, longLong := true) else f.(long := true)
    case 104 => if next == 104 then f.(short := true, tiny := true) else f.(short := true)
    case 116 => f.(long := true)
    case 106 => f.(longLong := true)
    case 122 => f.(long := true)
    case _ => f
  }

  /** How many characters of a length there are. */
  function LengthSize(c: byte, next: byte): nat {
    match c
    case 108 => if next == 108 then 2 else 1
    case 104 => if next == 104 then 2 else 1
    case 116 => 1
    case 106 => 1
    case 122 => 1
    case _ => 0
  }

  function ParseLength(fmt: seq<byte>, s: Spec): (r: Spec)
    ensures s.p <= r.p && r.prec == s.prec && r.flags.precision == s.flags.precision
  {
    var c, next := At(fmt, s.p), At(fmt, s.p + 1);
    s.(flags := LengthFlags(c, next, s.flags), p := s.p + LengthSize(c, next))
  }

  /** The conversion whose first character after the percent sign is at p. */
  function Parse(fmt: seq<byte>, p: nat, args: seq<Arg>, a: nat): (s: Spec)
    requires p <= |fmt|
    ensures p <= s.p
    ensures s.prec != 0 ==> s.flags.precision
  {
    hide ParseFlags, ParseWidth, ParsePrecision, ParseLength;
    var (f, q) := ParseFlags(fmt, p, NO_FLAGS);
    ParseLength(fmt, ParsePrecision(fmt, args, ParseWidth(fmt, args, Spec(f, 0, 0, q, a))))
  }

  // ---- The text of a number ----

  function Repeat(c: byte, n: nat): (s: seq<byte>)
    ensures |s| == n
  {
    seq(n, _ => c)
  }

  function Digit(d: nat, upper: bool): byte
    requires d < 16
  {
    if d < 10 then 48 + d else (if upper then 65 else 97) + (d - 10)
  }

  /** The digits of a number, least significant first, as the conversion buffer holds them. */
  function Digits(v: nat, base: nat, upper: bool): (s: seq<byte>)
    requires 2 <= base <= 16
    ensures |s| > 0
    decreases v
  {
    [Digit(v % base, upper)] + if v / base == 0 then [] else Digits(v / base, base, upper)
  }

  /** Append zeros up to a length, but never past the 32 characters of the conversion buffer. */
  function ZerosTo(buf: seq<byte>, n: nat): (s: seq<byte>)
    requires |buf| <= NTOA_BUFFER_SIZE
    ensures |s| <= NTOA_BUFFER_SIZE
  {
    var m := if n < NTOA_BUFFER_SIZE then n else NTOA_BUFFER_SIZE;
    if |buf| < m then buf + Repeat(48, m - |buf|) else buf
  }

  /** Append a character if the conversion buffer has room. */
  function Fit(buf: seq<byte>, c: byte): (s: seq<byte>)
    requires |buf| <= NTOA_BUFFER_SIZE
    ensures |s| <= NTOA_BUFFER_SIZE
  {
    if |buf| < NTOA_BUFFER_SIZE then buf + [c] else buf
  }

  /** The width that zero padding fills: a sign needs one place of it. */
  function PadWidth(negative: bool, width: nat, f: Flags): nat {
    if !f.left && width > 0 && f.zeropad && (negative || f.plus || f.space) then width - 1 else width
  }

  function ZeroPadded(buf: seq<byte>, prec: nat, width: nat, f: Flags): (s: seq<byte>)
    requires |buf| <= NTOA_BUFFER_SIZE
    ensures |s| <= NTOA_BUFFER_SIZE
  {
    if f.left then buf
    else if f.zeropad then ZerosTo(ZerosTo(buf, prec), width) else ZerosTo(buf, prec)
  }

  /** The '#' prefix: padding zeros give way to it when they fill the field exactly. */
  function Hashed(buf: seq<byte>, base: nat, prec: nat, width: nat, f: Flags): (s: seq<byte>)
    requires |buf| <= NTOA_BUFFER_SIZE
    ensures |s| <= NTOA_BUFFER_SIZE
  {
    if !f.hash then buf
    else
      var cut :=
        if !f.precision && buf != [] && (|buf| == prec || |buf| == width) then
          if |buf| > 1 && base == 16 then buf[..|buf| - 2] else buf[..|buf| - 1]
        else buf;
      var mark := if base == 16 then Fit(cut, if f.upper then 88 else 120)
                  else if base == 2 then Fit(cut, 98) else cut;
      Fit(mark, 48)
  }

  function SignOf(negative: bool, f: Flags): seq<byte> {
    if negative then [45] else if f.plus then [43] else if f.space then [32] else []
  }

  /** `_ntoa_format`: the conversion buffer, last character first. */
  function Finished(buf: seq<byte>, negative: bool, base: nat, prec: nat, width: nat, f: Flags): (s: seq<byte>)
    requires |buf| <= NTOA_BUFFER_SIZE
    ensures |s| <= NTOA_BUFFER_SIZE
  {
    var w := PadWidth(negative, width, f);
    var h := Hashed(ZeroPadded(buf, prec, w, f), base, prec, w, f);
    if |h| < NTOA_BUFFER_SIZE then h + SignOf(negative, f) else h
  }

  function Spaces(len: nat, width: nat): seq<byte> {
    Repeat(32, if len < width then width - len else 0)
  }

  /** `_out_rev`: the buffer backwards, with spaces to fill the field. */
  function Justified(buf: seq<byte>, width: nat, f: Flags): seq<byte> {
    (if !f.left && !f.zeropad then Spaces(|buf|, width) else [])
    + Reversed(buf)
    + (if f.left then Spaces(|buf|, width) else [])
  }

  /** The digits `_ntoa_long` starts from: none for a zero with a precision. */
  function BareDigits(v: word, base: nat, f: Flags): (s: seq<byte>)
    requires 2 <= base <= 16
    ensures |s| <= NTOA_BUFFER_SIZE
  {
    PowerValues();
    PowerGrows(2, base, NTOA_BUFFER_SIZE);
    DigitsFit(v, base, f.upper, NTOA_BUFFER_SIZE);
    if f.precision && v == 0 then [] else Digits(v, base, f.upper)
  }

  /** `_ntoa_long`. */
  function NumberText(v: word, negative: bool, base: nat, prec: nat, width: nat, f: Flags): seq<byte>
    requires 2 <= base <= 16
  {
    var g := if v == 0 then f.(hash := false) else f;
    Justified(Finished(BareDigits(v, base, g), negative, base, prec, width, g), PadWidth(negative, width, g), g)
  }

  function Power(b: nat, n: nat): nat {
    if n == 0 then 1 else b * Power(b, n - 1)
  }

  /** A number below base^n has at most n digits. */
  lemma {:induction false} DigitsFit(v: nat, base: nat, upper: bool, n: nat)
    requires 2 <= base <= 16 && n > 0 && v < Power(base, n)
    ensures |Digits(v, base, upper)| <= n
    decreases n
  {
    if v / base != 0 {
      Below(v, base, Power(base, n - 1));
      DigitsFit(v / base, base, upper, n - 1);
    }
  }

  lemma Below(v: nat, base: nat, p: nat)
    requires base > 0 && v < base * p
    ensures v / base < p
  {
    assert v == base * (v / base) + v % base;
    Times(base, p, v / base);
  }

  lemma Times(b: nat, x: nat, y: nat)
    ensures x <= y ==> b * x <= b * y
  {}

  lemma {:induction false} PowerGrows(b: nat, c: nat, n: nat)
    requires b <= c
    ensures Power(b, n) <= Power(c, n)
  {
    if n > 0 {
      PowerGrows(b, c, n - 1);
      Times(b, Power(b, n - 1), Power(c, n - 1));
      Times(Power(c, n - 1), b, c);
    }
  }

  lemma PowerValues()
    ensures Power(2, 32) == 0x1_0000_0000
    ensures Power(10, 10) == 10_000_000_000
  {
    assert Power(2, 8) == 256;
    assert Power(2, 16) == 0x1_0000;
    assert Power(2, 24) == 0x100_0000;
    assert Power(10, 5) == 100_000;
  }

  // ---- The text of a conversion ----

  predicate IsInteger(c: byte) {
    c == 100 || c == 105 || c == 117 || c == 120 || c == 88 || c == 111 || c == 98
  }

  function BaseOf(c: byte): (b: nat)
    ensures 2 <= b <= 16
  {
    if c == 120 || c == 88 then 16 else if c == 111 then 8 else if c == 98 then 2 else 10
  }

  predicate IsSigned(c: byte) {
    c == 100 || c == 105
  }

  /** The flags an integer conversion works with. */
  function IntegerFlags(c: byte, f: Flags): Flags {
    f.(hash := f.hash && BaseOf(c) != 10,
       upper := f.upper || c == 88,
       plus := f.plus && IsSigned(c),
       space := f.space && IsSigned(c),
       zeropad := f.zeropad && !f.precision)
  }

  /** The number an integer conversion prints: the argument cut to its length. */
  function IntegerValue(c: byte, f: Flags, w: word): (v: int)
    ensures -0x8000_0000 <= v < 0x1_0000_0000
    ensures v < 0 ==> IsSigned(c)
  {
    if IsSigned(c) then
      if f.long then Signed(w, 32)
      else if f.tiny then Signed(w, 8)
      else if f.short then Signed(w, 16)
      else Signed(w, 32)
    else if f.long then w else if f.tiny then w % 256 else if f.short then w % 0x1_0000 else w
  }

  function Abs(v: int): nat {
    if v < 0 then -v else v
  }

  function IntegerText(c: byte, s: Spec, w: word): seq<byte> {
    var v := IntegerValue(c, s.flags, w);
    NumberText(Abs(v), v < 0, BaseOf(c), s.prec, s.width, IntegerFlags(c, s.flags))
  }

  function CharText(s: Spec, w: word): seq<byte> {
    if s.flags.left then [w % 256] + Spaces(1, s.width) else Spaces(1, s.width) + [w % 256]
  }

  function StringText(s: Spec, str: seq<byte>): seq<byte> {
    var t := if s.flags.precision && s.prec < |str| then str[..s.prec] else str;
    if s.flags.left then t + Spaces(|t|, s.width) else Spaces(|t|, s.width) + t
  }

  function PointerText(s: Spec, w: word): seq<byte> {
    NumberText(w, false, 16, s.prec, 8, s.flags.(zeropad := true, upper := true))
  }

  /** How many arguments the conversion character takes. */
  function Takes(c: byte): nat {
    if IsInteger(c) || c == 99 || c == 115 || c == 112 then 1 else 0
  }

  function ConversionText(c: byte, s: Spec, args: seq<Arg>): seq<byte> {
    if IsInteger(c) then IntegerText(c, s, WordAt(args, s.a))
    else if c == 99 then CharText(s, WordAt(args, s.a))
    else if c == 115 then StringText(s, StrAt(args, s.a))
    else if c == 112 then PointerText(s, WordAt(args, s.a))
    else [c]
  }

  /** Everything the format prints from position p and argument a on. */
  function Formatted(fmt: seq<byte>, p: nat, args: seq<Arg>, a: nat): seq<byte>
    decreases |fmt| - p
  {
    if p >= |fmt| then []
    else if fmt[p] != 37 then [fmt[p]] + Formatted(fmt, p + 1, args, a)
    else
      var s := Parse(fmt, p + 1, args, a);
      var c := At(fmt, s.p);
      ConversionText(c, s, args) + Formatted(fmt, s.p + 1, args, s.a + Takes(c))
  }

  /** A string argument holds no NUL of its own and fits in memory. */
  predicate IsString(arg: Arg) {
    arg.Str? && 0 !in arg.s && |arg.s| < TWO_32
  }

  /** The format is a string in which every percent sign leads to a conversion character, with an
      argument of the right kind for everything it asks for, and no `long long` integers. */
  predicate Valid(fmt: seq<byte>, p: nat, args: seq<Arg>, a: nat)
    decreases |fmt| - p
  {
    p < |fmt| ==>
      && fmt[p] != 0
      && if fmt[p] != 37 then Valid(fmt, p + 1, args, a)
         else
           var s := Parse(fmt, p + 1, args, a);
           && s.p < |fmt| && fmt[s.p] != 0
           && (forall i :: a <= i < s.a ==> i < |args| && args[i].Word?)
           && (Takes(fmt[s.p]) == 1 ==>
                 s.a < |args| && if fmt[s.p] == 115 then IsString(args[s.a]) else args[s.a].Word?)
           && (IsInteger(fmt[s.p]) ==> !s.flags.longLong)
           && Valid(fmt, s.p + 1, args, s.a + Takes(fmt[s.p]))
  }
}
