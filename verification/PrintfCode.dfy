/** The formatted output engine as it runs: loops over the format that write through a bounded buffer. */
module PrintfCode {
  import opened Words
  import opened Seqs
  import opened Printf
  import opened PrintfLaws

  /** The buffer after the text is put from index idx on, where places from maxlen on stay as they are. */
  function Emitted(b: seq<byte>, idx: nat, maxlen: nat, s: seq<byte>): (r: seq<byte>)
    ensures |r| == |b|
    ensures forall i :: 0 <= i < |b| ==> r[i] == if idx <= i < idx + |s| && i < maxlen then s[i - idx] else b[i]
  {
    seq<byte>(|b|, i requires 0 <= i < |b| => if idx <= i < idx + |s| && i < maxlen then s[i - idx] else b[i])
  }

  lemma EmitConcat(b: seq<byte>, idx: nat, maxlen: nat, s: seq<byte>, t: seq<byte>)
    ensures Emitted(Emitted(b, idx, maxlen, s), idx + |s|, maxlen, t) == Emitted(b, idx, maxlen, s + t)
  {}

  lemma EmitNothing(b: seq<byte>, idx: nat, maxlen: nat)
    ensures Emitted(b, idx, maxlen, []) == b
  {}

  method OutBuffer(c: byte, buffer: array<byte>, idx: nat, maxlen: nat)
    requires maxlen <= buffer.Length
    modifies buffer
    ensures buffer[..] == Emitted(old(buffer[..]), idx, maxlen, [c])
  {
    if idx < maxlen {
      buffer[idx] := c;
    }
  }

  /** The loops that print the same character up to a width: it starts from a length already reached. */
  method Pad(c: byte, from: nat, width: nat, buffer: array<byte>, idx: nat, maxlen: nat) returns (r: nat)
    requires maxlen <= buffer.Length
    modifies buffer
    ensures var n := if from < width then width - from else 0;
            r == idx + n && buffer[..] == Emitted(old(buffer[..]), idx, maxlen, Repeat(c, n))
  {
    r := idx;
    var i := from;
    EmitNothing(buffer[..], idx, maxlen);
    assert Repeat(c, 0) == [];
    while i < width
      invariant from <= i && (i <= width || i == from)
      invariant r == idx + (i - from)
      invariant buffer[..] == Emitted(old(buffer[..]), idx, maxlen, Repeat(c, i - from))
    {
      EmitConcat(old(buffer[..]), idx, maxlen, Repeat(c, i - from), [c]);
      assert Repeat(c, i - from) + [c] == Repeat(c, i + 1 - from);
      OutBuffer(c, buffer, r, maxlen);
      r, i := r + 1, i + 1;
    }
  }

  lemma ReversedGrows(s: seq<byte>, n: nat)
    requires 0 < n <= |s|
    ensures Reversed(s[n - 1..]) == Reversed(s[n..]) + [s[n - 1]]
  {
    assert s[n - 1..][1..] == s[n..];
  }

  /** Writes the conversion buffer backwards. */
  method OutBackwards(buf: array<byte>, len: nat, buffer: array<byte>, idx: nat, maxlen: nat) returns (r: nat)
    requires maxlen <= buffer.Length && len <= buf.Length && buf != buffer
    modifies buffer
    ensures r == idx + len && buffer[..] == Emitted(old(buffer[..]), idx, maxlen, Reversed(buf[..len]))
  {
    r := idx;
    var n: nat := len;
    ghost var s := buf[..len];
    EmitNothing(buffer[..], idx, maxlen);
    while n > 0
      invariant 0 <= n <= len == |s| && r == idx + (len - n)
      invariant buf[..len] == s
      invariant buffer[..] == Emitted(old(buffer[..]), idx, maxlen, Reversed(s[n..]))
    {
      ReversedGrows(s, n);
      EmitConcat(old(buffer[..]), idx, maxlen, Reversed(s[n..]), [s[n - 1]]);
      n := n - 1;
      OutBuffer(buf[n], buffer, r, maxlen);
      r := r + 1;
    }
    assert s[0..] == s;
  }

  method OutRev(buffer: array<byte>, idx: nat, maxlen: nat, buf: array<byte>, len: nat, width: nat, f: Flags)
    returns (r: nat)
    requires maxlen <= buffer.Length && len <= buf.Length && buf != buffer
    modifies buffer
    ensures var text := Justified(buf[..len], width, f);
            r == idx + |text| && buffer[..] == Emitted(old(buffer[..]), idx, maxlen, text)
  {
    hide Emitted, Reversed;
    r := idx;
    EmitNothing(buffer[..], idx, maxlen);
    ghost var text: seq<byte> := [];
    if !f.left && !f.zeropad {
      r := Pad(32, len, width, buffer, idx, maxlen);
      text := Spaces(len, width);
    }
    r := OutBackwards(buf, len, buffer, r, maxlen);
    EmitConcat(old(buffer[..]), idx, maxlen, text, Reversed(buf[..len]));
    text := text + Reversed(buf[..len]);
    if f.left {
      r := Pad(32, r - idx, width, buffer, r, maxlen);
      EmitConcat(old(buffer[..]), idx, maxlen, text, Spaces(len, width));
      text := text + Spaces(len, width);
    }
    assert text == Justified(buf[..len], width, f);
  }

  /** The zero-filling loops: they stop at the goal or where the conversion buffer ends. */
  method FillZeros(buf: array<byte>, len: nat, goal: nat) returns (n: nat)
    requires len <= buf.Length == NTOA_BUFFER_SIZE
    modifies buf
    ensures n <= NTOA_BUFFER_SIZE && buf[..n] == ZerosTo(old(buf[..len]), goal)
  {
    n := len;
    while n < goal && n < NTOA_BUFFER_SIZE
      invariant len <= n <= NTOA_BUFFER_SIZE && (n == len || n <= goal)
      invariant buf[..n] == old(buf[..len]) + Repeat(48, n - len)
    {
      buf[n] := 48;
      n := n + 1;
    }
  }

  method Append(buf: array<byte>, len: nat, c: byte) returns (n: nat)
    requires len <= buf.Length == NTOA_BUFFER_SIZE
    modifies buf
    ensures n <= NTOA_BUFFER_SIZE && buf[..n] == Fit(old(buf[..len]), c)
  {
    n := len;
    if n < NTOA_BUFFER_SIZE {
      buf[n] := c;
      n := n + 1;
    }
  }

  /** `_ntoa_format` before it prints: no write leaves the 32 bytes of the conversion buffer. */
  method FinishBuffer(buf: array<byte>, length: nat, negative: bool, base: nat, prec: nat, w: nat, f: Flags)
    returns (len: nat, width: nat)
    requires length <= buf.Length == NTOA_BUFFER_SIZE
    modifies buf
    ensures len <= NTOA_BUFFER_SIZE && width == PadWidth(negative, w, f)
    ensures buf[..len] == Finished(old(buf[..length]), negative, base, prec, w, f)
  {
    len, width := length, w;
    if !f.left {
      if width > 0 && f.zeropad && (negative || f.plus || f.space) {
        width := width - 1;
      }
      len := FillZeros(buf, len, prec);
      if f.zeropad {
        len := FillZeros(buf, len, width);
      }
    }
    assert buf[..len] == ZeroPadded(old(buf[..length]), prec, width, f);
    hide ZeroPadded, ZerosTo;
    hide Hashed, PadWidth, SignOf;
    len := HashMark(buf, len, base, prec, width, f);
    len := AppendSign(buf, len, negative, f);
  }

  method AppendSign(buf: array<byte>, length: nat, negative: bool, f: Flags) returns (len: nat)
    requires length <= buf.Length == NTOA_BUFFER_SIZE
    modifies buf
    ensures len <= NTOA_BUFFER_SIZE
    ensures buf[..len] == old(buf[..length]) + if length < NTOA_BUFFER_SIZE then SignOf(negative, f) else []
  {
    len := length;
    if len < NTOA_BUFFER_SIZE {
      if negative {
        buf[len] := 45;
        len := len + 1;
      } else if f.plus {
        buf[len] := 43;
        len := len + 1;
      } else if f.space {
        buf[len] := 32;
        len := len + 1;
      }
    }
  }

  method HashMark(buf: array<byte>, length: nat, base: nat, prec: nat, width: nat, f: Flags) returns (len: nat)
    requires length <= buf.Length == NTOA_BUFFER_SIZE
    modifies buf
    ensures len <= NTOA_BUFFER_SIZE && buf[..len] == Hashed(old(buf[..length]), base, prec, width, f)
  {
    len := length;
    ghost var s := buf[..length];
    if f.hash {
      if !f.precision && len > 0 && (len == prec || len == width) {
        len := len - 1;
        if len > 0 && base == 16 {
          len := len - 1;
        }
      }
      ghost var cut := buf[..len];
      assert cut == if !f.precision && s != [] && (|s| == prec || |s| == width) then
                      if |s| > 1 && base == 16 then s[..|s| - 2] else s[..|s| - 1]
                    else s;
      hide Fit;
      if base == 16 && !f.upper {
        len := Append(buf, len, 120);
      } else if base == 16 {
        len := Append(buf, len, 88);
      } else if base == 2 {
        len := Append(buf, len, 98);
      }
      len := Append(buf, len, 48);
    }
  }

  method NtoaLong(buffer: array<byte>, idx: nat, maxlen: nat, v: word, negative: bool, base: nat,
                  prec: nat, width: nat, flags: Flags)
    returns (r: nat)
    requires 2 <= base <= 16 && maxlen <= buffer.Length
    modifies buffer
    ensures var text := NumberText(v, negative, base, prec, width, flags);
            r == idx + |text| && buffer[..] == Emitted(old(buffer[..]), idx, maxlen, text)
  {
    var buf := new byte[NTOA_BUFFER_SIZE];
    var f := if v == 0 then flags.(hash := false) else flags;
    var len := 0;
    assert buf[..0] == [];
    if !f.precision || v != 0 {
      len := PutDigits(buf, v, base, f);
    }
    assert buf[..len] == BareDigits(v, base, f);
    var w;
    hide BareDigits, Finished, PadWidth, Emitted, Digits, Justified;
    len, w := FinishBuffer(buf, len, negative, base, prec, width, f);
    r := OutRev(buffer, idx, maxlen, buf, len, w, f);
  }

  /** The digit of one round of the digit loop, and the value it leaves. */
  method TakeDigit(v: nat, base: nat, upper: bool) returns (digit: byte, rest: nat)
    requires 2 <= base <= 16
    ensures Digits(v, base, upper) == [digit] + if rest == 0 then [] else Digits(rest, base, upper)
  {
    var d := v % base;
    digit := if d < 10 then 48 + d else (if upper then 65 else 97) + d - 10;
    rest := v / base;
  }

  lemma BareIsDigits(v: word, base: nat, f: Flags)
    requires 2 <= base <= 16 && (v != 0 || !f.precision)
    ensures BareDigits(v, base, f) == Digits(v, base, f.upper)
  {
    hide Digits;
  }

  /** The digit loop: 32 places are enough for every base, so it ends with the value used up. */
  method PutDigits(buf: array<byte>, v: word, base: nat, f: Flags) returns (len: nat)
    requires 2 <= base <= 16 && buf.Length == NTOA_BUFFER_SIZE && (v != 0 || !f.precision)
    modifies buf
    ensures len <= NTOA_BUFFER_SIZE && buf[..len] == BareDigits(v, base, f)
  {
    BareIsDigits(v, base, f);
    hide *;
    ghost var all, rest := BareDigits(v, base, f), BareDigits(v, base, f);
    var value: nat, more := v, true;
    len := 0;
    while more
      invariant len <= NTOA_BUFFER_SIZE && (more ==> len < NTOA_BUFFER_SIZE)
      invariant all == buf[..len] + rest && |all| <= NTOA_BUFFER_SIZE
      invariant rest == if more then Digits(value, base, f.upper) else []
      decreases NTOA_BUFFER_SIZE - len
    {
      ghost var done := buf[..len];
      var digit;
      digit, value := TakeDigit(value, base, f.upper);
      rest := if value == 0 then [] else Digits(value, base, f.upper);
      Regroup(done, digit, rest);
      buf[len] := digit;
      len := len + 1;
      assert buf[..len] == done + [digit];
      more := value != 0 && len < NTOA_BUFFER_SIZE;
    }
  }

  lemma Regroup(s: seq<byte>, c: byte, t: seq<byte>)
    ensures s + ([c] + t) == s + [c] + t
  {}

  // ---- Conversions ----

  lemma FlagsFrom(c: byte, flags: Flags, hash: bool, upper: bool, plus: bool, space: bool, zeropad: bool)
    requires hash <==> flags.hash && BaseOf(c) != 10
    requires upper <==> flags.upper || c == 88
    requires plus <==> flags.plus && IsSigned(c)
    requires space <==> flags.space && IsSigned(c)
    requires zeropad <==> flags.zeropad && !flags.precision
    ensures flags.(hash := hash, upper := upper, plus := plus, space := space, zeropad := zeropad)
         == IntegerFlags(c, flags)
  {}

  /** The base and the flags of an integer conversion. */
  method IntegerSetup(c: byte, flags: Flags) returns (base: nat, f: Flags)
    requires IsInteger(c)
    ensures base == BaseOf(c) && f == IntegerFlags(c, flags)
  {
    var hash, upper, plus, space, zeropad := flags.hash, flags.upper, flags.plus, flags.space, flags.zeropad;
    if c == 120 || c == 88 {
      base := 16;
    } else if c == 111 {
      base := 8;
    } else if c == 98 {
      base := 2;
    } else {
      base, hash := 10, false;
    }
    if c == 88 {
      upper := true;
    }
    if c != 105 && c != 100 {
      plus, space := false, false;
    }
    if flags.precision {
      zeropad := false;
    }
    hide IntegerFlags;
    FlagsFrom(c, flags, hash, upper, plus, space, zeropad);
    f := flags.(hash := hash, upper := upper, plus := plus, space := space, zeropad := zeropad);
  }

  method IntegerOut(c: byte, s: Spec, w: word, buffer: array<byte>, idx: nat, maxlen: nat) returns (r: nat)
    requires IsInteger(c) && maxlen <= buffer.Length
    modifies buffer
    ensures var text := IntegerText(c, s, w);
            r == idx + |text| && buffer[..] == Emitted(old(buffer[..]), idx, maxlen, text)
  {
    hide NumberText, Emitted, BaseOf, IntegerFlags, Signed;
    var base, f := IntegerSetup(c, s.flags);
    if c == 105 || c == 100 {
      var v := if s.flags.long then Signed(w, 32)
               else if s.flags.tiny then Signed(w, 8)
               else if s.flags.short then Signed(w, 16)
               else Signed(w, 32);
      r := NtoaLong(buffer, idx, maxlen, if v > 0 then v else 0 - v, v < 0, base, s.prec, s.width, f);
    } else {
      var v := if s.flags.long then w
               else if s.flags.tiny then w % 256
               else if s.flags.short then w % 0x1_0000
               else w;
      r := NtoaLong(buffer, idx, maxlen, v, false, base, s.prec, s.width, f);
    }
  }

  method CharOut(s: Spec, w: word, buffer: array<byte>, idx: nat, maxlen: nat) returns (r: nat)
    requires maxlen <= buffer.Length
    modifies buffer
    ensures var text := CharText(s, w);
            r == idx + |text| && buffer[..] == Emitted(old(buffer[..]), idx, maxlen, text)
  {
    hide Emitted;
    r := idx;
    if !s.flags.left {
      r := Pad(32, 1, s.width, buffer, r, maxlen);
      EmitConcat(old(buffer[..]), idx, maxlen, Spaces(1, s.width), [w % 256]);
    }
    OutBuffer(w % 256, buffer, r, maxlen);
    r := r + 1;
    if s.flags.left {
      r := Pad(32, 1, s.width, buffer, r, maxlen);
      EmitConcat(old(buffer[..]), idx, maxlen, [w % 256], Spaces(1, s.width));
    }
  }

  /** `_strnlen_s`. */
  method StrnlenS(str: seq<byte>, maxsize: nat) returns (n: nat)
    requires 0 !in str
    ensures n == if |str| < maxsize then |str| else maxsize
  {
    n := 0;
    var left := maxsize;
    while At(str, n) != 0 && left > 0
      invariant n <= |str| && left == maxsize - n
      decreases left
    {
      left, n := left - 1, n + 1;
    }
  }

  /** Prints the characters of a string, or the first so many of them when there is a precision. */
  method OutString(str: seq<byte>, limited: bool, limit: nat, buffer: array<byte>, idx: nat, maxlen: nat)
    returns (r: nat)
    requires 0 !in str && maxlen <= buffer.Length
    modifies buffer
    ensures var text := if limited && limit < |str| then str[..limit] else str;
            r == idx + |text| && buffer[..] == Emitted(old(buffer[..]), idx, maxlen, text)
  {
    r := idx;
    var p := 0;
    EmitNothing(buffer[..], idx, maxlen);
    while At(str, p) != 0 && (!limited || p < limit)
      invariant p <= |str| && (limited ==> p <= limit) && r == idx + p
      invariant buffer[..] == Emitted(old(buffer[..]), idx, maxlen, str[..p])
      decreases |str| - p
    {
      EmitConcat(old(buffer[..]), idx, maxlen, str[..p], [str[p]]);
      assert str[..p] + [str[p]] == str[..p + 1];
      OutBuffer(str[p], buffer, r, maxlen);
      p, r := p + 1, r + 1;
    }
    assert str[..|str|] == str;
  }

  method StringOut(s: Spec, str: seq<byte>, buffer: array<byte>, idx: nat, maxlen: nat) returns (r: nat)
    requires 0 !in str && |str| < TWO_32 && (s.prec != 0 ==> s.flags.precision) && maxlen <= buffer.Length
    modifies buffer
    ensures var text := StringText(s, str);
            r == idx + |text| && buffer[..] == Emitted(old(buffer[..]), idx, maxlen, text)
  {
    hide Emitted;
    var l := StrnlenS(str, if s.prec != 0 then s.prec else MINUS_ONE);
    if s.flags.precision {
      l := if l < s.prec then l else s.prec;
    }
    ghost var t := if s.flags.precision && s.prec < |str| then str[..s.prec] else str;
    assert l == |t|;
    r := idx;
    if !s.flags.left {
      r := Pad(32, l, s.width, buffer, r, maxlen);
      EmitConcat(old(buffer[..]), idx, maxlen, Spaces(l, s.width), t);
    }
    r := OutString(str, s.flags.precision, s.prec, buffer, r, maxlen);
    if s.flags.left {
      r := Pad(32, l, s.width, buffer, r, maxlen);
      EmitConcat(old(buffer[..]), idx, maxlen, t, Spaces(l, s.width));
    }
  }

  method Convert(c: byte, s: Spec, args: seq<Arg>, buffer: array<byte>, idx: nat, maxlen: nat) returns (r: nat)
    requires maxlen <= buffer.Length && (s.prec != 0 ==> s.flags.precision)
    requires c == 115 ==> 0 !in StrAt(args, s.a) && |StrAt(args, s.a)| < TWO_32
    modifies buffer
    ensures var text := ConversionText(c, s, args);
            r == idx + |text| && buffer[..] == Emitted(old(buffer[..]), idx, maxlen, text)
  {
    hide IntegerText, CharText, StringText, NumberText, Emitted;
    if IsInteger(c) {
      r := IntegerOut(c, s, WordAt(args, s.a), buffer, idx, maxlen);
    } else if c == 99 {
      r := CharOut(s, WordAt(args, s.a), buffer, idx, maxlen);
    } else if c == 115 {
      r := StringOut(s, StrAt(args, s.a), buffer, idx, maxlen);
    } else if c == 112 {
      var f := s.flags.(zeropad := true, upper := true);
      r := NtoaLong(buffer, idx, maxlen, WordAt(args, s.a), false, 16, s.prec, 8, f);
    } else {
      OutBuffer(c, buffer, idx, maxlen);
      r := idx + 1;
    }
  }

  // ---- The format loop ----

  /** `_atoi`. */
  method Atoi(fmt: seq<byte>, start: nat) returns (i: word, p: nat)
    ensures (i, p) == ParseNumber(fmt, start, 0)
  {
    i, p := 0, start;
    while IsDigit(At(fmt, p))
      invariant ParseNumber(fmt, start, 0) == ParseNumber(fmt, p, i)
      decreases |fmt| - p
    {
      i, p := Wrap(i * 10 + (fmt[p] - 48)), p + 1;
    }
  }

  /** Flags, width, precision and length of the conversion whose first character is at p. */
  method Evaluate(fmt: seq<byte>, start: nat, args: seq<Arg>, first: nat) returns (s: Spec)
    requires start <= |fmt|
    ensures s == Parse(fmt, start, args, first)
  {
    hide ParseFlags, ParseWidth, ParsePrecision, ParseLength;
    var f, p := EvaluateFlags(fmt, start);
    s := EvaluateWidth(fmt, args, Spec(f, 0, 0, p, first));
    s := EvaluatePrecision(fmt, args, s);
    s := EvaluateLength(fmt, s);
  }

  method EvaluateFlags(fmt: seq<byte>, start: nat) returns (f: Flags, p: nat)
    ensures (f, p) == ParseFlags(fmt, start, NO_FLAGS)
  {
    f, p := NO_FLAGS, start;
    var n := 1;
    while n == 1
      invariant n == 1 ==> ParseFlags(fmt, start, NO_FLAGS) == ParseFlags(fmt, p, f)
      invariant n != 1 ==> ParseFlags(fmt, start, NO_FLAGS) == (f, p)
      decreases |fmt| - p, n
    {
      match At(fmt, p)
      case 48 => f, p, n := f.(zeropad := true), p + 1, 1;
      case 45 => f, p, n := f.(left := true), p + 1, 1;
      case 43 => f, p, n := f.(plus := true), p + 1, 1;
      case 32 => f, p, n := f.(space := true), p + 1, 1;
      case 35 => f, p, n := f.(hash := true), p + 1, 1;
      case _ => n := 0;
    }
  }

  method EvaluateWidth(fmt: seq<byte>, args: seq<Arg>, start: Spec) returns (s: Spec)
    ensures s == ParseWidth(fmt, args, start)
  {
    s := start;
    if IsDigit(At(fmt, s.p)) {
      var n, p := Atoi(fmt, s.p);
      s := s.(width := n, p := p);
    } else if At(fmt, s.p) == 42 {
      var w := Signed(WordAt(args, s.a), 32);
      if w < 0 {
        s := s.(flags := s.flags.(left := true), width := -w);
      } else {
        s := s.(width := w);
      }
      s := s.(p := s.p + 1, a := s.a + 1);
    }
  }

  method EvaluatePrecision(fmt: seq<byte>, args: seq<Arg>, start: Spec) returns (s: Spec)
    ensures s == ParsePrecision(fmt, args, start)
  {
    s := start;
    if At(fmt, s.p) == 46 {
      s := s.(flags := s.flags.(precision := true), p := s.p + 1);
      if IsDigit(At(fmt, s.p)) {
        var n, p := Atoi(fmt, s.p);
        s := s.(prec := n, p := p);
      } else if At(fmt, s.p) == 42 {
        var n := Signed(WordAt(args, s.a), 32);
        s := s.(prec := if n > 0 then n else 0, p := s.p + 1, a := s.a + 1);
      }
    }
  }

  method EvaluateLength(fmt: seq<byte>, start: Spec) returns (s: Spec)
    ensures s == ParseLength(fmt, start)
  {
    s := start;
    match At(fmt, s.p)
    case 108 =>
      s := s.(flags := s.flags.(long := true), p := s.p + 1);
      if At(fmt, s.p) == 108 {
        s := s.(flags := s.flags.(longLong := true), p := s.p + 1);
      }
    case 104 =>
      s := s.(flags := s.flags.(short := true), p := s.p + 1);
      if At(fmt, s.p) == 104 {
        s := s.(flags := s.flags.(tiny := true), p := s.p + 1);
      }
    case 116 => s := s.(flags := s.flags.(long := true), p := s.p + 1);
    case 106 => s := s.(flags := s.flags.(longLong := true), p := s.p + 1);
    case 122 => s := s.(flags := s.flags.(long := true), p := s.p + 1);
    case _ =>
  }

  /** The buffer after the terminating NUL is put behind a text of length n: the last place at most. */
  function Terminated(b: seq<byte>, n: nat, maxlen: nat): seq<byte> {
    Emitted(b, if n < maxlen then n else Wrap(maxlen - 1), maxlen, [0])
  }

  /** One conversion of a valid format. */
  lemma ValidConversion(fmt: seq<byte>, p: nat, args: seq<Arg>, a: nat)
    requires Valid(fmt, p, args, a) && p < |fmt| && fmt[p] == 37
    ensures var s := Parse(fmt, p + 1, args, a);
            var c := At(fmt, s.p);
            && p < s.p < |fmt|
            && (c == 115 ==> 0 !in StrAt(args, s.a) && |StrAt(args, s.a)| < TWO_32)
            && Valid(fmt, s.p + 1, args, s.a + Takes(c))
            && Formatted(fmt, p, args, a)
                 == ConversionText(c, s, args) + Formatted(fmt, s.p + 1, args, s.a + Takes(c))
  {
    hide Parse, ConversionText;
  }

  lemma ValidPlain(fmt: seq<byte>, p: nat, args: seq<Arg>, a: nat)
    requires Valid(fmt, p, args, a) && p < |fmt| && fmt[p] != 37
    ensures Valid(fmt, p + 1, args, a)
    ensures Formatted(fmt, p, args, a) == [fmt[p]] + Formatted(fmt, p + 1, args, a)
  {}

  lemma FormatEnds(fmt: seq<byte>, args: seq<Arg>, a: nat)
    ensures Formatted(fmt, |fmt|, args, a) == []
  {}

  lemma Regrouped(s: seq<byte>, t: seq<byte>, u: seq<byte>)
    ensures s + (t + u) == s + t + u
  {}

  /** The whole of `_vsnprintf` with the buffer output function. */
  method Vsnprintf(buffer: array<byte>, maxlen: nat, fmt: seq<byte>, args: seq<Arg>) returns (idx: nat)
    requires maxlen <= buffer.Length && Valid(fmt, 0, args, 0)
    modifies buffer
    ensures var text := Formatted(fmt, 0, args, 0);
            idx == |text| && buffer[..] == Terminated(Emitted(old(buffer[..]), 0, maxlen, text), |text|, maxlen)
  {
    hide Emitted, Parse, ConversionText, Valid, Formatted, At, StrAt, Takes;
    idx := 0;
    var p: nat, a: nat := 0, 0;
    ghost var out: seq<byte> := [];
    EmitNothing(buffer[..], 0, maxlen);
    while p < |fmt|
      invariant p <= |fmt| && Valid(fmt, p, args, a) && idx == |out|
      invariant Formatted(fmt, 0, args, 0) == out + Formatted(fmt, p, args, a)
      invariant buffer[..] == Emitted(old(buffer[..]), 0, maxlen, out)
    {
      ghost var text;
      if fmt[p] != 37 {
        ValidPlain(fmt, p, args, a);
        text := [fmt[p]];
        OutBuffer(fmt[p], buffer, idx, maxlen);
        idx, p := idx + 1, p + 1;
      } else {
        ValidConversion(fmt, p, args, a);
        var s := Evaluate(fmt, p + 1, args, a);
        text := ConversionText(At(fmt, s.p), s, args);
        idx := Convert(At(fmt, s.p), s, args, buffer, idx, maxlen);
        p, a := s.p + 1, s.a + Takes(At(fmt, s.p));
      }
      EmitConcat(old(buffer[..]), 0, maxlen, out, text);
      Regrouped(out, text, Formatted(fmt, p, args, a));
      out := out + text;
    }
    FormatEnds(fmt, args, a);
    OutBuffer(0, buffer, if idx < maxlen then idx else Wrap(maxlen - 1), maxlen);
  }

  /** A buffer of count bytes or more after a text is printed into it: as much of the text as fits
      before the NUL, the NUL, and the old contents behind it. Nothing for a count of 0. */
  function Printed(b: seq<byte>, count: nat, text: seq<byte>): seq<byte>
    requires count <= |b|
  {
    if count == 0 then b
    else
      var n := if |text| < count then |text| else count - 1;
      text[..n] + [0] + b[n + 1..]
  }

  lemma ClippedText(b: seq<byte>, count: nat, text: seq<byte>)
    requires count <= |b| && count < TWO_32
    ensures Terminated(Emitted(b, 0, count, text), |text|, count) == Printed(b, count, text)
  {}

  /** `snprintf_` refines unbounded printing: the result is the length of the whole text whatever the
      count is, and the buffer, if there is one, receives as much of the text as fits. Without a buffer
      the null output function is used, which has no room at all. The length must be an `int`. */
  method Snprintf(buffer: array?<byte>, count: nat, fmt: seq<byte>, args: seq<Arg>) returns (ret: int)
    requires (buffer != null ==> count <= buffer.Length) && count < TWO_32
    requires Valid(fmt, 0, args, 0) && |Formatted(fmt, 0, args, 0)| < 0x8000_0000
    modifies buffer
    ensures ret == |Formatted(fmt, 0, args, 0)|
    ensures buffer != null ==> buffer[..] == Printed(old(buffer[..]), count, Formatted(fmt, 0, args, 0))
  {
    hide Valid, Formatted, Emitted, Printed, Terminated;
    var idx;
    if buffer == null {
      var none := new byte[0];
      idx := Vsnprintf(none, 0, fmt, args);
    } else {
      idx := Vsnprintf(buffer, count, fmt, args);
      ClippedText(old(buffer[..]), count, Formatted(fmt, 0, args, 0));
    }
    ret := Signed(idx, 32);
  }

  lemma ReadHexStep(s: seq<byte>, i: nat)
    requires i < |s|
    ensures var shifted := Wrap(ReadHex(s[..i]) * 16);
            ReadHex(s[..i + 1])
              == if 48 <= s[i] <= 57 then Wrap(shifted + (s[i] - 48))
                 else if 65 <= s[i] <= 70 then Wrap(shifted + (s[i] - 65 + 10))
                 else if 97 <= s[i] <= 102 then Wrap(shifted + (s[i] - 97 + 10))
                 else shifted
  {
    assert s[..i + 1][..i] == s[..i];
    WrapSum(ReadHex(s[..i]) * 16, DigitValue(s[i]));
    hide Wrap;
  }

  lemma WrapSum(x: nat, d: nat)
    ensures Wrap(Wrap(x) + d) == Wrap(x + d)
  {}

  /** `__read_hex`: every character of the string shifts the accumulator. */
  method ReadHexLoop(s: seq<byte>) returns (ptr: word)
    requires 0 !in s
    ensures ptr == ReadHex(s)
  {
    ptr := 0;
    var i := 0;
    while At(s, i) != 0
      invariant i <= |s| && ptr == ReadHex(s[..i])
      decreases |s| - i
    {
      ReadHexStep(s, i);
      hide ReadHex, DigitValue, At, Wrap;
      ptr := Wrap(ptr * 16);
      if 48 <= s[i] <= 57 {
        ptr := Wrap(ptr + (s[i] - 48));
      } else if 65 <= s[i] <= 70 {
        ptr := Wrap(ptr + (s[i] - 65 + 10));
      } else if 97 <= s[i] <= 102 {
        ptr := Wrap(ptr + (s[i] - 97 + 10));
      }
      i := i + 1;
    }
    assert s[..i] == s;
  }
}
