/** A format printed piece by piece: which argument each conversion of a whole format prints. */
module PrintfRuns {
  import opened Words
  import opened Seqs
  import opened Printf
  import opened PrintfLaws
  import opened PrintfParse

  // ---- The rest of a format is a format ----

  /** What stands behind the first k places of s. */
  predicate Behind<T(==)>(s: seq<T>, k: nat, rest: seq<T>) {
    |s| == k + |rest| && forall i :: 0 <= i < |rest| ==> s[k + i] == rest[i]
  }

  lemma SameAt(s: seq<byte>, k: nat, rest: seq<byte>, p: nat)
    requires Behind(s, k, rest)
    ensures At(s, k + p) == At(rest, p) && (k + p < |s| <==> p < |rest|)
  {}

  lemma SameArgument(args: seq<Arg>, b: nat, rest: seq<Arg>, a: nat)
    requires Behind(args, b, rest)
    ensures WordAt(args, b + a) == WordAt(rest, a) && StrAt(args, b + a) == StrAt(rest, a)
  {}

  lemma {:induction false} FlagsBehind(s: seq<byte>, k: nat, rest: seq<byte>, p: nat, f: Flags)
    requires Behind(s, k, rest)
    ensures var (g, q) := ParseFlags(rest, p, f); ParseFlags(s, k + p, f) == (g, k + q)
    decreases |rest| - p
  {
    hide Behind, WithFlag, IsFlag, At;
    SameAt(s, k, rest, p);
    AtIs(s, k + p);
    AtIs(rest, p);
    if p < |rest| && IsFlag(rest[p]) {
      FlagsBehind(s, k, rest, p + 1, WithFlag(f, rest[p]));
    }
  }

  lemma {:induction false} NumberBehind(s: seq<byte>, k: nat, rest: seq<byte>, p: nat, n: word)
    requires Behind(s, k, rest)
    ensures var (m, q) := ParseNumber(rest, p, n); ParseNumber(s, k + p, n) == (m, k + q)
    decreases |rest| - p
  {
    hide Behind, Wrap, At;
    SameAt(s, k, rest, p);
    AtIs(s, k + p);
    AtIs(rest, p);
    if p < |rest| && IsDigit(rest[p]) {
      NumberBehind(s, k, rest, p + 1, Wrap(n * 10 + (rest[p] - 48)));
    }
  }

  /** The same specification, k characters and b arguments further on. */
  function Later(t: Spec, k: nat, b: nat): Spec {
    t.(p := k + t.p, a := b + t.a)
  }

  lemma WidthBehind(s: seq<byte>, k: nat, rest: seq<byte>, args: seq<Arg>, b: nat, others: seq<Arg>, t: Spec)
    requires Behind(s, k, rest) && Behind(args, b, others)
    ensures ParseWidth(s, args, Later(t, k, b)) == Later(ParseWidth(rest, others, t), k, b)
  {
    SameAt(s, k, rest, t.p);
    SameArgument(args, b, others, t.a);
    NumberBehind(s, k, rest, t.p, 0);
    hide Behind, At, WordAt, ParseNumber, Signed, IsDigit;
  }

  lemma PrecisionBehind(s: seq<byte>, k: nat, rest: seq<byte>, args: seq<Arg>, b: nat, others: seq<Arg>, t: Spec)
    requires Behind(s, k, rest) && Behind(args, b, others)
    ensures ParsePrecision(s, args, Later(t, k, b)) == Later(ParsePrecision(rest, others, t), k, b)
  {
    hide Behind, At, WordAt, ParseNumber, Signed, IsDigit, ParsePrecision;
    SameAt(s, k, rest, t.p);
    SameAt(s, k, rest, t.p + 1);
    SameArgument(args, b, others, t.a);
    NumberBehind(s, k, rest, t.p + 1, 0);
    PrecisionRead(s, args, Later(t, k, b));
    PrecisionRead(rest, others, t);
  }

  lemma PrecisionRead(s: seq<byte>, args: seq<Arg>, t: Spec)
    ensures var (n, q) := ParseNumber(s, t.p + 1, 0); var w := Signed(WordAt(args, t.a), 32);
            var f := t.flags.(precision := true);
            ParsePrecision(s, args, t) ==
              if At(s, t.p) != 46 then t
              else if IsDigit(At(s, t.p + 1)) then t.(flags := f, prec := n, p := q)
              else if At(s, t.p + 1) == 42 then
                t.(flags := f, prec := if w > 0 then w else 0, p := t.p + 2, a := t.a + 1)
              else t.(flags := f, p := t.p + 1)
  {
    hide At, WordAt, ParseNumber, Signed, IsDigit;
  }

  lemma LengthBehind(s: seq<byte>, k: nat, rest: seq<byte>, b: nat, t: Spec)
    requires Behind(s, k, rest)
    ensures ParseLength(s, Later(t, k, b)) == Later(ParseLength(rest, t), k, b)
  {
    hide Behind, At, LengthFlags, LengthSize;
    SameAt(s, k, rest, t.p);
    SameAt(s, k, rest, t.p + 1);
  }

  lemma ParseBehind(s: seq<byte>, k: nat, rest: seq<byte>, p: nat, args: seq<Arg>, b: nat, others: seq<Arg>, a: nat)
    requires Behind(s, k, rest) && Behind(args, b, others) && p <= |rest|
    ensures Parse(s, k + p, args, b + a) == Later(Parse(rest, p, others, a), k, b)
  {
    hide Behind, ParseFlags, ParseWidth, ParsePrecision, ParseLength, Later;
    FlagsBehind(s, k, rest, p, NO_FLAGS);
    var (f, q) := ParseFlags(rest, p, NO_FLAGS);
    var t0 := Spec(f, 0, 0, q, a);
    StartLater(f, q, a, k, b);
    WidthBehind(s, k, rest, args, b, others, t0);
    var t1 := ParseWidth(rest, others, t0);
    PrecisionBehind(s, k, rest, args, b, others, t1);
    LengthBehind(s, k, rest, b, ParsePrecision(rest, others, t1));
  }

  lemma StartLater(f: Flags, q: nat, a: nat, k: nat, b: nat)
    ensures Later(Spec(f, 0, 0, q, a), k, b) == Spec(f, 0, 0, k + q, b + a)
  {}

  /** What a conversion prints of its flags, width, precision and argument. */
  lemma TextBehind(c: byte, t: Spec, args: seq<Arg>, u: Spec, others: seq<Arg>)
    requires t.flags == u.flags && t.width == u.width && t.prec == u.prec
    requires WordAt(args, t.a) == WordAt(others, u.a) && StrAt(args, t.a) == StrAt(others, u.a)
    ensures ConversionText(c, t, args) == ConversionText(c, u, others)
  {
    hide NumberText, IntegerValue, IntegerFlags, BaseOf, WordAt, StrAt;
  }

  /** From any place on, a format prints what its rest alone prints with the arguments that are left. */
  lemma {:induction false} RestAlone(s: seq<byte>, k: nat, rest: seq<byte>, p: nat,
                                     args: seq<Arg>, b: nat, others: seq<Arg>, a: nat)
    requires Behind(s, k, rest) && Behind(args, b, others)
    ensures Formatted(s, k + p, args, b + a) == Formatted(rest, p, others, a)
    decreases |rest| - p
  {
    hide Formatted, Behind, Parse, ConversionText, Takes, At, WordAt, StrAt, Later;
    SameAt(s, k, rest, p);
    AtIs(s, k + p);
    AtIs(rest, p);
    Unfold(s, k + p, args, b + a);
    Unfold(rest, p, others, a);
    if p < |rest| {
      if rest[p] != 37 {
        RestAlone(s, k, rest, p + 1, args, b, others, a);
      } else {
        var t := Parse(rest, p + 1, others, a);
        ParseBehind(s, k, rest, p + 1, args, b, others, a);
        ConversionBehind(s, k, rest, args, b, others, t);
        RestAlone(s, k, rest, t.p + 1, args, b, others, t.a + Takes(At(rest, t.p)));
      }
    }
  }

  /** A conversion prints the same k characters and b arguments further on. */
  lemma ConversionBehind(s: seq<byte>, k: nat, rest: seq<byte>, args: seq<Arg>, b: nat, others: seq<Arg>, t: Spec)
    requires Behind(s, k, rest) && Behind(args, b, others)
    ensures var u := Later(t, k, b); var c := At(rest, t.p);
            && At(s, u.p) == c && u.p == k + t.p && u.a == b + t.a
            && ConversionText(c, u, args) == ConversionText(c, t, others)
  {
    hide Behind, ConversionText, At, WordAt, StrAt;
    SameAt(s, k, rest, t.p);
    SameArgument(args, b, others, t.a);
    TextBehind(At(rest, t.p), Later(t, k, b), args, t, others);
  }

  /** What is printed from a place on: nothing at the end, a character, or a conversion. */
  lemma Unfold(s: seq<byte>, p: nat, args: seq<Arg>, a: nat)
    ensures Formatted(s, p, args, a) ==
            if p >= |s| then []
            else if s[p] != 37 then [s[p]] + Formatted(s, p + 1, args, a)
            else
              var t := Parse(s, p + 1, args, a);
              var c := At(s, t.p);
              ConversionText(c, t, args) + Formatted(s, t.p + 1, args, t.a + Takes(c))
  {
    hide Parse, ConversionText, Takes, At;
  }

  // ---- Pieces of a format ----

  /** A character that is printed as it is, or a conversion: its specification and its character. */
  datatype Piece = Lit(ch: byte) | Conv(spec: Written, c: byte)

  /** The character ends the specification, and does not make it a `long long` integer. */
  predicate Completes(t: Written, c: byte) {
    && c != 0 && Ends(c)
    && (t.length.LongLong? || t.length.IntMax? ==> !IsInteger(c))
  }

  predicate WellFormed(x: Piece) {
    match x
    case Lit(ch) => ch != 0 && ch != 37
    case Conv(t, c) => WellWritten(t) && Completes(t, c)
  }

  function Source(x: Piece): (s: seq<byte>)
    ensures s != []
  {
    match x
    case Lit(ch) => [ch]
    case Conv(t, c) => [37] + (TextOf(t) + [c])
  }

  /** The conversions that print an argument: d, i, u, x, X, o, b, c, s and p. */
  predicate PrintsArgument(c: byte) {
    c in {100, 105, 117, 120, 88, 111, 98, 99, 115, 112}
  }

  /** How many arguments a piece takes: one for each star, and its own. */
  function Arguments(x: Piece): nat {
    match x
    case Lit(_) => 0
    case Conv(t, c) => Stars(t.width) + Stars(t.prec) + if PrintsArgument(c) then 1 else 0
  }

  /** What a piece prints as a format of its own, with its own arguments. */
  function Alone(x: Piece, args: seq<Arg>): seq<byte> {
    Formatted(Source(x), 0, args, 0)
  }

  lemma FirstOf(args: seq<Arg>, n: nat, a: nat)
    requires a < n <= |args|
    ensures WordAt(args, a) == WordAt(args[..n], a) && StrAt(args, a) == StrAt(args[..n], a)
  {}

  /** The specification is read the same way alone and in front of more. */
  lemma SameMeaning(t: Written, c: byte, args: seq<Arg>)
    requires Arguments(Conv(t, c)) <= |args|
    ensures var own := args[..Arguments(Conv(t, c))]; var m, n := Meaning(t, 1, args, 0), Meaning(t, 1, own, 0);
            m == n && ConversionText(c, m, args) == ConversionText(c, n, own)
  {
    var k := Arguments(Conv(t, c));
    var own := args[..k];
    forall a | 0 <= a < k ensures WordAt(args, a) == WordAt(own, a) && StrAt(args, a) == StrAt(own, a) {
      FirstOf(args, k, a);
    }
    hide WordAt, StrAt, TextOf, Signed;
    assert Meaning(t, 1, args, 0) == Meaning(t, 1, own, 0);
    hide ConversionText;
    if PrintsArgument(c) {
      TextBehind(c, Meaning(t, 1, args, 0), args, Meaning(t, 1, own, 0), own);
    } else {
      PrintsNothing(c, Meaning(t, 1, args, 0), args);
      PrintsNothing(c, Meaning(t, 1, own, 0), own);
    }
  }

  lemma PrintsNothing(c: byte, t: Spec, args: seq<Arg>)
    requires !PrintsArgument(c)
    ensures ConversionText(c, t, args) == [c]
  {}

  lemma TakesIt(c: byte)
    ensures Takes(c) == if PrintsArgument(c) then 1 else 0
  {}

  lemma ConvHolds(t: Written, c: byte, rest: seq<byte>)
    ensures var s := [37] + (TextOf(t) + [c]) + rest;
            s[0] == 37 && Holds(s, 1, TextOf(t) + [c]) && |s| == |TextOf(t)| + 2 + |rest|
  {
    hide TextOf;
    var s, u := [37] + (TextOf(t) + [c]) + rest, TextOf(t) + [c];
    forall i | 0 <= i < |u| ensures s[1 + i] == u[i] {}
  }

  /** A conversion at the start of a format, parsed. */
  lemma ConvFirst(t: Written, c: byte, rest: seq<byte>, args: seq<Arg>)
    requires WellWritten(t) && Ends(c)
    ensures var s := [37] + (TextOf(t) + [c]) + rest;
            Formatted(s, 0, args, 0)
              == ConversionText(c, Meaning(t, 1, args, 0), args)
                 + Formatted(s, |TextOf(t)| + 2, args, Arguments(Conv(t, c)))
  {
    hide *;
    ConvHolds(t, c, rest);
    var s := [37] + (TextOf(t) + [c]) + rest;
    ParsesBack(s, 1, t, c, args, 0);
    MeaningEnds(t, c, args);
    TakesIt(c);
    Unfold(s, 0, args, 0);
  }

  lemma MeaningEnds(t: Written, c: byte, args: seq<Arg>)
    ensures var m := Meaning(t, 1, args, 0);
            m.p == 1 + |TextOf(t)| && m.a + (if PrintsArgument(c) then 1 else 0) == Arguments(Conv(t, c))
  {
    hide TextOf, Signed, WordAt;
  }

  /** What a conversion prints as a format of its own. */
  lemma AloneIs(t: Written, c: byte, args: seq<Arg>)
    requires WellWritten(t) && Ends(c)
    ensures Alone(Conv(t, c), args) == ConversionText(c, Meaning(t, 1, args, 0), args)
  {
    hide Formatted, ConversionText, Meaning, TextOf, Ends, WellWritten, Arguments;
    EmptyLast([37] + (TextOf(t) + [c]));
    ConvFirst(t, c, [], args);
    Ended(Source(Conv(t, c)), |TextOf(t)| + 2, args, Arguments(Conv(t, c)));
    EmptyLast(ConversionText(c, Meaning(t, 1, args, 0), args));
  }

  /** A piece, and what stands behind it: the piece prints its own arguments, the first ones, as it would
      alone, and the rest of the format prints the arguments behind them, as it would alone. */
  lemma PieceThenRest(x: Piece, rest: seq<byte>, args: seq<Arg>)
    requires WellFormed(x) && Arguments(x) <= |args|
    ensures var n := Arguments(x);
            Formatted(Source(x) + rest, 0, args, 0) == Alone(x, args[..n]) + Formatted(rest, 0, args[n..], 0)
  {
    hide Formatted, Alone, Behind, Ends, WellWritten, Arguments, Source;
    var n := Arguments(x);
    RestBehind(Source(x), rest, args, n);
    RestAlone(Source(x) + rest, |Source(x)|, rest, 0, args, n, args[n..], 0);
    match x
    case Lit(ch) => LitAlone(ch, rest, args);
    case Conv(t, c) => ConvAlone(t, c, rest, args);
  }

  lemma RestBehind(s: seq<byte>, rest: seq<byte>, args: seq<Arg>, n: nat)
    requires n <= |args|
    ensures Behind(s + rest, |s|, rest) && Behind(args, n, args[n..])
  {}

  lemma ConvAlone(t: Written, c: byte, rest: seq<byte>, args: seq<Arg>)
    requires WellWritten(t) && Ends(c) && Arguments(Conv(t, c)) <= |args|
    ensures var x := Conv(t, c); var n := Arguments(x);
            && Formatted(Source(x) + rest, 0, args, 0)
               == Alone(x, args[..n]) + Formatted(Source(x) + rest, |Source(x)|, args, n)
  {
    hide Alone, Formatted, ConversionText, Meaning, TextOf, Ends, WellWritten, Arguments;
    ConvFirst(t, c, rest, args);
    AloneIs(t, c, args[..Arguments(Conv(t, c))]);
    SameMeaning(t, c, args);
  }

  lemma LitAlone(ch: byte, rest: seq<byte>, args: seq<Arg>)
    requires ch != 0 && ch != 37
    ensures var x := Lit(ch);
            && Arguments(x) == 0 && |Source(x)| == 1
            && Formatted(Source(x) + rest, 0, args, 0)
               == Alone(x, args[..0]) + Formatted(Source(x) + rest, 1, args, 0)
  {
    assert ([ch] + rest)[0] == ch;
    Ended([ch], 1, args[..0], 0);
    EmptyLast([ch]);
  }

  lemma Ended(s: seq<byte>, p: nat, args: seq<Arg>, a: nat)
    requires p >= |s|
    ensures Formatted(s, p, args, a) == []
  {}

  lemma EmptyLast(s: seq<byte>)
    ensures s + [] == s
  {}

  // ---- Whole formats ----

  function FormatOf(pieces: seq<Piece>): seq<byte> {
    if pieces == [] then [] else Source(pieces[0]) + FormatOf(pieces[1..])
  }

  /** How many arguments a format takes. */
  function AllArguments(pieces: seq<Piece>): nat {
    if pieces == [] then 0 else Arguments(pieces[0]) + AllArguments(pieces[1..])
  }

  /** Every piece alone, one after the other: each with the arguments behind those of the pieces before. */
  function Printed(pieces: seq<Piece>, args: seq<Arg>): seq<byte>
    requires AllArguments(pieces) <= |args|
    decreases |pieces|
  {
    if pieces == [] then []
    else
      var n := Arguments(pieces[0]);
      Alone(pieces[0], args[..n]) + Printed(pieces[1..], args[n..])
  }

  /** Each conversion prints its own argument. A format of any pieces, stars and all, prints what the pieces
      print one by one: the k-th conversion the k-th argument where no piece has a star, and where some
      do, the argument behind those that the stars take. */
  lemma {:induction false} EachPrintsItsOwn(pieces: seq<Piece>, args: seq<Arg>)
    requires (forall i :: 0 <= i < |pieces| ==> WellFormed(pieces[i])) && AllArguments(pieces) <= |args|
    ensures Formatted(FormatOf(pieces), 0, args, 0) == Printed(pieces, args)
    decreases |pieces|
  {
    if pieces != [] {
      hide Formatted, Alone, Source, WellFormed, Arguments;
      assert forall i :: 0 <= i < |pieces[1..]| ==> pieces[1..][i] == pieces[i + 1];
      var n := Arguments(pieces[0]);
      PieceThenRest(pieces[0], FormatOf(pieces[1..]), args);
      EachPrintsItsOwn(pieces[1..], args[n..]);
    }
  }

  // ---- Labels and values ----

  /** A label, and a conversion without stars that prints an argument. */
  datatype Entry = Entry(name: seq<byte>, spec: Written, c: byte)

  predicate IsEntry(e: Entry) {
    && 37 !in e.name && 0 !in e.name && WellWritten(e.spec) && Completes(e.spec, e.c)
    && !e.spec.width.Star? && !e.spec.prec.Star? && PrintsArgument(e.c)
  }

  function EntriesFormat(entries: seq<Entry>): seq<byte> {
    if entries == [] then []
    else entries[0].name + (Source(Conv(entries[0].spec, entries[0].c)) + EntriesFormat(entries[1..]))
  }

  /** Every name, and behind it what its conversion prints of one argument: the k-th of the k-th. */
  function EntriesText(entries: seq<Entry>, args: seq<Arg>, k: nat): seq<byte>
    requires k <= |entries| == |args|
    decreases |entries| - k
  {
    if k == |entries| then []
    else entries[k].name + (Alone(Conv(entries[k].spec, entries[k].c), [args[k]]) + EntriesText(entries, args, k + 1))
  }

  lemma LitThenRest(ch: byte, rest: seq<byte>, args: seq<Arg>)
    requires ch != 0 && ch != 37
    ensures Formatted([ch] + rest, 0, args, 0) == [ch] + Formatted(rest, 0, args, 0)
  {
    hide Alone, Formatted;
    PieceThenRest(Lit(ch), rest, args);
    assert args[0..] == args;
    AloneLit(ch, args[..0]);
  }

  lemma {:induction false} NameThenRest(name: seq<byte>, rest: seq<byte>, args: seq<Arg>)
    requires 37 !in name && 0 !in name
    ensures Formatted(name + rest, 0, args, 0) == name + Formatted(rest, 0, args, 0)
    decreases |name|
  {
    hide Formatted;
    if name == [] {
      EmptyFirst(rest);
      EmptyFirst(Formatted(rest, 0, args, 0));
    } else {
      Grouped(name, rest);
      Grouped(name, Formatted(rest, 0, args, 0));
      LitThenRest(name[0], name[1..] + rest, args);
      NameThenRest(name[1..], rest, args);
    }
  }

  lemma Grouped(s: seq<byte>, t: seq<byte>)
    requires s != []
    ensures s + t == [s[0]] + (s[1..] + t)
  {}

  lemma AloneLit(ch: byte, args: seq<Arg>)
    requires ch != 0 && ch != 37
    ensures Alone(Lit(ch), args) == [ch]
  {
    Ended([ch], 1, args, 0);
    EmptyLast([ch]);
  }

  lemma EmptyFirst(s: seq<byte>)
    ensures [] + s == s
  {}

  /** One label and one conversion in front of a format. */
  lemma EntryThenRest(e: Entry, rest: seq<byte>, args: seq<Arg>)
    requires IsEntry(e) && args != []
    ensures Formatted(e.name + (Source(Conv(e.spec, e.c)) + rest), 0, args, 0)
         == e.name + (Alone(Conv(e.spec, e.c), [args[0]]) + Formatted(rest, 0, args[1..], 0))
  {
    OneArgument(e);
    hide Formatted, Alone, Source, IsEntry, WellFormed, Arguments;
    NameThenRest(e.name, Source(Conv(e.spec, e.c)) + rest, args);
    PieceThenRest(Conv(e.spec, e.c), rest, args);
    assert args[..1] == [args[0]];
  }

  lemma OneArgument(e: Entry)
    requires IsEntry(e)
    ensures WellFormed(Conv(e.spec, e.c)) && Arguments(Conv(e.spec, e.c)) == 1 && 37 !in e.name && 0 !in e.name
  {}

  /** The k-th conversion prints the k-th argument, whatever stands between them. */
  lemma {:induction false} KthPrintsKth(entries: seq<Entry>, args: seq<Arg>, k: nat)
    requires k <= |entries| == |args| && forall i :: 0 <= i < |entries| ==> IsEntry(entries[i])
    ensures Formatted(EntriesFormat(entries[k..]), 0, args[k..], 0) == EntriesText(entries, args, k)
    decreases |entries| - k
  {
    hide Formatted, Alone, Source, IsEntry;
    if k == |entries| {
      Ended([], 0, args[k..], 0);
    } else {
      var later, left := entries[k..], args[k..];
      assert later[0] == entries[k] && later[1..] == entries[k + 1..];
      assert left[0] == args[k] && left[1..] == args[k + 1..];
      EntryThenRest(entries[k], EntriesFormat(entries[k + 1..]), left);
      KthPrintsKth(entries, args, k + 1);
    }
  }

  /** %% prints a percent sign, and any other character that ends a specification itself; neither takes an
      argument. */
  lemma OthersPrintThemselves(t: Written, c: byte, args: seq<Arg>)
    requires WellFormed(Conv(t, c)) && !PrintsArgument(c) && Arguments(Conv(t, c)) <= |args|
    ensures Alone(Conv(t, c), args) == [c]
  {
    hide Alone, ConversionText, Meaning, Ends, WellWritten, Arguments, PrintsArgument;
    AloneIs(t, c, args);
    PrintsNothing(c, Meaning(t, 1, args, 0), args);
  }
}
