/** The key table and the line editor in characters: what each key types, what ends a line, what is
    ignored, what is shown, and that a typed line is read. */
module KeyboardLaws {
  import opened Words
  import opened Keyboard
  import opened Console
  import opened ConsoleText

  // ---- The key table ----

  predicate Types(sc: byte, c: char) {
    CharOf(sc) == c as int
  }

  /** The digits. */
  lemma DigitKeys()
    ensures Types(2, '1') && Types(3, '2') && Types(4, '3') && Types(5, '4') && Types(6, '5') &&
            Types(7, '6') && Types(8, '7') && Types(9, '8') && Types(10, '9') && Types(11, '0') &&
            Types(12, '-') && Types(13, '=')
  {
    assert LETTERS[2] == '1' && LETTERS[3] == '2' && LETTERS[4] == '3' && LETTERS[5] == '4' &&
           LETTERS[6] == '5' && LETTERS[7] == '6' && LETTERS[8] == '7' && LETTERS[9] == '8' &&
           LETTERS[10] == '9' && LETTERS[11] == '0' && LETTERS[12] == '-' && LETTERS[13] == '=';
  }

  /** The row from Q, lower-case only. */
  lemma TopKeys()
    ensures Types(16, 'q') && Types(17, 'w') && Types(18, 'e') && Types(19, 'r') && Types(20, 't') &&
            Types(21, 'y') && Types(22, 'u') && Types(23, 'i') && Types(24, 'o') && Types(25, 'p') &&
            Types(26, '[') && Types(27, ']')
  {
    assert LETTERS[16] == 'q' && LETTERS[17] == 'w' && LETTERS[18] == 'e' && LETTERS[19] == 'r' &&
           LETTERS[20] == 't' && LETTERS[21] == 'y' && LETTERS[22] == 'u' && LETTERS[23] == 'i' &&
           LETTERS[24] == 'o' && LETTERS[25] == 'p' && LETTERS[26] == '[' && LETTERS[27] == ']';
  }

  /** The row from A. */
  lemma MiddleKeys()
    ensures Types(30, 'a') && Types(31, 's') && Types(32, 'd') && Types(33, 'f') && Types(34, 'g') &&
            Types(35, 'h') && Types(36, 'j') && Types(37, 'k') && Types(38, 'l') && Types(39, ';') &&
            Types(40, '\'') && Types(41, '`')
  {
    assert LETTERS[30] == 'a' && LETTERS[31] == 's' && LETTERS[32] == 'd' && LETTERS[33] == 'f' &&
           LETTERS[34] == 'g' && LETTERS[35] == 'h' && LETTERS[36] == 'j' && LETTERS[37] == 'k' &&
           LETTERS[38] == 'l' && LETTERS[39] == ';' && LETTERS[40] == '\'' && LETTERS[41] == '`';
  }

  /** The row from the backslash. */
  lemma BottomKeys()
    ensures Types(43, '\\') && Types(44, 'z') && Types(45, 'x') && Types(46, 'c') && Types(47, 'v') &&
            Types(48, 'b') && Types(49, 'n') && Types(50, 'm') && Types(51, ',') && Types(52, '.') &&
            Types(53, '/')
  {
    assert LETTERS[43] == '\\' && LETTERS[44] == 'z' && LETTERS[45] == 'x' && LETTERS[46] == 'c' &&
           LETTERS[47] == 'v' && LETTERS[48] == 'b' && LETTERS[49] == 'n' && LETTERS[50] == 'm' &&
           LETTERS[51] == ',' && LETTERS[52] == '.' && LETTERS[53] == '/';
  }

  /** The other keys: backspace, tab and Enter type 8, 9 and 10; Control, Shift, Alt and the lock keys type
      nothing; the minus and the plus of the number pad type 4 and 2. */
  lemma OtherKeys(sc: byte)
    ensures CharOf(14) == 8 && CharOf(15) == 9 && CharOf(28) == 10
    ensures CharOf(29) == CharOf(42) == CharOf(54) == CharOf(56) == CharOf(58) == CharOf(69) == CharOf(70) == 0
    ensures Types(55, '*') && Types(57, ' ') && Types(74, '4') && Types(78, '2')
    ensures sc == 0 || sc > 82 ==> CharOf(sc) == 0
  {
    assert LETTERS[14] == '\U{08}' && LETTERS[15] == '\t' && LETTERS[28] == '\n' && LETTERS[57] == ' ';
    assert LETTERS[29] == LETTERS[42] == LETTERS[54] == LETTERS[56] == '\0';
    assert LETTERS[58] == LETTERS[69] == LETTERS[70] == '\0';
    assert LETTERS[0] == '\0' && |LETTERS| == 83;
  }

  /** Exactly escape, F1 to F10 and the digits of the number pad, with its point, are not characters. */
  lemma SpecialKeys(sc: byte)
    ensures CharOf(sc) < 0 <==> sc == 1 || 59 <= sc <= 68 || 71 <= sc <= 73 || 75 <= sc <= 77 || 79 <= sc <= 82
    ensures Special(sc) != 0 <==> CharOf(sc) < 0
  {}

  // ---- The line editor ----

  /** A call returns if and only if a newline has come. */
  lemma {:induction false} DoneExactly(r: Reader, input: seq<int>, count: nat)
    ensures FeedAll(r, input, count).done <==> r.done || 10 in input
    decreases |input|
  {
    if input != [] {
      DoneExactly(Feed(r, input[0], count), input[1..], count);
      assert 10 in input <==> input[0] == 10 || 10 in input[1..];
    }
  }

  /** The results above 0: end of file, special keys and keys without a character are left out. */
  function Positive(input: seq<int>): seq<int>
    decreases |input|
  {
    if input == [] then []
    else (if input[0] > 0 then [input[0]] else []) + Positive(input[1..])
  }

  /** Results of 0 and below change nothing: not the text, not the echo, not whether the line has ended. */
  lemma {:induction false} OthersAreIgnored(r: Reader, input: seq<int>, count: nat)
    ensures FeedAll(r, input, count) == FeedAll(r, Positive(input), count)
    decreases |input|
  {
    if input != [] {
      var rest := Positive(input[1..]);
      OthersAreIgnored(Feed(r, input[0], count), input[1..], count);
      if input[0] > 0 {
        assert ([input[0]] + rest)[1..] == rest;
      } else {
        assert Positive(input) == rest;
      }
    }
  }

  lemma {:induction false} FeedConcat(r: Reader, a: seq<int>, b: seq<int>, count: nat)
    ensures FeedAll(r, a + b, count) == FeedAll(FeedAll(r, a, count), b, count)
    decreases |a|
  {
    if a == [] {
      assert a + b == b;
    } else {
      assert (a + b)[1..] == a[1..] + b;
      FeedConcat(Feed(r, a[0], count), a[1..], b, count);
    }
  }

  /** What is read does not depend on what has been echoed. */
  lemma {:induction false} EchoIsOnlyShown(r: Reader, q: Reader, input: seq<int>, count: nat)
    requires r.text == q.text && r.done == q.done
    ensures FeedAll(r, input, count).text == FeedAll(q, input, count).text
    ensures FeedAll(r, input, count).done == FeedAll(q, input, count).done
    decreases |input|
  {
    if input != [] {
      EchoIsOnlyShown(Feed(r, input[0], count), Feed(q, input[0], count), input[1..], count);
    }
  }

  lemma {:induction false} NeverLonger(r: Reader, input: seq<int>, count: nat)
    ensures |FeedAll(r, input, count).text| <= |r.text| + |input|
    ensures |r.text| <= count ==> |FeedAll(r, input, count).text| <= count
    decreases |input|
  {
    if input != [] { NeverLonger(Feed(r, input[0], count), input[1..], count); }
  }

  /** A character and the backspace behind it cancel out wherever they stand, while there is room. */
  lemma PairsCancel(r: Reader, before: seq<int>, c: int, after: seq<int>, count: nat)
    requires 0 < c < 256 && c != 8 && c != 10 && |r.text| + |before| < count
    ensures var x, y := FeedAll(r, before + [c, 8] + after, count), FeedAll(r, before + after, count);
            x.text == y.text && x.done == y.done
  {
    var f := FeedAll(r, before, count);
    NeverLonger(r, before, count);
    FeedConcat(r, before + [c, 8], after, count);
    FeedConcat(r, before, [c, 8], count);
    FeedConcat(r, before, after, count);
    var g := FeedAll(f, [c, 8], count);
    if f.done {
      DoneIgnores(f, [c, 8], count);
    } else {
      BackspaceUndoes(f, c, count);
      DoneExactly(f, [c, 8], count);
    }
    EchoIsOnlyShown(g, f, after, count);
  }

  /** A backspace takes the last character off; at the start of a line it does nothing at all. */
  lemma BackspaceExactly(r: Reader, count: nat)
    requires !r.done
    ensures var q := FeedAll(r, [8], count);
            if r.text == [] then q == r else q == Reader(r.text[..|r.text| - 1], r.echo + [8, 32, 8], false)
  {
    assert FeedAll(Feed(r, 8, count), [8][1..], count) == Feed(r, 8, count);
  }

  // ---- What is shown of a line ----

  /** Cell j after a line has been edited from cell s.cur of s on, with at most count characters: the text,
      or in the rest of the line what was there or a blank, or elsewhere what was there. */
  predicate CellEchoed(s: Screen, t: Screen, text: seq<byte>, count: nat, rev: bool, j: nat)
    requires j < 2000
  {
    var k := Place(j, rev) - s.cur;
    if 0 <= k < |text| then Displays(t.cells[j], text[k])
    else t.cells[j] == s.cells[j] || (0 <= k < count && Displays(t.cells[j], 32))
  }

  /** The screen shows the line that is being edited, with the cursor behind its text. */
  ghost predicate LineShown(s: Screen, t: Screen, text: seq<byte>, count: nat, rev: bool) {
    && t.cur == s.cur + |text|
    && |text| <= count
    && forall j: nat | j < 2000 :: CellEchoed(s, t, text, count, rev, j)
  }

  /** Keys that show: visible characters, backspaces, newlines, and those that are ignored. */
  predicate Showable(input: seq<int>) {
    forall i :: 0 <= i < |input| ==>
      input[i] <= 0 || input[i] == 8 || input[i] == 10 || (input[i] < 256 && Visible(input[i]))
  }

  lemma CharShown(s: Screen, t: Screen, text: seq<byte>, c: byte, count: nat, rev: bool)
    requires s.cur + count < 1920 && LineShown(s, t, text, count, rev) && |text| < count && Visible(c)
    ensures LineShown(s, Put(t, c, rev), text + [c], count, rev)
  {
    hide Displays, Place, Put, Visible;
    NextCell(t, c, rev);
    PlaceTwice(t.cur, rev);
    forall j: nat | j < 2000 ensures CellEchoed(s, Put(t, c, rev), text + [c], count, rev, j) {
      assert CellEchoed(s, t, text, count, rev, j);
      PlaceTwice(j, rev);
    }
  }

  /** Backspace, blank, backspace: the last character is gone. */
  lemma RubbedOut(s: Screen, t: Screen, text: seq<byte>, count: nat, rev: bool)
    requires s.cur + count < 1920 && LineShown(s, t, text, count, rev) && text != []
    ensures LineShown(s, Put(Put(Put(t, 8, rev), 32, rev), 8, rev), text[..|text| - 1], count, rev)
  {
    hide Displays, Place, Put, Visible;
    var left, t1 := text[..|text| - 1], Put(t, 8, rev);
    var t2 := Put(t1, 32, rev);
    var t3 := Put(t2, 8, rev);
    StepBack(t, rev);
    assert Visible(32) by { VisibleBlank(); }
    NextCell(t1, 32, rev);
    StepBack(t2, rev);
    PlaceTwice(t1.cur, rev);
    forall j: nat | j < 2000 ensures CellEchoed(s, t3, left, count, rev, j) {
      assert CellEchoed(s, t, text, count, rev, j);
      PlaceTwice(j, rev);
    }
  }

  lemma VisibleBlank()
    ensures Visible(32)
  {}

  lemma StepBack(t: Screen, rev: bool)
    requires t.cur > 0
    ensures Put(t, 8, rev) == Screen(t.cells, t.cur - 1)
  {}

  lemma {:induction false} PutConcat(s: Screen, a: seq<byte>, b: seq<byte>, rev: bool)
    ensures PutAll(s, a + b, rev) == PutAll(PutAll(s, a, rev), b, rev)
    decreases |a|
  {
    if a == [] {
      assert a + b == b;
    } else {
      assert (a + b)[1..] == a[1..] + b;
      PutConcat(Put(s, a[0], rev), a[1..], b, rev);
    }
  }

  lemma PutOne(s: Screen, a: byte, rev: bool)
    ensures PutAll(s, [a], rev) == Put(s, a, rev)
  {
    assert [a][1..] == [];
  }

  lemma PutThree(s: Screen, rev: bool)
    ensures PutAll(s, [8, 32, 8], rev) == Put(Put(Put(s, 8, rev), 32, rev), 8, rev)
  {
    assert [8, 32, 8] == [8] + ([32] + [8]);
    PutConcat(s, [8], [32] + [8], rev);
    PutConcat(Put(s, 8, rev), [32], [8], rev);
    PutOne(s, 8, rev);
    PutOne(Put(s, 8, rev), 32, rev);
    PutOne(Put(Put(s, 8, rev), 32, rev), 8, rev);
  }

  /** The screen after a call: the line as it is being edited, or, once it has ended, as it was read, with
      the cursor at the start of the next row. */
  ghost predicate ReaderShown(s: Screen, t: Screen, r: Reader, count: nat, rev: bool) {
    if r.done then
      && |r.text| <= count
      && t.cur == 80 * ((s.cur + |r.text|) / 80 + 1)
      && forall j: nat | j < 2000 :: CellEchoed(s, t, r.text, count, rev, j)
    else LineShown(s, t, r.text, count, rev)
  }

  lemma FeedShown(s: Screen, r: Reader, res: int, count: nat, rev: bool)
    requires s.cur + count < 1920 && Showable([res])
    requires ReaderShown(s, PutAll(s, r.echo, rev), r, count, rev)
    ensures var q := Feed(r, res, count); ReaderShown(s, PutAll(s, q.echo, rev), q, count, rev)
  {
    hide PutAll, Put, CellEchoed;
    assert [res][0] == res;
    var t, q := PutAll(s, r.echo, rev), Feed(r, res, count);
    if r.done || res <= 0 {
    } else if res == 10 {
      PutConcat(s, r.echo, [10], rev);
      PutOne(t, 10, rev);
      NextRow(t, rev);
      forall j: nat | j < 2000 ensures CellEchoed(s, Put(t, 10, rev), r.text, count, rev, j) {
        assert CellEchoed(s, t, r.text, count, rev, j);
        SameCell(s, t, Put(t, 10, rev), r.text, count, rev, j);
      }
    } else if res == 8 {
      if r.text != [] {
        PutConcat(s, r.echo, [8, 32, 8], rev);
        PutThree(t, rev);
        RubbedOut(s, t, r.text, count, rev);
      }
    } else if |r.text| < count {
      PutConcat(s, r.echo, [res], rev);
      PutOne(t, res, rev);
      CharShown(s, t, r.text, res, count, rev);
    }
  }

  lemma NextRow(t: Screen, rev: bool)
    requires t.cur < 1920
    ensures Put(t, 10, rev) == Screen(t.cells, 80 * (t.cur / 80 + 1))
  {
    AdvanceByRows(t.cur, 10);
  }

  lemma SameCell(s: Screen, t: Screen, u: Screen, text: seq<byte>, count: nat, rev: bool, j: nat)
    requires j < 2000 && u.cells == t.cells && CellEchoed(s, t, text, count, rev, j)
    ensures CellEchoed(s, u, text, count, rev, j)
  {}

  /** What is shown is what is read. Whatever is typed at a prompt, with backspaces and keys that type
      nothing, the echo leaves on the screen, from the prompt on, exactly the text that is returned, blanks
      where a rubbed out character was, and everything else as it was. */
  lemma {:induction false} ShownIsRead(s: Screen, r: Reader, input: seq<int>, count: nat, rev: bool)
    requires s.cur + count < 1920 && Showable(input)
    requires ReaderShown(s, PutAll(s, r.echo, rev), r, count, rev)
    ensures var q := FeedAll(r, input, count); ReaderShown(s, PutAll(s, q.echo, rev), q, count, rev)
    decreases |input|
  {
    if input != [] {
      hide PutAll, Feed, ReaderShown;
      assert forall i :: 0 <= i < |input[1..]| ==> input[1..][i] == input[i + 1];
      FeedShown(s, r, input[0], count, rev);
      ShownIsRead(s, Feed(r, input[0], count), input[1..], count, rev);
    }
  }

  /** A call that starts anew starts with nothing shown of it. */
  lemma FreshIsShown(s: Screen, count: nat, rev: bool)
    ensures ReaderShown(s, PutAll(s, FRESH.echo, rev), FRESH, count, rev)
  {
    hide Place, Displays;
  }

  // ---- From keys to a line ----

  /** Keys that queue a character: no special key among them. */
  predicate Plainly(codes: seq<byte>) {
    forall i :: 0 <= i < |codes| ==> codes[i] < 128 && CharOf(codes[i]) >= 0
  }

  /** Each key is pressed and let go, in turn. */
  function Strokes(codes: seq<byte>): (e: seq<Keyboard.Event>)
    requires Plainly(codes)
    ensures forall i :: 0 <= i < |e| ==> e[i].Code?
  {
    if codes == [] then [] else [Code(codes[0]), Code(codes[0] + 128)] + Strokes(codes[1..])
  }

  function Turns(t: nat, n: nat): (e: seq<Keyboard.Event>)
    ensures |e| == n && forall i :: 0 <= i < n ==> e[i] == Turn(t)
  {
    seq(n, _ => Turn(t))
  }

  /** The system with one more code queued. */
  function Queued(s: System, c: byte, t: nat): System
    requires t < TTYS && |s.keys.pending[t]| < CAPACITY
  {
    System(Keys(s.keys.pressed, s.keys.pending[t := s.keys.pending[t] + [c]], s.keys.displ), s.readers)
  }

  /** One stroke of a key that is up queues its code, and the key is up again. */
  lemma OneStroke(s: System, c: byte, t: nat, count: nat)
    requires |s.readers| == TTYS && t < TTYS && s.keys.displ == t && |s.keys.pending[t]| < CAPACITY
    requires c < 128 && CharOf(c) >= 0 && !s.keys.pressed[c]
    ensures var u := Keyboard.Happen(Keyboard.Happen(s, Code(c), count), Code(c + 128), count);
            u == Queued(s, c, t)
  {
    SpecialKeys(c);
    assert s.keys.pressed[c := true][c := false] == s.keys.pressed;
    hide CharOf, Special;
  }

  lemma TwoEvents(s: System, c: byte, d: byte, rest: seq<Keyboard.Event>, count: nat)
    requires |s.readers| == TTYS && forall i :: 0 <= i < |rest| ==> rest[i].Code?
    ensures Keyboard.HappenAll(s, [Code(c), Code(d)] + rest, count)
         == Keyboard.HappenAll(Keyboard.Happen(Keyboard.Happen(s, Code(c), count), Code(d), count), rest, count)
  {
    var all := [Code(c), Code(d)] + rest;
    assert all[0] == Code(c) && all[1] == Code(d);
    assert all[1..] == [Code(d)] + rest && all[1..][1..] == rest;
    hide Special;
  }

  lemma StrokeThen(s: System, c: byte, rest: seq<Keyboard.Event>, t: nat, count: nat)
    requires |s.readers| == TTYS && t < TTYS && s.keys.displ == t && |s.keys.pending[t]| < CAPACITY
    requires c < 128 && CharOf(c) >= 0 && !s.keys.pressed[c]
    requires forall i :: 0 <= i < |rest| ==> rest[i].Code?
    ensures Keyboard.HappenAll(s, [Code(c), Code(c + 128)] + rest, count)
         == Keyboard.HappenAll(Queued(s, c, t), rest, count)
  {
    OneStroke(s, c, t, count);
    TwoEvents(s, c, c + 128, rest, count);
  }

  lemma {:induction false} StrokesQueue(s: System, codes: seq<byte>, t: nat, count: nat)
    requires |s.readers| == TTYS && t < TTYS && s.keys.displ == t && |s.keys.pending[t]| + |codes| <= CAPACITY
    requires Plainly(codes) && forall c :: 0 <= c < 128 ==> !s.keys.pressed[c]
    ensures var u := Keyboard.HappenAll(s, Strokes(codes), count);
            && u.keys.displ == t && u.readers == s.readers
            && u.keys.pending[t] == s.keys.pending[t] + codes
    decreases |codes|
  {
    hide CharOf, Keyboard.Happen, Keyboard.HappenAll;
    if codes == [] {
      NothingHappens(s, count);
    } else {
      var c, rest := codes[0], codes[1..];
      assert forall i :: 0 <= i < |rest| ==> rest[i] == codes[i + 1];
      StrokeThen(s, c, Strokes(rest), t, count);
      StrokesQueue(Queued(s, c, t), rest, t, count);
      assert s.keys.pending[t] + codes == (s.keys.pending[t] + [c]) + rest;
    }
  }

  lemma NothingHappens(s: System, count: nat)
    requires |s.readers| == TTYS
    ensures Keyboard.HappenAll(s, [], count) == s
  {}

  /** As many turns as codes are queued read them all. */
  lemma {:induction false} TurnsRead(s: System, t: nat, count: nat)
    requires |s.readers| == TTYS && t < TTYS && s.keys.displ == t
    ensures var q := s.keys.pending[t]; var u := Keyboard.HappenAll(s, Turns(t, |q|), count);
            |u.readers| == TTYS && u.readers[t] == FeedAll(s.readers[t], CharsOf(q), count)
    decreases |s.keys.pending[t]|
  {
    var q := s.keys.pending[t];
    if s.readers[t].done {
      DoneIgnores(s.readers[t], CharsOf(q), count);
      IdleTurns(s, t, |q|, count);
    } else if q != [] {
      hide Feed, CharOf;
      var turns := Turns(t, |q|);
      assert turns[1..] == Turns(t, |q| - 1);
      assert CharsOf(q)[1..] == CharsOf(q[1..]);
      TurnsRead(Keyboard.Happen(s, Turn(t), count), t, count);
    }
  }

  lemma {:induction false} IdleTurns(s: System, t: nat, n: nat, count: nat)
    requires |s.readers| == TTYS && t < TTYS && s.readers[t].done
    ensures Keyboard.HappenAll(s, Turns(t, n), count) == s
  {
    if n > 0 {
      assert Turns(t, n)[1..] == Turns(t, n - 1);
      IdleTurns(s, t, n - 1, count);
    }
  }

  /** Typing a line: with no key held and nothing queued, the keys of a text and then Enter, 28, pressed and
      let go one after the other while the tty is displayed, have its reader return exactly the characters
      of the keys, as far as its buffer goes. */
  lemma TypedLine(s: System, codes: seq<byte>, t: nat, count: nat)
    requires |s.readers| == TTYS && t < TTYS && s.keys.displ == t && s.keys.pending[t] == []
    requires (forall c :: 0 <= c < 128 ==> !s.keys.pressed[c]) && s.readers[t] == FRESH
    requires |codes| < CAPACITY && Plainly(codes + [28]) && Ordinary(CharsOf(codes))
    ensures var r := Keyboard.HappenAll(s, Strokes(codes + [28]) + Turns(t, |codes| + 1), count).readers;
            && |r| == TTYS && r[t].done
            && |r[t].text| == (if |codes| < count then |codes| else count)
            && forall i :: 0 <= i < |r[t].text| ==> r[t].text[i] == CharOf(codes[i])
  {
    hide Keyboard.Happen, CharOf, Feed;
    var all := codes + [28];
    var input := CharsOf(codes);
    StrokesQueue(s, all, t, count);
    assert [] + all == all;
    var u := Keyboard.HappenAll(s, Strokes(all), count);
    assert u.keys.pending[t] == all;
    TurnsRead(u, t, count);
    HappenConcat(s, Strokes(all), Turns(t, |all|), count);
    OtherKeys(28);
    assert CharsOf(all) == input + [NEWLINE];
    FeedConcat(FRESH, input, [NEWLINE], count);
    OrdinaryTextIsKept(FRESH, input, count);
    var f := FeedAll(FRESH, input, count);
    EnterEnds(f, count);
  }

  lemma EnterEnds(r: Reader, count: nat)
    requires !r.done
    ensures FeedAll(r, [NEWLINE], count) == Reader(r.text, r.echo + [10], true)
  {
    assert FeedAll(Feed(r, NEWLINE, count), [NEWLINE][1..], count) == Feed(r, NEWLINE, count);
  }
}
