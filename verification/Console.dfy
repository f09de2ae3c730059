/** The 80x25 text consoles: a cursor machine over a screen, its mirror image, the unbounded paper it
    scrolls over, and the shadow copies behind the one hardware screen. */
module Console {
  import opened Words
  import opened Memory

  const COLUMNS := 80
  const ROWS := 25
  const CELLS := 2000
  const LAST_ROW := 1920

  /** A screen between two characters: its cells and its cursor, which is then always on screen. */
  datatype Screen0 = Screen(cells: seq<cell>, cur: nat)

  type Screen = s: Screen0 | |s.cells| == CELLS && s.cur < CELLS witness Screen(Blanks(CELLS), 0)

  function Blanks(n: nat): (b: seq<cell>)
    ensures |b| == n
  {
    seq(n, _ => 0)
  }

  const BLANK: Screen := Screen(Blanks(CELLS), 0)

  /** `0x0F00 | ch` with a signed char: a byte above 127 is sign-extended over the attribute. */
  function Ink(ch: byte): cell {
    if ch < 128 then 0x0F00 + ch else 0xFF00 + ch
  }

  predicate Printable(ch: byte) {
    !(8 <= ch <= 11) && ch != 13
  }

  /** The 16-bit cursor after a character, before the screen scrolls. */
  function Advance(cur: nat, ch: byte): (c: nat)
    requires cur < CELLS
    ensures c < 0x1_0000
  {
    if ch == 10 then cur + 80 - cur % 80
    else if ch == 13 then cur - cur % 80
    else if ch == 9 then cur + 8 - cur % 80 % 8
    else if ch == 11 then cur + 80
    else if ch == 8 then (cur - 1) % 0x1_0000
    else cur + 1
  }

  /** The cell a character goes to: `con_putstr_rev` fills each row from the right. */
  function Position(cur: nat, rev: bool): (k: nat)
    requires cur < CELLS
    ensures k < CELLS
  {
    if rev then (79 - cur % 80) + cur / 80 * 80 else cur
  }

  /** The cells after the character is written and, if the cursor left the screen, scrolled. */
  function CellsAfter(cells: seq<cell>, cur: nat, ch: byte, rev: bool): (c: seq<cell>)
    requires |cells| == CELLS && cur < CELLS
    ensures |c| == CELLS
  {
    var written := if Printable(ch) then cells[Position(cur, rev) := Ink(ch)] else cells;
    if Advance(cur, ch) >= CELLS then written[80..] + Blanks(80) else written
  }

  /** One character of `con_putstr`, or of `con_putstr_rev`. */
  function Put(s: Screen, ch: byte, rev: bool): Screen {
    var next := Advance(s.cur, ch);
    Screen(CellsAfter(s.cells, s.cur, ch, rev), if next >= CELLS then LAST_ROW else next)
  }

  function PutAll(s: Screen, text: seq<byte>, rev: bool): Screen
    decreases |text|
  {
    if text == [] then s else PutAll(Put(s, text[0], rev), text[1..], rev)
  }

  // ---- Mirror ----

  function Mirror(k: nat): (m: nat)
    requires k < CELLS
    ensures m < CELLS && m / 80 == k / 80 && m % 80 == 79 - k % 80
  {
    k / 80 * 80 + (79 - k % 80)
  }

  /** The same cursor, and every row read from the other end. */
  ghost predicate Mirrored(a: Screen, b: Screen) {
    a.cur == b.cur && forall k :: 0 <= k < CELLS ==> b.cells[k] == a.cells[Mirror(k)]
  }

  lemma MirrorFacts(k: nat)
    requires k < CELLS
    ensures Mirror(Mirror(k)) == k && Position(k, true) == Mirror(k)
    ensures k < LAST_ROW <==> Mirror(k) < LAST_ROW
    ensures k < LAST_ROW ==> Mirror(k + 80) == Mirror(k) + 80
  {}

  lemma MirrorStep(a: Screen, b: Screen, ch: byte)
    requires Mirrored(a, b)
    ensures Mirrored(Put(a, ch, false), Put(b, ch, true))
  {
    hide Mirror;
    var a', b' := Put(a, ch, false), Put(b, ch, true);
    MirrorFacts(a.cur);
    forall k | 0 <= k < CELLS ensures b'.cells[k] == a'.cells[Mirror(k)] {
      MirrorFacts(k);
      if k < LAST_ROW { MirrorFacts(k + 80); }
    }
  }

  /** Whatever is written, control characters included, the reversed console shows the mirror image
      of the plain one, with the same cursor. */
  lemma {:induction false} MirrorSimulation(a: Screen, b: Screen, text: seq<byte>)
    requires Mirrored(a, b)
    ensures Mirrored(PutAll(a, text, false), PutAll(b, text, true))
    decreases |text|
  {
    if text != [] {
      MirrorStep(a, b, text[0]);
      MirrorSimulation(Put(a, text[0], false), Put(b, text[0], true), text[1..]);
    }
  }

  // ---- Paper ----

  /** Paper that never ends: what has been written on it, the print position, and the first row of
      the 25 that are in view. */
  datatype Paper = Paper(cells: seq<cell>, pos: int, top: nat)

  function At(cells: seq<cell>, k: nat): cell {
    if k < |cells| then cells[k] else 0
  }

  /** Write one cell, with blank paper up to it. */
  function Write(cells: seq<cell>, k: nat, v: cell): seq<cell> {
    if k < |cells| then cells[k := v] else cells + Blanks(k - |cells|) + [v]
  }

  lemma WriteAt(cells: seq<cell>, k: nat, v: cell, i: nat)
    ensures At(Write(cells, k, v), i) == if i == k then v else At(cells, i)
  {}

  /** A teletype: nothing it prints is ever erased or moved; only the view follows the position. */
  function Print(p: Paper, ch: byte): Paper
    requires p.pos >= 0
  {
    var row, column := p.pos / 80, p.pos % 80;
    var pos := match ch
      case 10 => 80 * (row + 1)
      case 13 => 80 * row
      case 9 => 80 * row + (column / 8 + 1) * 8
      case 11 => p.pos + 80
      case 8 => p.pos - 1
      case _ => p.pos + 1;
    Paper(if Printable(ch) then Write(p.cells, p.pos, Ink(ch)) else p.cells,
          pos, if pos >= 80 * (p.top + 25) then pos / 80 - 24 else p.top)
  }

  function PrintAll(p: Paper, text: seq<byte>): Paper
    decreases |text|
  {
    if text == [] || p.pos < 0 then p else PrintAll(Print(p, text[0]), text[1..])
  }

  /** The screen shows the 25 rows in view, and the paper below them is blank. */
  ghost predicate Shows(s: Screen, p: Paper) {
    && p.pos == 80 * p.top + s.cur
    && (forall k :: 0 <= k < CELLS ==> s.cells[k] == At(p.cells, 80 * p.top + k))
    && (forall k :: k >= 80 * (p.top + 25) ==> At(p.cells, k) == 0)
  }

  /** The characters the screen treats as paper would: no backspace at the first cell of the screen,
      and no vertical tab from inside its last row. */
  predicate PaperLike(cur: nat, ch: byte) {
    && !(ch == 8 && cur == 0)
    && !(ch == 11 && cur >= LAST_ROW && cur % 80 != 0)
  }

  lemma CursorFollows(s: Screen, p: Paper, ch: byte)
    requires p.pos == 80 * p.top + s.cur
    ensures var q := Print(p, ch);
            && (PaperLike(s.cur, ch) <==> q.pos == 80 * q.top + Put(s, ch, false).cur)
            && (PaperLike(s.cur, ch) ==> q.top == if Advance(s.cur, ch) >= CELLS then p.top + 1 else p.top)
  {
    var row, column := s.cur / 80, s.cur % 80;
    AdvanceByRows(s.cur, ch);
    Rows(p.pos, p.top + row, column);
    hide CellsAfter, Write, Advance;
  }

  lemma Rows(pos: nat, row: nat, column: nat)
    requires pos == 80 * row + column && column < 80
    ensures pos / 80 == row && pos % 80 == column
  {}

  lemma AdvanceByRows(cur: nat, ch: byte)
    requires cur < CELLS
    ensures var row, column := cur / 80, cur % 80;
            Advance(cur, ch) == match ch
              case 10 => 80 * (row + 1)
              case 13 => 80 * row
              case 9 => 80 * row + (column / 8 + 1) * 8
              case 11 => cur + 80
              case 8 => if cur == 0 then 0xFFFF else cur - 1
              case _ => cur + 1
  {
    var column := cur % 80;
    assert column == column / 8 * 8 + column % 8;
  }

  /** A character keeps the screen in step with the paper exactly when it is paper-like. */
  lemma PaperStep(s: Screen, p: Paper, ch: byte)
    requires Shows(s, p)
    ensures Shows(Put(s, ch, false), Print(p, ch)) <==> PaperLike(s.cur, ch)
  {
    CursorFollows(s, p, ch);
    if PaperLike(s.cur, ch) {
      var s', q := Put(s, ch, false), Print(p, ch);
      forall k | k >= 0 ensures At(q.cells, k) == if Printable(ch) && k == p.pos then Ink(ch) else At(p.cells, k) {
        if Printable(ch) { WriteAt(p.cells, p.pos, Ink(ch), k); }
      }
    }
  }

  predicate AllPaperLike(s: Screen, text: seq<byte>)
    decreases |text|
  {
    text != [] ==> PaperLike(s.cur, text[0]) && AllPaperLike(Put(s, text[0], false), text[1..])
  }

  lemma {:induction false} PaperRun(s: Screen, p: Paper, text: seq<byte>)
    requires Shows(s, p) && AllPaperLike(s, text)
    ensures Shows(PutAll(s, text, false), PrintAll(p, text))
    decreases |text|
  {
    if text != [] {
      PaperStep(s, p, text[0]);
      PaperRun(Put(s, text[0], false), Print(p, text[0]), text[1..]);
    }
  }

  predicate Plain(text: seq<byte>) {
    forall i :: 0 <= i < |text| ==> text[i] != 8 && text[i] != 11
  }

  lemma {:induction false} PlainIsPaperLike(s: Screen, text: seq<byte>)
    requires Plain(text)
    ensures AllPaperLike(s, text)
    decreases |text|
  {
    if text != [] { PlainIsPaperLike(Put(s, text[0], false), text[1..]); }
  }

  /** Without backspaces the position never moves up, so the rows in view are the last 25. */
  lemma {:induction false} ViewIsLast(p: Paper, text: seq<byte>)
    requires Plain(text) && p.pos >= 0 && p.top == (if p.pos / 80 > 24 then p.pos / 80 - 24 else 0)
    ensures var q := PrintAll(p, text); q.pos >= 0 && q.top == if q.pos / 80 > 24 then q.pos / 80 - 24 else 0
    decreases |text|
  {
    if text != [] { ViewIsLast(Print(p, text[0]), text[1..]); }
  }

  /** The 25 rows of the paper in view. */
  function View(p: Paper): (v: seq<cell>)
    ensures |v| == CELLS
  {
    seq<cell>(CELLS, k requires 0 <= k < CELLS => At(p.cells, 80 * p.top + k))
  }

  const NEW_PAPER := Paper([], 0, 0)

  /** The scrolling screen refines unbounded paper: after any text without backspace and vertical
      tab, from blank, the screen and cursor are exactly the last 25 rows of the paper. */
  lemma ScreenIsLastRows(text: seq<byte>)
    requires Plain(text)
    ensures var s, p := PutAll(BLANK, text, false), PrintAll(NEW_PAPER, text);
            && p.pos >= 0 && p.top == (if p.pos / 80 > 24 then p.pos / 80 - 24 else 0)
            && s.cur == p.pos - 80 * p.top
            && s.cells == View(p)
  {
    hide PutAll, PrintAll, AllPaperLike;
    PlainIsPaperLike(BLANK, text);
    PaperRun(BLANK, NEW_PAPER, text);
    ViewIsLast(NEW_PAPER, text);
  }

  // ---- Four consoles behind one screen ----

  /** The shadow copies and cursors of the ttys, the hardware screen, and the displayed tty. */
  datatype Vga0 = Vga(ttys: seq<Screen>, hw: seq<cell>, displ: nat)

  type Vga = v: Vga0 | |v.ttys| == TTYS && |v.hw| == CELLS && v.displ < TTYS
    witness Vga(seq<Screen>(TTYS, _ => BLANK), Blanks(CELLS), 0)

  /** A character written to a tty, or a press of F1 to F4. */
  datatype Event = Char(tty: nat, ch: byte) | Show(tty: nat)

  predicate Known(e: Event) {
    e.tty < TTYS
  }

  /** Tty 3 is the reversed one. The hardware screen is written beside the shadow, from its own cells. */
  function Happen(v: Vga, e: Event): Vga
    requires Known(e)
  {
    match e
    case Char(t, ch) =>
      Vga(v.ttys[t := Put(v.ttys[t], ch, t == 3)],
          if v.displ == t then CellsAfter(v.hw, v.ttys[t].cur, ch, t == 3) else v.hw,
          v.displ)
    case Show(t) => Vga(v.ttys, v.ttys[t].cells, t)
  }

  function HappenAll(v: Vga, events: seq<Event>): Vga
    requires forall i :: 0 <= i < |events| ==> Known(events[i])
    decreases |events|
  {
    if events == [] then v else HappenAll(Happen(v, events[0]), events[1..])
  }

  /** The characters of a run that go to tty t. */
  function TextTo(events: seq<Event>, t: nat): seq<byte>
    decreases |events|
  {
    if events == [] then []
    else (if events[0].Char? && events[0].tty == t then [events[0].ch] else []) + TextTo(events[1..], t)
  }

  predicate Agrees(v: Vga) {
    v.hw == v.ttys[v.displ].cells
  }

  /** Every tty's shadow and cursor are what its own characters alone, in order, make of them. */
  lemma {:induction false} TextLands(v: Vga, events: seq<Event>, t: nat)
    requires (forall i :: 0 <= i < |events| ==> Known(events[i])) && t < TTYS
    ensures HappenAll(v, events).ttys[t] == PutAll(v.ttys[t], TextTo(events, t), t == 3)
    decreases |events|
  {
    if events != [] {
      TextLands(Happen(v, events[0]), events[1..], t);
      if events[0].Char? && events[0].tty == t {
        assert TextTo(events, t)[1..] == TextTo(events[1..], t);
      } else {
        assert TextTo(events, t) == TextTo(events[1..], t);
      }
    }
  }

  /** In every run the hardware screen is the shadow copy of the displayed tty. */
  lemma {:induction false} ShadowsAgree(v: Vga, events: seq<Event>)
    requires forall i :: 0 <= i < |events| ==> Known(events[i])
    requires Agrees(v)
    ensures Agrees(HappenAll(v, events))
    decreases |events|
  {
    if events != [] {
      ShadowsAgree(Happen(v, events[0]), events[1..]);
    }
  }
}
