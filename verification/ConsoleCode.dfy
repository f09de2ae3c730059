/** The console code on byte memory: the hardware screen and the four shadow copies, scrolled by the
    overlapping ascending `memcpy`. */
module ConsoleCode {
  import opened Words
  import opened Memory
  import opened Console
  import opened ConsoleText

  const SCREENS := 5

  /** Screen r of a memory of five: 0 is the hardware, 1 + t the shadow of tty t. */
  function Region(cells: seq<cell>, r: nat): (s: seq<cell>)
    requires |cells| == SCREENS * CELLS && r < SCREENS
    ensures |s| == CELLS
  {
    cells[CELLS * r..CELLS * r + CELLS]
  }

  function WithCell(s: seq<cell>, k: nat, v: cell): (w: seq<cell>)
    requires k < |s|
    ensures |w| == |s|
  {
    s[k := v]
  }

  function ScreensOf(cells: seq<cell>): (s: seq<seq<cell>>)
    requires |cells| == SCREENS * CELLS
    ensures |s| == SCREENS && forall r :: 0 <= r < SCREENS ==> |s[r]| == CELLS
  {
    seq(SCREENS, r requires 0 <= r < SCREENS => Region(cells, r))
  }

  lemma StoreScreen(c: seq<cell>, r: nat, k: nat, v: cell)
    requires |c| == SCREENS * CELLS && r < SCREENS && k < CELLS
    ensures ScreensOf(c[CELLS * r + k := v]) == ScreensOf(c)[r := WithCell(Region(c, r), k, v)]
  {
    var d := c[CELLS * r + k := v];
    forall q | 0 <= q < SCREENS
      ensures Region(d, q) == if q == r then WithCell(Region(c, r), k, v) else Region(c, q)
    {
      if q < r { assert CELLS * q + CELLS <= CELLS * r; }
      if q > r { assert CELLS * r + CELLS <= CELLS * q; }
    }
  }

  lemma ScrollScreen(c: seq<cell>, r: nat)
    requires |c| == SCREENS * CELLS && r < SCREENS
    ensures var d := Cleared(Moved(c, CELLS * r, CELLS * r + 80, LAST_ROW), CELLS * r + LAST_ROW, 80, 0);
            ScreensOf(d) == ScreensOf(c)[r := Region(c, r)[80..] + Blanks(80)]
  {
    var m := Moved(c, CELLS * r, CELLS * r + 80, LAST_ROW);
    var d := Cleared(m, CELLS * r + LAST_ROW, 80, 0);
    forall q | 0 <= q < SCREENS
      ensures Region(d, q) == if q == r then Region(c, r)[80..] + Blanks(80) else Region(c, q)
    {
      if q < r { assert CELLS * q + CELLS <= CELLS * r; }
      if q > r { assert CELLS * r + CELLS <= CELLS * q; }
      forall i | 0 <= i < CELLS
        ensures d[CELLS * q + i] == if q != r || i >= LAST_ROW then Region(d, q)[i] else c[CELLS * r + 80 + i]
        ensures q != r ==> d[CELLS * q + i] == c[CELLS * q + i]
      {
        MovedAt(c, CELLS * r, CELLS * r + 80, LAST_ROW, CELLS * q + i);
      }
    }
  }

  lemma ShowScreen(c: seq<cell>, r: nat)
    requires |c| == SCREENS * CELLS && 0 < r < SCREENS
    ensures ScreensOf(Moved(c, 0, CELLS * r, CELLS)) == ScreensOf(c)[0 := Region(c, r)]
  {
    var d := Moved(c, 0, CELLS * r, CELLS);
    forall q | 0 <= q < SCREENS ensures Region(d, q) == if q == 0 then Region(c, r) else Region(c, q) {
      if q > 0 { assert CELLS * q >= CELLS; }
    }
  }

  lemma ScreenAt(c: seq<cell>, r: nat)
    requires |c| == SCREENS * CELLS && r < SCREENS
    ensures ScreensOf(c)[r] == Region(c, r)
  {}

  lemma ZeroIsBlank(b: seq<byte>)
    requires |b| == 2 * SCREENS * CELLS && forall i :: 0 <= i < |b| ==> b[i] == 0
    ensures forall r :: 0 <= r < SCREENS ==> ScreensOf(CellsOf(b))[r] == Blanks(CELLS)
  {
    assert forall k :: 0 <= k < SCREENS * CELLS ==> CellsOf(b)[k] == 0;
  }

  ghost function AbsOf(screens: seq<seq<cell>>, cursors: seq<nat>, displ: nat): (v: Vga)
    requires |screens| == SCREENS && forall r :: 0 <= r < SCREENS ==> |screens[r]| == CELLS
    requires |cursors| == TTYS && displ < TTYS && forall t :: 0 <= t < TTYS ==> cursors[t] < CELLS
    ensures v.displ == displ
  {
    Vga(seq<Screen>(TTYS, t requires 0 <= t < TTYS => Screen(screens[1 + t], cursors[t])), screens[0], displ)
  }

  /** The shadow of tty, and the hardware if it shows tty, changed by the same function. */
  ghost predicate Both(before: seq<seq<cell>>, after: seq<seq<cell>>, displ: nat, tty: nat,
                       shadow: seq<cell>, hw: seq<cell>)
    requires |before| == SCREENS && tty < TTYS
  {
    after == if displ == tty then before[1 + tty := shadow][0 := hw] else before[1 + tty := shadow]
  }

  lemma PutOnScreens(before: seq<seq<cell>>, cursors: seq<nat>, displ: nat, tty: nat, ch: byte, rev: bool,
                     after: seq<seq<cell>>, cur: nat)
    requires |before| == SCREENS && forall r :: 0 <= r < SCREENS ==> |before[r]| == CELLS
    requires |cursors| == TTYS && displ < TTYS && tty < TTYS && forall t :: 0 <= t < TTYS ==> cursors[t] < CELLS
    requires Both(before, after, displ, tty, CellsAfter(before[1 + tty], cursors[tty], ch, rev),
                  CellsAfter(before[0], cursors[tty], ch, rev))
    requires cur == if Advance(cursors[tty], ch) >= CELLS then LAST_ROW else Advance(cursors[tty], ch)
    ensures var v := AbsOf(before, cursors, displ); var s := v.ttys[tty];
            AbsOf(after, cursors[tty := cur], displ)
              == Vga(v.ttys[tty := Put(s, ch, rev)],
                     if displ == tty then CellsAfter(v.hw, s.cur, ch, rev) else v.hw, displ)
  {
    hide Advance, CellsAfter;
  }

  /** A text can be read in the bytes of screen r, from cell cur on: the character, then 15 below 128 and
      255 from there on. */
  ghost predicate Reads(memory: seq<byte>, r: nat, cur: nat, text: seq<byte>, rev: bool)
    requires |memory| == 2 * SCREENS * CELLS && r < SCREENS && cur + |text| < CELLS
  {
    forall k :: 0 <= k < |text| ==>
      var i := 2 * (2000 * r + Place(cur + k, rev));
      memory[i] == text[k] && memory[i + 1] == if text[k] < 128 then 0x0F else 0xFF
  }

  lemma TextInBytes(memory: seq<byte>, r: nat, s: Screen, t: Screen, text: seq<byte>, rev: bool)
    requires |memory| == 2 * SCREENS * CELLS && r < SCREENS && s.cur + |text| < CELLS
    requires t.cells == Region(CellsOf(memory), r) && forall j: nat | j < CELLS :: CellShown(s, t, text, rev, j)
    ensures Reads(memory, r, s.cur, text, rev)
  {
    hide CellsOf, Place;
    forall k | 0 <= k < |text|
      ensures var i := 2 * (2000 * r + Place(s.cur + k, rev));
              memory[i] == text[k] && memory[i + 1] == if text[k] < 128 then 0x0F else 0xFF
    {
      var j := Place(s.cur + k, rev);
      PlaceTwice(s.cur + k, rev);
      assert CellShown(s, t, text, rev, j);
      CellAt(memory, CELLS * r + j);
    }
  }

  function CharsTo(tty: nat, text: seq<byte>): (e: seq<Event>)
    ensures |e| == |text| && forall i :: 0 <= i < |e| ==> e[i] == Char(tty, text[i])
  {
    seq(|text|, i requires 0 <= i < |text| => Char(tty, text[i]))
  }

  lemma {:induction false} CharsAreText(tty: nat, text: seq<byte>)
    ensures TextTo(CharsTo(tty, text), tty) == text
    decreases |text|
  {
    if text != [] {
      assert CharsTo(tty, text)[1..] == CharsTo(tty, text[1..]);
      CharsAreText(tty, text[1..]);
    }
  }

  class Consoles {
    const memory: array<byte>
    const cursors: array<nat>
    var displ: nat

    ghost predicate Valid()
      reads this, memory, cursors
    {
      && memory.Length == 2 * SCREENS * CELLS
      && cursors.Length == TTYS && displ < TTYS
      && forall t :: 0 <= t < TTYS ==> cursors[t] < CELLS
    }

    ghost function Screens(): (s: seq<seq<cell>>)
      requires memory.Length == 2 * SCREENS * CELLS
      reads this, memory
      ensures |s| == SCREENS && forall r :: 0 <= r < SCREENS ==> |s[r]| == CELLS
    {
      ScreensOf(CellsOf(memory[..]))
    }

    ghost function Abs(): Vga
      requires Valid()
      reads this, memory, cursors
    {
      AbsOf(Screens(), cursors[..], displ)
    }

    /** Zeroed memory, as the kernel starts with. */
    constructor ()
      ensures Valid() && fresh(memory) && fresh(cursors)
      ensures Agrees(Abs()) && forall t :: 0 <= t < TTYS ==> Abs().ttys[t] == BLANK
    {
      memory := new byte[2 * SCREENS * CELLS](_ => 0);
      cursors := new nat[TTYS](_ => 0);
      displ := 0;
      new;
      hide CellsOf, ScreensOf;
      ZeroIsBlank(memory[..]);
    }

    /** A 16-bit store into screen r. */
    method Store(r: nat, k: nat, v: cell)
      requires memory.Length == 2 * SCREENS * CELLS && r < SCREENS && k < CELLS
      modifies memory
      ensures Screens() == old(Screens())[r := WithCell(old(Screens())[r], k, v)]
    {
      var address := 2 * (CELLS * r + k);
      ghost var before := memory[..];
      var lo: byte, hi: byte := v % 256, v / 256;
      memory[address] := lo;
      memory[address + 1] := hi;
      assert memory[..] == Stored(before, CELLS * r + k, v);
      StoreCell(before, CELLS * r + k, v);
      StoreScreen(CellsOf(before), r, k, v);
    }

    /** Scroll screen r up by one row of 160 bytes. */
    method Scroll(r: nat)
      requires memory.Length == 2 * SCREENS * CELLS && r < SCREENS
      modifies memory
      ensures Screens() == old(Screens())[r := old(Screens())[r][80..] + Blanks(80)]
    {
      hide CellsOf, Moved, Cleared;
      ghost var before := memory[..];
      Memcpy(memory, 2 * (CELLS * r), 2 * (CELLS * r + 80), 2 * LAST_ROW);
      CopyMoves(before, 2 * (CELLS * r), 2 * (CELLS * r + 80), 2 * LAST_ROW);
      MoveCells(before, CELLS * r, CELLS * r + 80, LAST_ROW);
      ghost var moved := memory[..];
      Memset(memory, 2 * (CELLS * r + LAST_ROW), 0, 2 * 80);
      assert memory[..] == Cleared(moved, 2 * (CELLS * r + LAST_ROW), 2 * 80, 0);
      ClearCells(moved, CELLS * r + LAST_ROW, 80);
      ScrollScreen(CellsOf(before), r);
    }

    /** The switch of `con_putstr`, or of `con_putstr_rev`, on one character. */
    method Type(tty: nat, ch: byte, rev: bool)
      requires Valid() && tty < TTYS
      modifies memory, cursors
      ensures cursors[..] == old(cursors[..])[tty := Advance(old(cursors[tty]), ch)]
      ensures var s, k := old(Screens()), Position(old(cursors[tty]), rev);
              Screens() == if !Printable(ch) then s
                           else if displ == tty then
                             s[1 + tty := WithCell(s[1 + tty], k, Ink(ch))][0 := WithCell(s[0], k, Ink(ch))]
                           else s[1 + tty := WithCell(s[1 + tty], k, Ink(ch))]
    {
      hide ScreensOf;
      var cur: int := cursors[tty];
      match ch {
        case 10 => cursors[tty] := cur + 80 - cur % 80;
        case 13 => cursors[tty] := cur - cur % 80;
        case 9 => cursors[tty] := cur + 8 - cur % 80 % 8;
        case 11 => cursors[tty] := cur + 80;
        case 8 => cursors[tty] := (cur - 1) % 0x1_0000;
        case _ =>
          var k := if rev then (79 - cur % 80) + cur / 80 * 80 else cur;
          Store(1 + tty, k, Ink(ch));
          if displ == tty {
            Store(0, k, Ink(ch));
          }
          cursors[tty] := cur + 1;
      }
    }

    /** One turn of the loop of `con_putstr`, or of `con_putstr_rev`. */
    method PutChar(tty: nat, ch: byte, rev: bool)
      requires Valid() && tty < TTYS
      modifies memory, cursors
      ensures Valid()
      ensures var v, s := old(Abs()), old(Abs()).ttys[tty];
              Abs() == Vga(v.ttys[tty := Put(s, ch, rev)],
                           if v.displ == tty then CellsAfter(v.hw, s.cur, ch, rev) else v.hw, v.displ)
    {
      hide ScreensOf, Advance, Position, AbsOf;
      Type(tty, ch, rev);
      if cursors[tty] >= CELLS {
        cursors[tty] := LAST_ROW;
        Scroll(1 + tty);
        if displ == tty {
          Scroll(0);
        }
      }
      assert cursors[..] == old(cursors[..])[tty := cursors[tty]];
      PutOnScreens(old(Screens()), old(cursors[..]), displ, tty, ch, rev, Screens(), cursors[tty]);
    }

    /** F1 to F4: the shadow of the chosen tty is copied to the hardware screen. */
    method Display(tty: nat)
      requires Valid() && tty < TTYS
      modifies this`displ, memory
      ensures Valid() && Abs() == Happen(old(Abs()), Show(tty))
    {
      hide CellsOf, ScreensOf;
      ghost var before := memory[..];
      displ := tty;
      Memcpy(memory, 0, 2 * (CELLS * (1 + displ)), 2 * CELLS);
      CopyMoves(before, 0, 2 * (CELLS * (1 + displ)), 2 * CELLS);
      MoveCells(before, 0, CELLS * (1 + displ), CELLS);
      ShowScreen(CellsOf(before), 1 + displ);
      ScreenAt(CellsOf(before), 1 + displ);
    }

    /** `con_putstr` on ttys 0 to 2 and `con_putstr_rev` on tty 3. A text of visible characters that fits
        can be read back from the bytes of the shadow copy, and of the hardware screen if it is shown. */
    method PutStr(tty: nat, text: seq<byte>) returns (count: nat)
      requires Valid() && tty < TTYS
      modifies memory, cursors
      ensures Valid() && count == |text|
      ensures Abs() == HappenAll(old(Abs()), CharsTo(tty, text))
      ensures AllVisible(text) && old(cursors[tty]) + |text| < CELLS ==>
                && cursors[tty] == old(cursors[tty]) + |text|
                && Reads(memory[..], 1 + tty, old(cursors[tty]), text, tty == 3)
                && (displ == tty && Agrees(old(Abs())) ==>
                      Reads(memory[..], 0, old(cursors[tty]), text, tty == 3))
    {
      ghost var events := CharsTo(tty, text);
      for i := 0 to |text|
        invariant Valid()
        invariant HappenAll(Abs(), events[i..]) == HappenAll(old(Abs()), events)
      {
        assert events[i..][1..] == events[i + 1..];
        PutChar(tty, text[i], tty == 3);
      }
      count := |text|;
      TextReadsBack(old(Abs()), tty, text);
    }

    /** What a text leaves in the bytes. */
    lemma TextReadsBack(before: Vga, tty: nat, text: seq<byte>)
      requires Valid() && tty < TTYS && Abs() == HappenAll(before, CharsTo(tty, text))
      requires before.displ == displ
      ensures AllVisible(text) && before.ttys[tty].cur + |text| < CELLS ==>
                && cursors[tty] == before.ttys[tty].cur + |text|
                && Reads(memory[..], 1 + tty, before.ttys[tty].cur, text, tty == 3)
                && (displ == tty && Agrees(before) ==> Reads(memory[..], 0, before.ttys[tty].cur, text, tty == 3))
    {
      hide CellsOf, HappenAll, PutAll, Reads, CellShown, TextTo, AllVisible;
      if AllVisible(text) && before.ttys[tty].cur + |text| < CELLS {
        var s, t := before.ttys[tty], Abs().ttys[tty];
        CharsAreText(tty, text);
        TextIsShown(s, text, tty == 3);
        TextLands(before, CharsTo(tty, text), tty);
        TextInBytes(memory[..], 1 + tty, s, t, text, tty == 3);
        if displ == tty && Agrees(before) {
          ShadowsAgree(before, CharsTo(tty, text));
          TextInBytes(memory[..], 0, s, t, text, tty == 3);
        }
      }
    }
  }
}
