/** What is written on a console can be read there: the bytes of the cells, in numbers. */
module ConsoleText {
  import opened Words
  import opened Memory
  import opened Console

  /** A character that is shown, and does not move the cursor in its own way: not one of backspace, tab,
      newline, vertical tab and carriage return. */
  predicate Visible(ch: byte) {
    ch != 8 && ch != 9 && ch != 10 && ch != 11 && ch != 13
  }

  predicate AllVisible(text: seq<byte>) {
    forall i :: 0 <= i < |text| ==> Visible(text[i])
  }

  /** A cell that shows ch: the character is its low byte; its high byte is 15, white on black, below 128,
      and 255 from there on. */
  predicate Displays(v: cell, ch: byte) {
    v % 256 == ch && v / 256 == if ch < 128 then 0x0F else 0xFF
  }

  /** The place where a row is written from: the left, or the right on a reversed console. */
  function Place(k: nat, rev: bool): (p: nat)
    requires k < 2000
    ensures p < 2000 && p / 80 == k / 80 && p % 80 == if rev then 79 - k % 80 else k % 80
  {
    if rev then k / 80 * 80 + (79 - k % 80) else k
  }

  lemma PlaceTwice(k: nat, rev: bool)
    requires k < 2000
    ensures Place(Place(k, rev), rev) == k
  {}

  /** One character, in numbers: a shown one is in the cell under the cursor, and no other cell changes;
      when the cursor leaves the screen, every row moves up by one and the last row is blank. */
  lemma OneCharacter(s: Screen, ch: byte, rev: bool, j: nat)
    requires j < 2000
    ensures var t := Put(s, ch, rev); var next := Advance(s.cur, ch);
            && t.cur == (if next < 2000 then next else 1920)
            && (var i := if next < 2000 then j else j + 80;
                if i >= 2000 then t.cells[j] == 0
                else if Visible(ch) && i == Place(s.cur, rev) then Displays(t.cells[j], ch)
                else t.cells[j] == s.cells[i])
  {
    hide Advance;
  }

  /** Cell j of the screen after a text: the character for it, or what it was. */
  predicate CellShown(s: Screen, t: Screen, text: seq<byte>, rev: bool, j: nat)
    requires j < 2000
  {
    var k := Place(j, rev) - s.cur;
    if 0 <= k < |text| then Displays(t.cells[j], text[k]) else t.cells[j] == s.cells[j]
  }

  /** A text of shown characters that fits on the rest of the screen can be read back from the cells it
      was written to; no other cell changes, and the cursor stands behind it. */
  lemma {:induction false} TextIsShown(s: Screen, text: seq<byte>, rev: bool)
    requires AllVisible(text) && s.cur + |text| < 2000
    ensures PutAll(s, text, rev).cur == s.cur + |text|
    ensures forall j: nat | j < 2000 :: CellShown(s, PutAll(s, text, rev), text, rev, j)
    decreases |text|
  {
    if text != [] {
      hide Put, Place, Displays, Visible, CellShown;
      var s1, rest := Put(s, text[0], rev), text[1..];
      NextCell(s, text[0], rev);
      assert forall i :: 0 <= i < |rest| ==> rest[i] == text[i + 1];
      TextIsShown(s1, rest, rev);
      forall j: nat | j < 2000 ensures CellShown(s, PutAll(s, text, rev), text, rev, j) {
        CellStep(s, s1, PutAll(s1, rest, rev), text, rev, j);
      }
    } else {
      hide Place, Displays;
    }
  }

  lemma CellStep(s: Screen, s1: Screen, t: Screen, text: seq<byte>, rev: bool, j: nat)
    requires j < 2000 && text != [] && s1.cur == s.cur + 1 < 2000
    requires if j == Place(s.cur, rev) then Displays(s1.cells[j], text[0]) else s1.cells[j] == s.cells[j]
    requires CellShown(s1, t, text[1..], rev, j)
    ensures CellShown(s, t, text, rev, j)
  {
    hide Displays, Place;
    PlaceTwice(j, rev);
    PlaceTwice(s.cur, rev);
  }

  lemma NextCell(s: Screen, ch: byte, rev: bool)
    requires Visible(ch) && s.cur + 1 < 2000
    ensures var t := Put(s, ch, rev);
            && t.cur == s.cur + 1
            && (forall j: nat | j < 2000 ::
                  if j == Place(s.cur, rev) then Displays(t.cells[j], ch) else t.cells[j] == s.cells[j])
  {}

  /** The paper, in numbers: only a visible character is printed, at the print position; the position goes
      on by one, to the next row or eighth column, down, or back. */
  lemma PaperPrints(p: Paper, ch: byte, k: nat)
    requires p.pos >= 0
    ensures var q := Print(p, ch); var row, column := p.pos / 80, p.pos % 80;
            && (if Visible(ch) && k == p.pos then Displays(At(q.cells, k), ch) else At(q.cells, k) == At(p.cells, k))
            && q.pos == (if ch == 8 then p.pos - 1
                         else if ch == 9 then 80 * row + (column / 8 + 1) * 8
                         else if ch == 10 then 80 * (row + 1)
                         else if ch == 11 then p.pos + 80
                         else if ch == 13 then 80 * row
                         else p.pos + 1)
  {
    if Visible(ch) { WriteAt(p.cells, p.pos, Ink(ch), k); }
    hide Write;
  }
}
