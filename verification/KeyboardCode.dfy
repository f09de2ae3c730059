/** The keyboard interrupt, the scan code rings and `tty_read`, as they update memory. */
module KeyboardCode {
  import opened Words
  import opened Keyboard
  import Rings

  const INPUT_BUF_CAP := 1024
  const ENO: word := 0
  const EAGAIN: word := 6
  const EFAULT: word := 21

  /** The ring of tty t in the buffer of all four. */
  function Ring(buf: seq<byte>, t: nat): (r: seq<byte>)
    requires |buf| == TTYS * INPUT_BUF_CAP && t < TTYS
    ensures |r| == INPUT_BUF_CAP
  {
    buf[INPUT_BUF_CAP * t..INPUT_BUF_CAP * t + INPUT_BUF_CAP]
  }

  lemma RingStore(b: seq<byte>, t: nat, i: nat, ch: byte)
    requires |b| == TTYS * INPUT_BUF_CAP && t < TTYS && i < INPUT_BUF_CAP
    ensures forall u :: 0 <= u < TTYS ==>
              Ring(b[INPUT_BUF_CAP * t + i := ch], u) == if u == t then Ring(b, t)[i := ch] else Ring(b, u)
  {
    forall u | 0 <= u < TTYS
      ensures Ring(b[INPUT_BUF_CAP * t + i := ch], u) == if u == t then Ring(b, t)[i := ch] else Ring(b, u)
    {
      if u < t { assert INPUT_BUF_CAP * u + INPUT_BUF_CAP <= INPUT_BUF_CAP * t; }
      if u > t { assert INPUT_BUF_CAP * t + INPUT_BUF_CAP <= INPUT_BUF_CAP * u; }
    }
  }

  /** The heads and the size of one ring. */
  datatype Heads = Heads(write: nat, read: nat, size: nat)

  predicate HeadsOk(h: Heads) {
    && h.read < INPUT_BUF_CAP && h.size < INPUT_BUF_CAP
    && h.write == Rings.Index(INPUT_BUF_CAP, h.read, h.size)
  }

  ghost function Queues(buf: seq<byte>, heads: seq<Heads>): (q: seq<seq<byte>>)
    requires |buf| == TTYS * INPUT_BUF_CAP && |heads| == TTYS && forall t :: 0 <= t < TTYS ==> HeadsOk(heads[t])
    ensures |q| == TTYS && forall t :: 0 <= t < TTYS ==> |q[t]| == heads[t].size
  {
    seq(TTYS, t requires 0 <= t < TTYS && HeadsOk(heads[t]) => Rings.View(Ring(buf, t), heads[t].read, heads[t].size))
  }

  class Input {
    const keysState: array<bool>
    const buf: array<byte>
    var heads: seq<Heads>
    var displ: nat
    var errno: word

    ghost predicate Valid()
      reads this, keysState, buf
    {
      && keysState.Length == 256 && buf.Length == TTYS * INPUT_BUF_CAP
      && |heads| == TTYS && displ < TTYS
      && forall t :: 0 <= t < TTYS ==> HeadsOk(heads[t])
    }

    ghost function Abs(): Keys
      requires Valid()
      reads this, keysState, buf
    {
      Keys(keysState[..128], Queues(buf[..], heads), displ)
    }

    constructor ()
      ensures Valid() && fresh(keysState) && fresh(buf)
      ensures Abs() == Keys(seq(128, _ => false), [[], [], [], []], 0)
    {
      keysState := new bool[256](_ => false);
      buf := new byte[TTYS * INPUT_BUF_CAP](_ => 0);
      heads := seq(TTYS, _ => Heads(0, 0, 0));
      displ, errno := 0, ENO;
    }

    /** `pop_scancode`. */
    method PopScancode() returns (c: byte)
      requires Valid()
      modifies this`heads, this`errno
      ensures Valid()
      ensures var k := old(Abs()); var q := k.pending[k.displ];
              if q == [] then Abs() == k && c == 0 && errno == EAGAIN
              else Abs() == Keys(k.pressed, k.pending[k.displ := q[1..]], k.displ) && c == q[0] && errno == old(errno)
    {
      var h := heads[displ];
      if h.size == 0 {
        errno := EAGAIN;
        return 0;
      }
      Rings.Pop(Ring(buf[..], displ), h.read, h.size);
      c := buf[INPUT_BUF_CAP * displ + h.read];
      heads := heads[displ := Heads(h.write, (h.read + 1) % INPUT_BUF_CAP, h.size - 1)];
    }

    /** `push_scancode`. */
    method PushScancode(ch: byte) returns (ok: bool)
      requires Valid()
      modifies this`heads, buf
      ensures Valid()
      ensures var k := old(Abs()); var q := k.pending[k.displ];
              && (ok <==> |q| < CAPACITY)
              && Abs() == if ok then Keys(k.pressed, k.pending[k.displ := q + [ch]], k.displ) else k
    {
      var h := heads[displ];
      if h.size == INPUT_BUF_CAP - 1 {
        return false;
      }
      ghost var before := buf[..];
      Rings.Push(Ring(before, displ), h.read, h.size, ch);
      RingStore(before, displ, h.write, ch);
      buf[INPUT_BUF_CAP * displ + h.write] := ch;
      heads := heads[displ := Heads((h.write + 1) % INPUT_BUF_CAP, h.read, h.size + 1)];
      assert buf[..] == before[INPUT_BUF_CAP * displ + h.write := ch];
      ok := true;
    }

    /** `con_handle_input` and the switch of `int_keyboard_impl`, with a code waiting in the port. */
    method KeyboardInterrupt(code: byte)
      requires Valid()
      modifies this`heads, this`displ, buf, keysState
      ensures Valid() && Abs() == HandleCode(old(Abs()), code)
    {
      if code >= 128 {
        keysState[code - 128] := false;
        return;
      }
      if keysState[code] { return; }
      keysState[code] := true;
      if Special(code) == 0 {
        var _ := PushScancode(code);
      }
      match CharOf(code) {
        case -12 => displ := 0;
        case -13 => displ := 1;
        case -14 => displ := 2;
        case -15 => displ := 3;
        case _ =>
      }
    }

    /** `con_read`. */
    method ConRead(tty: nat) returns (res: int)
      requires Valid() && errno == ENO
      modifies this`heads, this`errno
      ensures Valid()
      ensures var (k, i) := Keyboard.ConRead(old(Abs()), tty);
              Abs() == k && if i.Again? then errno == EAGAIN else errno == ENO && res == i.res
    {
      if tty != displ {
        return TTY_CC_EOF;
      }
      var sc := PopScancode();
      res := CharOf(sc);
    }

    /** One turn of the loop of `tty_read`, with cur characters in the buffer. */
    method ReadTurn(tty: nat, text: array<byte>, count: nat, cur: nat, said: seq<byte>)
      returns (textCur: nat, echo: seq<byte>, done: bool)
      requires Valid() && tty < TTYS && cur <= count <= text.Length && text != buf
      modifies this`heads, this`errno, text
      ensures Valid() && textCur <= count
      ensures var (k, i) := Keyboard.ConRead(old(Abs()), tty); var r := Reader(old(text[..cur]), said, false);
              && Abs() == k
              && Reader(text[..textCur], echo, done) == if i.Got? then Feed(r, i.res, count) else r
      ensures forall i :: textCur <= i < text.Length ==> text[i] == if i < cur then 0 else old(text[i])
    {
      textCur, echo, done := cur, said, false;
      errno := ENO;
      var res := ConRead(tty);
      if errno == EAGAIN || res < 0 { return; }
      match res {
        case 10 =>
          echo := echo + [NEWLINE];
          done := true;
        case 0 =>
        case 8 =>
          if textCur != 0 {
            textCur := textCur - 1;
            text[textCur] := 0;
            echo := echo + [BACKSPACE, 32, BACKSPACE];
          }
        case _ =>
          if textCur < count {
            text[textCur] := res % 256;
            textCur := textCur + 1;
            echo := echo + [res % 256];
          }
      }
    }

    /** `tty_read`. The codes of arrivals[i] reach the interrupt before turn i of the loop; the call is
        still waiting when they run out. */
    method TtyRead(tty: nat, text: array<byte>, count: nat, arrivals: seq<seq<byte>>, ghost others: seq<Reader>)
      returns (textCur: nat, echo: seq<byte>, done: bool, turns: nat)
      requires Valid() && count <= text.Length && text != buf
      requires |others| == TTYS && (tty < TTYS ==> others[tty] == FRESH)
      modifies this`heads, this`displ, this`errno, buf, keysState, text
      ensures Valid() && turns <= |arrivals| && (done || turns == |arrivals|) && textCur <= count
      ensures tty >= TTYS ==>
                && done && textCur == 0 && echo == [] && errno == EFAULT
                && Abs() == old(Abs()) && text[..] == old(text[..])
      ensures tty < TTYS ==>
                && Proper(System(old(Abs()), others), Schedule(tty, arrivals[..turns]))
                && HappenAll(System(old(Abs()), others), Schedule(tty, arrivals[..turns]), count)
                     == System(Abs(), others[tty := Reader(text[..textCur], echo, done)])
      ensures forall i :: textCur <= i < text.Length ==> text[i] == 0 || text[i] == old(text[i])
    {
      hide Feed, Keyboard.ConRead, HandleCode, Queues, Schedule;
      textCur, echo, done, turns := 0, [], false, 0;
      if tty >= TTYS {
        errno, done := EFAULT, true;
        return;
      }
      ghost var start := System(Abs(), others);
      ScheduleEmpty(start, tty, arrivals, count);
      while turns < |arrivals| && !done
        invariant Valid() && turns <= |arrivals| && textCur <= count
        invariant Proper(start, Schedule(tty, arrivals[..turns]))
        invariant HappenAll(start, Schedule(tty, arrivals[..turns]), count)
               == System(Abs(), others[tty := Reader(text[..textCur], echo, done)])
        invariant forall i :: textCur <= i < text.Length ==> text[i] == 0 || text[i] == old(text[i])
      {
        ghost var readers := others[tty := Reader(text[..textCur], echo, done)];
        ghost var s0 := System(Abs(), readers);
        Interrupts(arrivals[turns], s0, count);
        ghost var s1 := System(Abs(), readers);
        textCur, echo, done := ReadTurn(tty, text, count, textCur, echo);
        assert Happen(s1, Turn(tty), count) == System(Abs(), others[tty := Reader(text[..textCur], echo, done)]);
        ScheduleStep(start, s0, s1, tty, arrivals, turns, count);
        turns := turns + 1;
      }
    }

    /** Interrupts that come in between two turns. */
    method Interrupts(codes: seq<byte>, ghost s: System, ghost count: nat)
      requires Valid() && s.keys == Abs() && |s.readers| == TTYS
      modifies this`heads, this`displ, buf, keysState
      ensures Valid() && Proper(s, Codes(codes))
      ensures HappenAll(s, Codes(codes), count) == System(Abs(), s.readers)
    {
      for i := 0 to |codes|
        invariant Valid()
        invariant Proper(s, Codes(codes[..i]))
        invariant HappenAll(s, Codes(codes[..i]), count) == System(Abs(), s.readers)
      {
        KeyboardInterrupt(codes[i]);
        assert Codes(codes[..i + 1]) == Codes(codes[..i]) + [Code(codes[i])];
        HappenConcat(s, Codes(codes[..i]), [Code(codes[i])], count);
      }
      assert codes[..|codes|] == codes;
    }
  }

  // ---- Schedules of codes and turns ----

  function Codes(codes: seq<byte>): (e: seq<Event>)
    ensures |e| == |codes|
  {
    seq(|codes|, i requires 0 <= i < |codes| => Code(codes[i]))
  }

  function Schedule(tty: nat, arrivals: seq<seq<byte>>): seq<Event>
    decreases |arrivals|
  {
    if arrivals == [] then []
    else
      var last := |arrivals| - 1;
      Schedule(tty, arrivals[..last]) + (Codes(arrivals[last]) + [Turn(tty)])
  }

  lemma {:induction false} ScheduleProper(s: System, tty: nat, arrivals: seq<seq<byte>>)
    requires |s.readers| == TTYS && tty < TTYS
    ensures Proper(s, Schedule(tty, arrivals))
    decreases |arrivals|
  {
    if arrivals != [] { ScheduleProper(s, tty, arrivals[..|arrivals| - 1]); }
  }

  lemma ScheduleEmpty(s: System, tty: nat, arrivals: seq<seq<byte>>, count: nat)
    requires |s.readers| == TTYS
    ensures Proper(s, Schedule(tty, arrivals[..0])) && HappenAll(s, Schedule(tty, arrivals[..0]), count) == s
  {}

  lemma ScheduleStep(start: System, s0: System, s1: System, tty: nat, arrivals: seq<seq<byte>>, n: nat, count: nat)
    requires n < |arrivals| && tty < TTYS && |start.readers| == |s0.readers| == |s1.readers| == TTYS
    requires Proper(start, Schedule(tty, arrivals[..n]))
    requires HappenAll(start, Schedule(tty, arrivals[..n]), count) == s0
    requires Proper(s0, Codes(arrivals[n])) && HappenAll(s0, Codes(arrivals[n]), count) == s1
    ensures Proper(start, Schedule(tty, arrivals[..n + 1]))
    ensures HappenAll(start, Schedule(tty, arrivals[..n + 1]), count) == Happen(s1, Turn(tty), count)
  {
    assert arrivals[..n + 1][..n] == arrivals[..n];
    ScheduleProper(start, tty, arrivals[..n + 1]);
    HappenConcat(start, Schedule(tty, arrivals[..n]), Codes(arrivals[n]) + [Turn(tty)], count);
    HappenConcat(s0, Codes(arrivals[n]), [Turn(tty)], count);
    assert HappenAll(s1, [Turn(tty)], count) == Happen(s1, Turn(tty), count);
  }
}
