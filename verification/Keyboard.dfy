/** From scan codes to lines of text: press edges, a queue of scan codes per tty, the line editor. */
module Keyboard {
  import opened Words
  import opened Seqs

  const CAPACITY := 1023

  const BACKSPACE: byte := 8
  const NEWLINE: byte := 10
  const TTY_CC_EOF := -1

  /** `scan_code_table_default`, for the keys without a special meaning. */
  const LETTERS := "\0\U{1B}1234567890-=\U{08}\t" + "qwertyuiop[]\n\0" + "asdfghjkl;'`\0\\"
                   + "zxcvbnm,./\0*\0 " + "\0\0\0\0\0\0\0\0\0\0\0\0\0" + "7894561230 ."

  function LetterOf(sc: byte): (c: byte)
  {
    if sc < |LETTERS| then (LETTERS[sc] as int) % 256 else 0
  }

  /** `scan_code_table_special`: escape, F1 to F10 and the number pad are negative; 0 for other keys. */
  function Special(sc: byte): int {
    if sc == 1 then TTY_CC_EOF
    else if 59 <= sc <= 68 then -12 - (sc - 59)
    else if 71 <= sc <= 73 then -24 - (sc - 71)
    else if 75 <= sc <= 77 then -27 - (sc - 75)
    else if 79 <= sc <= 82 then -30 - (sc - 79)
    else 0
  }

  /** What a scan code means to a reader. */
  function CharOf(sc: byte): int {
    if Special(sc) != 0 then Special(sc) else LetterOf(sc)
  }

  // ---- The interrupt side ----

  datatype Keys0 = Keys(pressed: seq<bool>, pending: seq<seq<byte>>, displ: nat)

  type Keys = k: Keys0 |
    && |k.pressed| == 128 && |k.pending| == TTYS && k.displ < TTYS
    && (forall t :: 0 <= t < TTYS ==> |k.pending[t]| <= CAPACITY)
    witness Keys(seq(128, _ => false), [[], [], [], []], 0)

  /** `con_handle_input` followed by the tty switch of `int_keyboard_impl`. */
  function HandleCode(k: Keys, code: byte): Keys {
    if code >= 128 then Keys(k.pressed[code - 128 := false], k.pending, k.displ)
    else if k.pressed[code] then k
    else
      var q := k.pending[k.displ];
      Keys(k.pressed[code := true],
           if Special(code) == 0 && |q| < CAPACITY then k.pending[k.displ := q + [code]] else k.pending,
           if 59 <= code <= 62 then code - 59 else k.displ)
  }

  /** What the history of codes says of key c: whether its last event was a press. */
  function Held(history: seq<byte>, c: byte): bool
    decreases |history|
  {
    if history == [] then false
    else
      var last := history[|history| - 1];
      if last % 128 == c then last < 128 else Held(history[..|history| - 1], c)
  }

  /** A code that comes after a history is a press edge: a press of a key that was up. */
  predicate Edge(history: seq<byte>, code: byte) {
    code < 128 && !Held(history, code)
  }

  /** The displayed tty: that of the last press edge of F1 to F4, or 0. */
  function Shown(history: seq<byte>): (t: nat)
    ensures t < TTYS
    decreases |history|
  {
    if history == [] then 0
    else
      var before, last := history[..|history| - 1], history[|history| - 1];
      if Edge(before, last) && 59 <= last <= 62 then last - 59 else Shown(before)
  }

  /** The kernel's key table and displayed tty say what the history says. */
  ghost predicate Remembers(k: Keys, history: seq<byte>) {
    && (forall c :: 0 <= c < 128 ==> k.pressed[c] == Held(history, c))
    && k.displ == Shown(history)
  }

  lemma HandleRemembers(k: Keys, history: seq<byte>, code: byte)
    requires Remembers(k, history)
    ensures Remembers(HandleCode(k, code), history + [code])
  {
    var h := history + [code];
    assert h[..|h| - 1] == history;
  }

  // ---- The reader's side ----

  /** What one call of `con_read` yields: nothing to read, or a character or negative code. */
  datatype Input = Again | Got(res: int)

  function ConRead(k: Keys, tty: nat): (r: (Keys, Input)) {
    if tty != k.displ then (k, Got(TTY_CC_EOF))
    else
      var q := k.pending[k.displ];
      if q == [] then (k, Again)
      else (Keys(k.pressed, k.pending[k.displ := q[1..]], k.displ), Got(CharOf(q[0])))
  }

  /** A call of `tty_read`: the text so far, what it has echoed, and whether it has returned. */
  datatype Reader = Reader(text: seq<byte>, echo: seq<byte>, done: bool)

  const FRESH := Reader([], [], false)

  /** One turn of the loop of `tty_read` on a result; negative results are skipped. */
  function Feed(r: Reader, res: int, count: nat): Reader {
    if r.done || res <= 0 then r
    else if res == NEWLINE then Reader(r.text, r.echo + [NEWLINE], true)
    else if res == BACKSPACE then
      if r.text == [] then r
      else Reader(r.text[..|r.text| - 1], r.echo + [BACKSPACE, 32, BACKSPACE], false)
    else if |r.text| < count then Reader(r.text + [res % 256], r.echo + [res % 256], false)
    else r
  }

  function FeedAll(r: Reader, input: seq<int>, count: nat): Reader
    decreases |input|
  {
    if input == [] then r else FeedAll(Feed(r, input[0], count), input[1..], count)
  }

  // ---- Runs ----

  /** A scan code arrives, or the reader of a tty takes one turn of its loop. */
  datatype Event = Code(code: byte) | Turn(tty: nat)

  datatype System = System(keys: Keys, readers: seq<Reader>)

  predicate Proper(s: System, events: seq<Event>) {
    |s.readers| == TTYS && forall i :: 0 <= i < |events| ==> events[i].Turn? ==> events[i].tty < TTYS
  }

  function Happen(s: System, e: Event, count: nat): System
    requires |s.readers| == TTYS && (e.Turn? ==> e.tty < TTYS)
  {
    match e
    case Code(c) => System(HandleCode(s.keys, c), s.readers)
    case Turn(t) =>
      if s.readers[t].done then s
      else
        var (k, i) := ConRead(s.keys, t);
        System(k, if i.Got? then s.readers[t := Feed(s.readers[t], i.res, count)] else s.readers)
  }

  function HappenAll(s: System, events: seq<Event>, count: nat): System
    requires Proper(s, events)
    decreases |events|
  {
    if events == [] then s else HappenAll(Happen(s, events[0], count), events[1..], count)
  }

  /** A code that comes after a history and is meant for tty t: a press edge of a key without special
      meaning, while t is displayed. */
  predicate Meant(history: seq<byte>, code: byte, t: nat) {
    Edge(history, code) && Special(code) == 0 && Shown(history) == t
  }

  /** The code a step has the queue of tty t accept: one meant for t that does not find 1023 pending. */
  function AcceptedNow(s: System, history: seq<byte>, e: Event, t: nat): seq<byte>
    requires t < TTYS
  {
    if e.Code? && Meant(history, e.code, t) && |s.keys.pending[t]| < CAPACITY then [e.code] else []
  }

  /** The code a step has the reader of tty t take out of the queue. */
  function TakenNow(s: System, e: Event, t: nat): (k: seq<byte>)
    requires |s.readers| == TTYS && t < TTYS
    ensures |k| <= 1
  {
    if e == Turn(t) && !s.readers[t].done && s.keys.displ == t && s.keys.pending[t] != []
    then [s.keys.pending[t][0]] else []
  }

  function Since(history: seq<byte>, e: Event): seq<byte> {
    if e.Code? then history + [e.code] else history
  }

  function Accepted(s: System, history: seq<byte>, events: seq<Event>, count: nat, t: nat): seq<byte>
    requires Proper(s, events) && t < TTYS
    decreases |events|
  {
    if events == [] then []
    else
      var later := Accepted(Happen(s, events[0], count), Since(history, events[0]), events[1..], count, t);
      AcceptedNow(s, history, events[0], t) + later
  }

  function Taken(s: System, events: seq<Event>, count: nat, t: nat): seq<byte>
    requires Proper(s, events) && t < TTYS
    decreases |events|
  {
    if events == [] then []
    else TakenNow(s, events[0], t) + Taken(Happen(s, events[0], count), events[1..], count, t)
  }

  function CharsOf(codes: seq<byte>): (c: seq<int>)
    ensures |c| == |codes|
  {
    seq(|codes|, i requires 0 <= i < |codes| => CharOf(codes[i]))
  }

  /** One event, for the queue and the reader of tty t. */
  lemma HappenOne(s: System, history: seq<byte>, e: Event, count: nat, t: nat)
    requires |s.readers| == TTYS && t < TTYS && Remembers(s.keys, history) && (e.Turn? ==> e.tty < TTYS)
    ensures var s' := Happen(s, e, count); var k := TakenNow(s, e, t);
            && |s'.readers| == TTYS
            && Remembers(s'.keys, Since(history, e))
            && s.keys.pending[t] + AcceptedNow(s, history, e, t) == k + s'.keys.pending[t]
            && s'.readers[t] == if k == [] then s.readers[t] else Feed(s.readers[t], CharOf(k[0]), count)
  {
    if e.Code? {
      HandleRemembers(s.keys, history, e.code);
    }
  }

  lemma FeedTaken(r: Reader, k: seq<byte>, rest: seq<byte>, count: nat)
    requires |k| <= 1
    ensures FeedAll(r, CharsOf(k + rest), count)
         == FeedAll(if k == [] then r else Feed(r, CharOf(k[0]), count), CharsOf(rest), count)
  {
    if k == [] {
      assert k + rest == rest;
    } else {
      assert CharsOf(k + rest)[1..] == CharsOf(rest);
    }
  }

  /** Keyboard to line, end to end. For every stream of codes, tty switches and turns of the readers:
      the codes a tty's reader takes are, in order, those meant for it and not dropped, the rest being
      still queued; and its state is the line editor's fold over their characters. */
  lemma {:induction false} KeyboardToLine(s: System, history: seq<byte>, events: seq<Event>, count: nat, t: nat)
    requires Proper(s, events) && t < TTYS && Remembers(s.keys, history)
    ensures var s' := HappenAll(s, events, count); var taken := Taken(s, events, count, t);
            && |s'.readers| == TTYS
            && s.keys.pending[t] + Accepted(s, history, events, count, t) == taken + s'.keys.pending[t]
            && s'.readers[t] == FeedAll(s.readers[t], CharsOf(taken), count)
    decreases |events|
  {
    if events != [] {
      hide Happen, Feed, Remembers, AcceptedNow, TakenNow, CharsOf, Since;
      var e, rest := events[0], events[1..];
      assert forall i :: 0 <= i < |rest| ==> rest[i] == events[i + 1];
      var s1, h1 := Happen(s, e, count), Since(history, e);
      HappenOne(s, history, e, count, t);
      KeyboardToLine(s1, h1, rest, count, t);
      Joined(s.keys.pending[t], AcceptedNow(s, history, e, t), TakenNow(s, e, t), s1.keys.pending[t],
             Accepted(s1, h1, rest, count, t), Taken(s1, rest, count, t), HappenAll(s1, rest, count).keys.pending[t]);
      FeedTaken(s.readers[t], TakenNow(s, e, t), Taken(s1, rest, count, t), count);
    }
  }

  // ---- The line editor ----

  predicate Ordinary(input: seq<int>) {
    forall i :: 0 <= i < |input| ==> 0 < input[i] < 256 && input[i] != NEWLINE && input[i] != BACKSPACE
  }

  /** Ordinary characters are kept in order, up to the size of the buffer. */
  lemma {:induction false} OrdinaryTextIsKept(r: Reader, input: seq<int>, count: nat)
    requires Ordinary(input) && !r.done && |r.text| <= count
    ensures var all := r.text + seq<byte>(|input|, i requires 0 <= i < |input| && Ordinary(input) => input[i]);
            FeedAll(r, input, count).text == if |all| <= count then all else all[..count]
    ensures !FeedAll(r, input, count).done
    decreases |input|
  {
    if input != [] {
      OrdinaryTextIsKept(Feed(r, input[0], count), input[1..], count);
    }
  }

  /** Nothing after the first newline is read. */
  lemma {:induction false} NewlineEnds(r: Reader, before: seq<int>, after: seq<int>, count: nat)
    ensures FeedAll(r, before + [NEWLINE] + after, count) == FeedAll(r, before + [NEWLINE], count)
    ensures FeedAll(r, before + [NEWLINE], count).done
    decreases |before|, |after|
  {
    var long, short := before + [NEWLINE] + after, before + [NEWLINE];
    if before == [] {
      assert short[1..] == [] && long[1..] == after;
      DoneIgnores(Feed(r, NEWLINE, count), after, count);
    } else {
      assert long[1..] == before[1..] + [NEWLINE] + after;
      assert short[1..] == before[1..] + [NEWLINE];
      NewlineEnds(Feed(r, before[0], count), before[1..], after, count);
    }
  }

  lemma {:induction false} DoneIgnores(r: Reader, input: seq<int>, count: nat)
    requires r.done
    ensures FeedAll(r, input, count) == r
    decreases |input|
  {
    if input != [] { DoneIgnores(r, input[1..], count); }
  }

  /** A character and a backspace cancel out exactly when the character found room in the buffer (or
      the buffer can hold nothing). */
  lemma BackspaceUndoes(r: Reader, c: int, count: nat)
    requires !r.done && Ordinary([c]) && |r.text| <= count
    ensures FeedAll(r, [c, BACKSPACE], count).text == r.text <==> |r.text| < count || count == 0
  {
    assert [c][0] == c;
    assert [c, BACKSPACE][1..] == [BACKSPACE];
    var f := Feed(r, c, count);
    assert FeedAll(r, [c, BACKSPACE], count) == FeedAll(f, [BACKSPACE], count);
    assert FeedAll(f, [BACKSPACE], count) == Feed(f, BACKSPACE, count);
  }

  lemma {:induction false} HappenConcat(s: System, a: seq<Event>, b: seq<Event>, count: nat)
    requires Proper(s, a) && Proper(s, b)
    ensures Proper(s, a + b) && |HappenAll(s, a, count).readers| == TTYS
    ensures HappenAll(s, a + b, count) == HappenAll(HappenAll(s, a, count), b, count)
    decreases |a|
  {
    if a == [] {
      assert a + b == b;
    } else {
      assert (a + b)[1..] == a[1..] + b;
      assert forall i :: 0 <= i < |a[1..]| ==> a[1..][i] == a[i + 1];
      HappenConcat(Happen(s, a[0], count), a[1..], b, count);
    }
  }
}
