/** The stack of the emulated machine: pushes followed by as many pops. */
module EmulatorStack {
  import opened Words
  import opened Seqs
  import opened Emulator

  function Pushes(vals: seq<word>): (p: seq<Instr>)
    ensures ValidProgram(p) && |p| == |vals|
  {
    seq(|vals|, i requires 0 <= i < |vals| => Push(Operand(IMM, vals[i])))
  }

  function Pops(ids: seq<RegId>): (p: seq<Instr>)
    ensures ValidProgram(p) && |p| == |ids|
  {
    seq(|ids|, i requires 0 <= i < |ids| => Pop(Operand(REG, ids[i])))
  }

  /** A 32-bit register other than the stack pointer. */
  predicate Target(id: RegId) {
    PartOf(id) == Full && RegOf(id) != ESP
  }

  /** The frame with the values put into the registers, one after the other. */
  function Delivered(f: Frame, ids: seq<RegId>, vals: seq<word>): Frame
    requires |ids| == |vals|
    decreases |ids|
  {
    if ids == [] then f
    else
      var n := |ids| - 1;
      Set(Delivered(f, ids[..n], vals[..n]), RegOf(ids[n]), vals[n])
  }

  /** The address is not among the n words below the stack pointer. */
  predicate Outside(a: word, esp: word, n: nat) {
    Wrap(esp - 1 - a) >= 4 * n
  }

  lemma {:induction false} RunConcat(s: State, p: seq<Instr>, q: seq<Instr>)
    requires ValidProgram(p) && ValidProgram(q)
    ensures Run(s, p + q) == Run(Run(s, p), q)
    decreases |p|
  {
    hide Step;
    if p == [] {
      assert p + q == q;
    } else {
      assert (p + q)[1..] == p[1..] + q;
      RunConcat(Step(s, p[0]), p[1..], q);
    }
  }

  // ---- Registers ----

  lemma SetTwice(f: Frame, x: word, r: Reg, v: word, esp: word)
    requires r != ESP && Get(f, ESP) == esp
    ensures Set(Set(Set(f, ESP, x), r, v), ESP, esp) == Set(f, r, v)
  {}

  lemma SetCommutes(f: Frame, x: word, r: Reg, v: word)
    requires r != ESP
    ensures Set(Set(f, ESP, x), r, v) == Set(Set(f, r, v), ESP, x)
  {}

  lemma {:induction false} DeliveredEsp(f: Frame, x: word, ids: seq<RegId>, vals: seq<word>)
    requires |ids| == |vals| && forall i :: 0 <= i < |ids| ==> Target(ids[i])
    ensures Delivered(Set(f, ESP, x), ids, vals) == Set(Delivered(f, ids, vals), ESP, x)
    ensures Get(Delivered(f, ids, vals), ESP) == Get(f, ESP)
    decreases |ids|
  {
    hide Get, Set;
    if ids != [] {
      var n := |ids| - 1;
      DeliveredEsp(f, x, ids[..n], vals[..n]);
      var d := Delivered(f, ids[..n], vals[..n]);
      SetCommutes(d, x, RegOf(ids[n]), vals[n]);
      GetSet(d, RegOf(ids[n]), vals[n], ESP);
    }
  }

  /** The last value put into a register is the one it holds. */
  lemma {:induction false} DeliveredAt(f: Frame, ids: seq<RegId>, vals: seq<word>, i: nat)
    requires |ids| == |vals| && i < |ids|
    requires forall j :: i < j < |ids| ==> RegOf(ids[j]) != RegOf(ids[i])
    ensures Get(Delivered(f, ids, vals), RegOf(ids[i])) == vals[i]
    decreases |ids|
  {
    hide Get, Set, RegOf;
    var n := |ids| - 1;
    GetSet(Delivered(f, ids[..n], vals[..n]), RegOf(ids[n]), vals[n], RegOf(ids[i]));
    if i < n { DeliveredAt(f, ids[..n], vals[..n], i); }
  }

  lemma {:induction false} DeliveredElsewhere(f: Frame, ids: seq<RegId>, vals: seq<word>, r: Reg)
    requires |ids| == |vals| && forall j :: 0 <= j < |ids| ==> RegOf(ids[j]) != r
    ensures Get(Delivered(f, ids, vals), r) == Get(f, r)
    decreases |ids|
  {
    hide Get, Set, RegOf;
    if ids != [] {
      var n := |ids| - 1;
      GetSet(Delivered(f, ids[..n], vals[..n]), RegOf(ids[n]), vals[n], r);
      DeliveredElsewhere(f, ids[..n], vals[..n], r);
    }
  }

  // ---- Single steps ----

  lemma PushStep(s: State, v: word)
    ensures var esp := Wrap(Get(s.f, ESP) - 4);
            Step(s, Push(Operand(IMM, v))) == State(Set(s.f, ESP, esp), Store(s.m, esp, v))
  {
    GetSet(s.f, ESP, Wrap(Get(s.f, ESP) - 4), ESP);
    hide Get, Set, Store, Wrap;
  }

  lemma PopStep(s: State, id: RegId)
    requires Target(id)
    ensures var v, esp := Load(s.m, Get(s.f, ESP)), Wrap(Get(s.f, ESP) + 4);
            Step(s, Pop(Operand(REG, id))) == State(Set(Set(s.f, RegOf(id), v), ESP, esp), s.m)
  {
    GetSet(s.f, RegOf(id), Load(s.m, Get(s.f, ESP)), ESP);
    hide Get, Set, Load, Wrap;
  }

  // ---- Memory ----

  /** The word just below the stack pointer is outside everything that is pushed below it. */
  lemma WordOutside(esp: word, n: nat)
    requires 4 * n + 4 <= TWO_32
    ensures var a := Wrap(esp - 4);
            && Outside(a, a, n) && Outside(Wrap(a + 1), a, n)
            && Outside(Wrap(a + 2), a, n) && Outside(Wrap(a + 3), a, n)
  {}

  /** What is outside n + 1 words is outside the first of them and outside the n words below it. */
  lemma OutsideMore(b: word, esp: word, n: nat)
    requires Outside(b, esp, n + 1)
    ensures var a := Wrap(esp - 4);
            Outside(b, a, n) && b != a && b != Wrap(a + 1) && b != Wrap(a + 2) && b != Wrap(a + 3)
  {
    WordOffset(esp, 0);
    WordOffset(esp, 1);
    WordOffset(esp, 2);
    WordOffset(esp, 3);
    WordDown(esp, b);
    hide Wrap;
  }

  lemma WordOffset(esp: word, k: nat)
    requires k < 4
    ensures Wrap(esp - 1 - (if k == 0 then Wrap(esp - 4) else Wrap(Wrap(esp - 4) + k))) == 3 - k
  {}

  lemma WordDown(esp: word, b: word)
    ensures Wrap(esp - 1 - b) >= 4 ==> Wrap(Wrap(esp - 4) - 1 - b) == Wrap(esp - 1 - b) - 4
  {}

  lemma UpAndDown(esp: word)
    ensures Wrap(Wrap(esp - 4) + 4) == esp
  {}

  // ---- The law ----

  /** Main result: n pushes of immediate values and n pops into 32-bit registers other than ESP deliver
      the values in reverse, restore ESP and leave the memory above the stack alone, for every n whose
      words fit in the address space. */
  lemma {:induction false} StackLaw(s: State, vals: seq<word>, ids: seq<RegId>)
    requires |ids| == |vals| && 4 * |vals| <= TWO_32
    requires forall i :: 0 <= i < |ids| ==> Target(ids[i])
    ensures var e := Run(s, Pushes(vals) + Pops(ids));
            && e.f == Delivered(s.f, ids, Reversed(vals))
            && Get(e.f, ESP) == Get(s.f, ESP)
            && forall b :: Outside(b, Get(s.f, ESP), |vals|) ==> ByteAt(e.m, b) == ByteAt(s.m, b)
    decreases |vals|
  {
    hide Step, Get, Set, Load, Store, ByteAt, Outside, Wrap, Target;
    if vals == [] {
      assert Pushes(vals) + Pops(ids) == [];
    } else {
      var n := |vals| - 1;
      var s1 := Step(s, Push(Operand(IMM, vals[0])));
      Unfolded(s, vals, ids);
      PushStep(s, vals[0]);
      StackLaw(s1, vals[1..], ids[..n]);
      var e1 := Run(s1, Pushes(vals[1..]) + Pops(ids[..n]));
      GetSet(s.f, ESP, Wrap(Get(s.f, ESP) - 4), ESP);
      InnerWord(s, s1, e1, vals[0], n);
      PopStep(e1, ids[n]);
      Outer(s.f, e1.f, ids, vals);
      forall b | Outside(b, Get(s.f, ESP), |vals|) ensures ByteAt(e1.m, b) == ByteAt(s.m, b) {
        OutsideMore(b, Get(s.f, ESP), n);
        StoredByte(s.m, Wrap(Get(s.f, ESP) - 4), vals[0], b);
      }
    }
  }

  /** The program is a push, a shorter program of the same kind, and a pop. */
  lemma Unfolded(s: State, vals: seq<word>, ids: seq<RegId>)
    requires |ids| == |vals| > 0
    ensures var n := |vals| - 1;
            var s1 := Step(s, Push(Operand(IMM, vals[0])));
            Run(s, Pushes(vals) + Pops(ids))
              == Step(Run(s1, Pushes(vals[1..]) + Pops(ids[..n])), Pop(Operand(REG, ids[n])))
  {
    hide Step;
    var n := |vals| - 1;
    var first, last := Push(Operand(IMM, vals[0])), Pop(Operand(REG, ids[n]));
    var inner := Pushes(vals[1..]) + Pops(ids[..n]);
    assert Pushes(vals) + Pops(ids) == [first] + inner + [last];
    RunConcat(s, [first] + inner, [last]);
    RunConcat(s, [first], inner);
    RunOne(s, first);
    RunOne(Run(s, [first] + inner), last);
  }

  lemma RunOne(s: State, i: Instr)
    requires ValidInstr(i)
    ensures Run(s, [i]) == Step(s, i)
  {
    hide Step;
    assert [i][1..] == [];
  }

  /** The inner program leaves the pushed word where it is. */
  lemma InnerWord(s: State, s1: State, e1: State, v: word, n: nat)
    requires 4 * n + 4 <= TWO_32
    requires var a := Wrap(Get(s.f, ESP) - 4);
             && s1.m == Store(s.m, a, v)
             && forall b :: Outside(b, a, n) ==> ByteAt(e1.m, b) == ByteAt(s1.m, b)
    ensures Load(e1.m, Wrap(Get(s.f, ESP) - 4)) == v
  {
    var a := Wrap(Get(s.f, ESP) - 4);
    WordOutside(Get(s.f, ESP), n);
    LoadStore(s.m, a, v);
    hide Store, Outside, Wrap, ByteAt, Get;
  }

  /** The outer pop completes the delivery and brings the stack pointer back. */
  lemma Outer(f: Frame, g: Frame, ids: seq<RegId>, vals: seq<word>)
    requires |ids| == |vals| > 0 && forall i :: 0 <= i < |ids| ==> Target(ids[i])
    requires var n, x := |vals| - 1, Wrap(Get(f, ESP) - 4);
             && g == Delivered(Set(f, ESP, x), ids[..n], Reversed(vals[1..]))
             && Get(g, ESP) == x
    ensures var e := Set(Set(g, RegOf(ids[|ids| - 1]), vals[0]), ESP, Wrap(Get(g, ESP) + 4));
            e == Delivered(f, ids, Reversed(vals)) && Get(e, ESP) == Get(f, ESP)
  {
    hide Get, Set, PartOf, Wrap;
    var n, x := |vals| - 1, Wrap(Get(f, ESP) - 4);
    UpAndDown(Get(f, ESP));
    var d, r := Delivered(f, ids[..n], Reversed(vals[1..])), RegOf(ids[n]);
    DeliveredEsp(f, x, ids[..n], Reversed(vals[1..]));
    assert Reversed(vals)[..n] == Reversed(vals[1..]) && Reversed(vals)[n] == vals[0];
    assert Delivered(f, ids, Reversed(vals)) == Set(d, r, vals[0]);
    assert r != ESP;
    hide Delivered, Reversed, RegOf;
    SetTwice(d, x, r, vals[0], Get(f, ESP));
    GetSet(d, r, vals[0], ESP);
  }

  /** Read register by register: when no register is popped twice, pop i brings value n - 1 - i, and
      every register that is not popped keeps its value. */
  lemma PopsReverse(s: State, vals: seq<word>, ids: seq<RegId>)
    requires |ids| == |vals| && 4 * |vals| <= TWO_32
    requires forall i :: 0 <= i < |ids| ==> Target(ids[i])
    requires forall i, j :: 0 <= i < j < |ids| ==> RegOf(ids[i]) != RegOf(ids[j])
    ensures var e := Run(s, Pushes(vals) + Pops(ids));
            && (forall i :: 0 <= i < |ids| ==> Get(e.f, RegOf(ids[i])) == vals[|vals| - 1 - i])
            && (forall r :: (forall i :: 0 <= i < |ids| ==> RegOf(ids[i]) != r) ==> Get(e.f, r) == Get(s.f, r))
  {
    hide Get, Set, RegOf, Run, Delivered;
    StackLaw(s, vals, ids);
    forall i | 0 <= i < |ids| ensures Get(Delivered(s.f, ids, Reversed(vals)), RegOf(ids[i])) == vals[|vals| - 1 - i] {
      DeliveredAt(s.f, ids, Reversed(vals), i);
    }
    forall r | forall i :: 0 <= i < |ids| ==> RegOf(ids[i]) != r
      ensures Get(Delivered(s.f, ids, Reversed(vals)), r) == Get(s.f, r)
    {
      DeliveredElsewhere(s.f, ids, Reversed(vals), r);
    }
  }

  // ---- Pops into the stack pointer ----

  /** After pushes the stack pointer is that many words down, at the value pushed last. */
  lemma {:induction false} PushesDown(s: State, vals: seq<word>)
    ensures var e := Run(s, Pushes(vals));
            && Get(e.f, ESP) == Wrap(Get(s.f, ESP) - 4 * |vals|)
            && (vals != [] ==> Load(e.m, Get(e.f, ESP)) == vals[|vals| - 1])
    decreases |vals|
  {
    hide Step, Get, Set, Load, Store;
    if vals == [] {
      assert Pushes(vals) == [];
    } else {
      var n := |vals| - 1;
      PushesDown(s, vals[..n]);
      var e := Run(s, Pushes(vals[..n]));
      assert Pushes(vals) == Pushes(vals[..n]) + [Push(Operand(IMM, vals[n]))];
      RunConcat(s, Pushes(vals[..n]), [Push(Operand(IMM, vals[n]))]);
      RunOne(e, Push(Operand(IMM, vals[n])));
      PushStep(e, vals[n]);
      var esp := Wrap(Get(e.f, ESP) - 4);
      GetSet(e.f, ESP, esp, ESP);
      LoadStore(e.m, esp, vals[n]);
      DownOne(Get(s.f, ESP), n);
    }
  }

  lemma DownOne(esp: word, n: nat)
    ensures Wrap(Wrap(esp - 4 * n) - 4) == Wrap(esp - 4 * (n + 1))
  {}

  /** Pops above the bottom words of the stack leave the word at the stack pointer where it is. */
  lemma WordStays(s: State, e: State, k: nat)
    requires 4 * k + 4 <= TWO_32
    requires forall b :: Outside(b, Get(s.f, ESP), k) ==> ByteAt(e.m, b) == ByteAt(s.m, b)
    ensures Load(e.m, Get(s.f, ESP)) == Load(s.m, Get(s.f, ESP))
  {
    var a: int := Get(s.f, ESP);
    UpThenDown(a);
    WordOutside(Wrap(a + 4), k);
    hide Outside, Wrap, ByteAt, Get;
  }

  lemma UpThenDown(a: word)
    ensures Wrap(Wrap(a + 4) - 4) == a
  {}

  /** Why the stack pointer is excluded. Among n pushes and pops, the first pop into ESP, after k others,
      brings its value and then still moves up. It leaves ESP where a pop into another register would
      leave it if and only if the value is the address it was popped from. */
  lemma FirstPopIntoEsp(s: State, vals: seq<word>, ids: seq<RegId>)
    requires |ids| < |vals| && 4 * |vals| <= TWO_32
    requires forall i :: 0 <= i < |ids| ==> Target(ids[i])
    ensures var left := |vals| - |ids|; var esp := Get(s.f, ESP); var v: int := vals[left - 1];
            var e := Get(Run(s, Pushes(vals) + Pops(ids + [ESP_ID])).f, ESP);
            && e == Wrap(v + 4)
            && (e == Wrap(esp - 4 * (left - 1)) <==> v == Wrap(esp - 4 * left))
  {
    hide Step, Get, Set, Load, Store, Wrap, ByteAt, Outside, Delivered, Target;
    var k, left := |ids|, |vals| - |ids|;
    var below, above := vals[..left], vals[left..];
    assert Pushes(vals) + Pops(ids + [ESP_ID])
        == Pushes(below) + ((Pushes(above) + Pops(ids)) + [Pop(Operand(REG, ESP_ID))]);
    var s1 := Run(s, Pushes(below));
    RunConcat(s, Pushes(below), (Pushes(above) + Pops(ids)) + [Pop(Operand(REG, ESP_ID))]);
    RunConcat(s1, Pushes(above) + Pops(ids), [Pop(Operand(REG, ESP_ID))]);
    PushesDown(s, below);
    StackLaw(s1, above, ids);
    var e1 := Run(s1, Pushes(above) + Pops(ids));
    RunOne(e1, Pop(Operand(REG, ESP_ID)));
    WordStays(s1, e1, k);
    PopEspStep(e1);
    UpAndDownBy(vals[left - 1], Get(s.f, ESP), left);
  }

  lemma UpAndDownBy(v: word, esp: word, left: nat)
    requires left > 0
    ensures Wrap(v + 4) == Wrap(esp - 4 * (left - 1)) <==> v == Wrap(esp - 4 * left)
  {}

  lemma PopEspStep(s: State)
    ensures Get(Step(s, Pop(Operand(REG, ESP_ID))).f, ESP) == Wrap(Load(s.m, Get(s.f, ESP)) + 4)
  {
    var v: int := Load(s.m, Get(s.f, ESP));
    GetSet(s.f, ESP, v, ESP);
    GetSet(Set(s.f, ESP, v), ESP, Wrap(v + 4), ESP);
    hide Get, Set, Load, Wrap;
  }
}
