/** The emulator as it runs: instruction functions that update a register frame and memory in place. */
module EmulatorCode {
  import opened Words
  import opened Emulator

  class Cpu {
    var frame: Frame
    var mem: Mem

    function Value(): State
      reads this
    {
      State(frame, mem)
    }

    constructor (f: Frame, m: Mem)
      ensures Value() == State(f, m)
    {
      frame, mem := f, m;
    }

    method Leget(o: Operand) returns (v: word)
      requires ValidLeft(o)
      ensures v == Fetch(Value(), o)
    {
      if o.kind == REG {
        v := ReadReg(frame, o.u);
      } else {
        v := Load(mem, Address(frame, o));
      }
    }

    method Reget(o: Operand) returns (v: word)
      requires Valid(o)
      ensures v == Fetch(Value(), o)
    {
      if o.kind == IMM {
        v := o.u;
      } else {
        v := Leget(o);
      }
    }

    /** The operand reads back as far as it is wide, and nothing else changes. */
    method Leset(o: Operand, v: word)
      requires ValidLeft(o)
      modifies this
      ensures Value() == Assign(old(Value()), o, v)
      ensures Fetch(Value(), o) == Landed(o, v) && SameElsewhere(old(Value()), Value(), o)
    {
      AssignFetch(Value(), o, v);
      hide Fetch, Landed, SameElsewhere;
      if o.kind == REG {
        frame := WriteReg(frame, o.u, v);
      } else {
        mem := Store(mem, Address(frame, o), v);
      }
    }

    /** The left operand holds the sum modulo 2^32, and nothing else changes. */
    method Add(d: Operand, o: Operand)
      requires ValidLeft(d) && Valid(o)
      modifies this
      ensures Value() == Step(old(Value()), Instr.Add(d, o))
      ensures Fetch(Value(), d) == Landed(d, Wrap(old(Fetch(Value(), d)) + old(Fetch(Value(), o))))
      ensures SameElsewhere(old(Value()), Value(), d)
    {
      hide Assign, Fetch, Landed, SameElsewhere;
      var a: int := Leget(d);
      var b: int := Reget(o);
      Leset(d, Wrap(a + b));
    }

    /** The left operand holds the difference modulo 2^32, and nothing else changes. */
    method Sub(d: Operand, o: Operand)
      requires ValidLeft(d) && Valid(o)
      modifies this
      ensures Value() == Step(old(Value()), Instr.Sub(d, o))
      ensures Fetch(Value(), d) == Landed(d, Wrap(old(Fetch(Value(), d)) - old(Fetch(Value(), o))))
      ensures SameElsewhere(old(Value()), Value(), d)
    {
      hide Assign, Fetch, Landed, SameElsewhere;
      var a: int := Leget(d);
      var b: int := Reget(o);
      Leset(d, Wrap(a - b));
    }

    /** Execution goes on at the operand, and nothing else changes. */
    method JmpFar(o: Operand)
      requires Valid(o)
      modifies this
      ensures Value() == Step(old(Value()), Instr.JmpFar(o))
      ensures mem == old(mem)
      ensures forall r: Reg :: Get(frame, r) == if r == EIP then old(Fetch(Value(), o)) else old(Get(frame, r))
    {
      hide Fetch, Get, Set;
      var a := Reget(o);
      forall r: Reg ensures Get(WriteReg(frame, EIP_ID, a), r) == if r == EIP then a else Get(frame, r) {
        GetSet(frame, EIP, a, r);
      }
      frame := WriteReg(frame, EIP_ID, a);
    }

    /** The word at the new stack pointer is the operand, as it is when the stack pointer has moved, so
        that pushing ESP pushes its new value; no other byte and no other register changes. */
    method Push(o: Operand)
      requires Valid(o)
      modifies this
      ensures Value() == Step(old(Value()), Instr.Push(o))
      ensures forall r: Reg :: Get(frame, r) == if r == ESP then Wrap(old(Get(frame, ESP)) - 4) else old(Get(frame, r))
      ensures Load(mem, Get(frame, ESP)) == Fetch(State(frame, old(mem)), o)
      ensures forall b: word :: !InWord(Get(frame, ESP), b) ==> ByteAt(mem, b) == old(ByteAt(mem, b))
    {
      hide Fetch, Store, Load, Get, Set, Wrap, ByteAt;
      ghost var esp := Wrap(Get(frame, ESP) - 4);
      forall r: Reg ensures Get(Set(frame, ESP, esp), r) == if r == ESP then esp else Get(frame, r) {
        GetSet(frame, ESP, esp, r);
      }
      EspAccess(frame, esp);
      MoveEsp(-4);
      EspAccess(frame, 0);
      var v := Reget(o);
      LoadStore(mem, esp, v);
      forall b: word ensures !InWord(esp, b) ==> ByteAt(Store(mem, esp, v), b) == ByteAt(mem, b) {
        StoredByte(mem, esp, v, b);
      }
      mem := Store(mem, ReadReg(frame, ESP_ID), v);
    }

    /** The word at the stack pointer comes into the operand and the stack pointer moves up; a pop into
        ESP itself still adds 4 to what it brings. Nothing else changes. */
    method Pop(d: Operand)
      requires ValidLeft(d)
      modifies this
      ensures Value() == Step(old(Value()), Instr.Pop(d))
      ensures Popped(old(Value()), Value(), d)
    {
      hide Step, Assign, Load, Get, Set, Popped, Wrap, ValidLeft, Valid;
      ghost var s := Value();
      PopEffect(s, d);
      PopSteps(s, d);
      TakeTop(d);
      MoveEsp(4);
    }

    /** `pop`, first half. */
    method TakeTop(d: Operand)
      requires ValidLeft(d)
      modifies this
      ensures Value() == Assign(old(Value()), d, Load(old(mem), Get(old(frame), ESP)))
    {
      EspAccess(frame, 0);
      hide Assign, Fetch, Load, Get, Set, Landed, SameElsewhere, ReadReg;
      Leset(d, Load(mem, ReadReg(frame, ESP_ID)));
    }

    /** The stack pointer moves up by k, or down. */
    method MoveEsp(k: int)
      modifies this`frame
      ensures frame == Set(old(frame), ESP, Wrap(Get(old(frame), ESP) + k))
    {
      EspAccess(frame, Wrap(Get(frame, ESP) + k));
      hide ReadReg, WriteReg, Get, Set, Wrap;
      frame := WriteReg(frame, ESP_ID, Wrap(ReadReg(frame, ESP_ID) + k));
    }
  }
}
