/** The instruction emulator, which the source has twice: over the frame an interrupt pushes and over the
    frame kept in a task slot. */
module Emulator {
  import opened Words
  import opened Frames

  datatype Reg = EAX | EBX | ECX | EDX | ESI | EDI | ESP | EBP | EIP | EFLAGS | CS | DS | SS | ES | FS | GS

  /** The frame a register function works on. */
  datatype Frame = OfInterrupt(i: IntRegs) | OfTask(t: TaskRegs)

  function GetInt(i: IntRegs, r: Reg): word {
    match r
    case EAX => i.eax
    case EBX => i.ebx
    case ECX => i.ecx
    case EDX => i.edx
    case ESI => i.esi
    case EDI => i.edi
    case ESP => i.esp
    case EBP => i.ebp
    case EIP => i.eip
    case EFLAGS => i.eflags
    case CS => i.cs
    case DS => i.ds
    case SS => i.ss
    case ES => i.es
    case FS => i.fs
    case GS => i.gs
  }

  function GetTask(t: TaskRegs, r: Reg): word {
    match r
    case EAX => t.eax
    case EBX => t.ebx
    case ECX => t.ecx
    case EDX => t.edx
    case ESI => t.esi
    case EDI => t.edi
    case ESP => t.esp
    case EBP => t.ebp
    case EIP => t.eip
    case EFLAGS => t.eflags
    case CS => t.cs
    case DS => t.ds
    case SS => t.ss
    case ES => t.es
    case FS => t.fs
    case GS => t.gs
  }

  function SetInt(i: IntRegs, r: Reg, v: word): IntRegs {
    match r
    case EAX => i.(eax := v)
    case EBX => i.(ebx := v)
    case ECX => i.(ecx := v)
    case EDX => i.(edx := v)
    case ESI => i.(esi := v)
    case EDI => i.(edi := v)
    case ESP => i.(esp := v)
    case EBP => i.(ebp := v)
    case EIP => i.(eip := v)
    case EFLAGS => i.(eflags := v)
    case CS => i.(cs := v)
    case DS => i.(ds := v)
    case SS => i.(ss := v)
    case ES => i.(es := v)
    case FS => i.(fs := v)
    case GS => i.(gs := v)
  }

  function SetTask(t: TaskRegs, r: Reg, v: word): TaskRegs {
    match r
    case EAX => t.(eax := v)
    case EBX => t.(ebx := v)
    case ECX => t.(ecx := v)
    case EDX => t.(edx := v)
    case ESI => t.(esi := v)
    case EDI => t.(edi := v)
    case ESP => t.(esp := v)
    case EBP => t.(ebp := v)
    case EIP => t.(eip := v)
    case EFLAGS => t.(eflags := v)
    case CS => t.(cs := v)
    case DS => t.(ds := v)
    case SS => t.(ss := v)
    case ES => t.(es := v)
    case FS => t.(fs := v)
    case GS => t.(gs := v)
  }

  function Get(f: Frame, r: Reg): word {
    if f.OfInterrupt? then GetInt(f.i, r) else GetTask(f.t, r)
  }

  function Set(f: Frame, r: Reg, v: word): Frame {
    if f.OfInterrupt? then OfInterrupt(SetInt(f.i, r, v)) else OfTask(SetTask(f.t, r, v))
  }

  lemma GetSetInt(i: IntRegs, a: Reg, v: word, b: Reg)
    ensures GetInt(SetInt(i, a, v), b) == if a == b then v else GetInt(i, b)
  {}

  lemma GetSetTask(t: TaskRegs, a: Reg, v: word, b: Reg)
    ensures GetTask(SetTask(t, a, v), b) == if a == b then v else GetTask(t, b)
  {}

  lemma GetSet(f: Frame, a: Reg, v: word, b: Reg)
    ensures Get(Set(f, a, v), b) == if a == b then v else Get(f, b)
  {
    hide GetInt, GetTask, SetInt, SetTask;
    if f.OfInterrupt? { GetSetInt(f.i, a, v, b); } else { GetSetTask(f.t, a, v, b); }
  }

  /** The same registers, laid out as a task frame. */
  function Saved(f: Frame): (t: Frame) {
    if f.OfInterrupt? then OfTask(Save(f.i)) else f
  }

  lemma SavedGet(f: Frame, r: Reg)
    ensures Get(Saved(f), r) == Get(f, r)
  {}

  lemma SavedSet(f: Frame, r: Reg, v: word)
    ensures Saved(Set(f, r, v)) == Set(Saved(f), r, v)
  {}

  // ---- Registers by number ----

  datatype Part = Full | Low16 | Low8 | High8

  /** `enum i386_reg`. */
  type RegId = x: int | 0 <= x < 33

  function RegOf(id: RegId): Reg {
    if id < 9 then [EAX, EBX, ECX, EDX, ESI, EDI, ESP, EBP, EIP][id]
    else if id < 18 then [EAX, EBX, ECX, EDX, ESI, EDI, ESP, EBP, EIP][id - 9]
    else if id < 22 then [EAX, EBX, ECX, EDX][id - 18]
    else if id < 26 then [EAX, EBX, ECX, EDX][id - 22]
    else [EFLAGS, CS, DS, SS, ES, FS, GS][id - 26]
  }

  function PartOf(id: RegId): Part {
    if id < 9 || id >= 26 then Full else if id < 18 then Low16 else if id < 22 then Low8 else High8
  }

  const ESP_ID: RegId := 6
  const EIP_ID: RegId := 8

  function Bits(w: word): bv32 {
    w as bv32
  }

  function Number(b: bv32): word {
    b as int
  }

  lemma BitsOfNumber(b: bv32)
    ensures Bits(Number(b)) == b
  {}

  function Word16(b: bv32): bv32 {
    b & 0xFFFF
  }

  function Byte0(b: bv32): bv32 {
    b & 0xFF
  }

  function Byte1(b: bv32): bv32 {
    (b & 0xFFFF) >> 8
  }

  // The masks of the register writes: those of the 8-bit registers take the wrong byte of the value.

  function WithWord16(b: bv32, x: bv32): bv32 {
    (b & 0xFFFF_0000) | (x & 0x0000_FFFF)
  }

  function WithByte0(b: bv32, x: bv32): bv32 {
    (b & 0xFFFF_FF00) | (x & 0x0000_FF00)
  }

  function WithByte1(b: bv32, x: bv32): bv32 {
    (b & 0xFFFF_00FF) | (x & 0x0000_00FF)
  }

  function ReadPart(v: word, part: Part): word {
    match part
    case Full => v
    case Low16 => Number(Word16(Bits(v)))
    case Low8 => Number(Byte0(Bits(v)))
    case High8 => Number(Byte1(Bits(v)))
  }

  function WritePart(v: word, part: Part, x: word): word {
    match part
    case Full => x
    case Low16 => Number(WithWord16(Bits(v), Bits(x)))
    case Low8 => Number(WithByte0(Bits(v), Bits(x)))
    case High8 => Number(WithByte1(Bits(v), Bits(x)))
  }

  function ReadReg(f: Frame, id: RegId): word {
    ReadPart(Get(f, RegOf(id)), PartOf(id))
  }

  function WriteReg(f: Frame, id: RegId, x: word): Frame {
    Set(f, RegOf(id), WritePart(Get(f, RegOf(id)), PartOf(id), x))
  }

  /** A value as wide as a part of a register. */
  function Cut(x: word, part: Part): word {
    match part
    case Full => x
    case Low16 => Number(Word16(Bits(x)))
    case _ => Number(Byte0(Bits(x)))
  }

  lemma WriteBits(v: bv32, x: bv32)
    ensures Word16(WithWord16(v, x)) == Word16(x)
    ensures Byte0(WithByte0(v, x)) == 0 && Byte1(WithByte1(v, x)) == 0
  {}

  /** Reading a register back: the 16- and 32-bit registers hold what was written, and an 8-bit one
      holds 0, which is what was written exactly when the low byte of the value is 0. Registers of
      another family keep their values. */
  lemma ReadBack(f: Frame, id: RegId, x: word, other: RegId)
    ensures ReadReg(WriteReg(f, id, x), id) == if PartOf(id) in {Low8, High8} then 0 else Cut(x, PartOf(id))
    ensures ReadReg(WriteReg(f, id, x), id) == Cut(x, PartOf(id)) <==>
            (PartOf(id) in {Low8, High8} ==> Byte0(Bits(x)) == 0)
    ensures RegOf(other) != RegOf(id) ==> ReadReg(WriteReg(f, id, x), other) == ReadReg(f, other)
  {
    var v := Get(f, RegOf(id));
    GetSet(f, RegOf(id), WritePart(v, PartOf(id), x), RegOf(id));
    GetSet(f, RegOf(id), WritePart(v, PartOf(id), x), RegOf(other));
    ReadBackPart(v, PartOf(id), x);
    hide Get, Set, ReadPart, WritePart, Cut, RegOf, PartOf;
  }

  lemma ReadBackPart(v: word, part: Part, x: word)
    ensures ReadPart(WritePart(v, part, x), part) == if part in {Low8, High8} then 0 else Cut(x, part)
    ensures ReadPart(WritePart(v, part, x), part) == Cut(x, part) <==> (part in {Low8, High8} ==> Byte0(Bits(x)) == 0)
  {
    var a, b := Bits(v), Bits(x);
    WriteBits(a, b);
    NumberZero(Byte0(b));
    hide Bits, Number, Word16, Byte0, Byte1, WithWord16, WithByte0, WithByte1;
    match part
    case Full =>
    case Low16 => BitsOfNumber(WithWord16(a, b));
    case Low8 => BitsOfNumber(WithByte0(a, b));
    case High8 => BitsOfNumber(WithByte1(a, b));
  }

  lemma NumberZero(b: bv32)
    ensures Number(0) == 0 && (Number(b) == 0 <==> b == 0)
  {
    BitsOfNumber(b);
    BitsOfNumber(0);
  }

  // ---- Memory ----

  /** The bytes of the address space; those not in the map are 0. */
  type Mem = map<word, byte>

  function ByteAt(m: Mem, a: word): byte {
    if a in m then m[a] else 0
  }

  /** A 32-bit access, low byte first; addresses wrap around. */
  function Load(m: Mem, a: word): word {
    ByteAt(m, a) + ByteAt(m, Wrap(a + 1)) * 0x100
    + ByteAt(m, Wrap(a + 2)) * 0x1_0000 + ByteAt(m, Wrap(a + 3)) * 0x100_0000
  }

  function ByteOf(v: word, k: nat): byte
    requires k < 4
  {
    (if k == 0 then v else if k == 1 then v / 0x100 else if k == 2 then v / 0x1_0000 else v / 0x100_0000) % 256
  }

  function Store(m: Mem, a: word, v: word): Mem {
    m[a := ByteOf(v, 0)][Wrap(a + 1) := ByteOf(v, 1)][Wrap(a + 2) := ByteOf(v, 2)][Wrap(a + 3) := ByteOf(v, 3)]
  }

  lemma StoredByte(m: Mem, a: word, v: word, b: word)
    ensures ByteAt(Store(m, a, v), b)
         == if b == a then ByteOf(v, 0) else if b == Wrap(a + 1) then ByteOf(v, 1)
            else if b == Wrap(a + 2) then ByteOf(v, 2) else if b == Wrap(a + 3) then ByteOf(v, 3) else ByteAt(m, b)
  {
    Apart(a);
    hide ByteOf, Wrap;
  }

  lemma Apart(a: word)
    ensures Wrap(a + 1) != a && Wrap(a + 2) != a && Wrap(a + 3) != a
    ensures Wrap(a + 1) != Wrap(a + 2) && Wrap(a + 1) != Wrap(a + 3) && Wrap(a + 2) != Wrap(a + 3)
  {}

  lemma BytesOfWord(v: word)
    ensures ByteOf(v, 0) + ByteOf(v, 1) * 0x100 + ByteOf(v, 2) * 0x1_0000 + ByteOf(v, 3) * 0x100_0000 == v
  {}

  lemma LoadStore(m: Mem, a: word, v: word)
    ensures Load(Store(m, a, v), a) == v
  {
    StoredByte(m, a, v, a);
    StoredByte(m, a, v, Wrap(a + 1));
    StoredByte(m, a, v, Wrap(a + 2));
    StoredByte(m, a, v, Wrap(a + 3));
    Apart(a);
    BytesOfWord(v);
    hide Store, ByteAt, ByteOf, Wrap;
  }

  // ---- Operands and instructions ----

  datatype Kind = REG | MEM | SIB_RRN | SIB_DRRN | SIB_DRN | IMM

  /** An operand: its fields reg1, reg2, imm1 and imm2 are a union, so all of them are this one word. */
  datatype Operand = Operand(kind: Kind, u: word)

  /** An operand that names a register must name one that exists. */
  predicate Valid(o: Operand) {
    o.kind == IMM || o.u < 33
  }

  predicate ValidLeft(o: Operand) {
    Valid(o) && o.kind != IMM
  }

  /** The address of a memory operand: `reg1` twice, and the register number as the factor. */
  function Address(f: Frame, o: Operand): word
    requires ValidLeft(o) && o.kind != REG
  {
    var r := ReadReg(f, o.u);
    match o.kind
    case SIB_RRN => Wrap(r + r * o.u)
    case SIB_DRRN => Wrap(r + r * o.u + o.u)
    case SIB_DRN => Wrap(r * o.u + o.u)
    case _ => r
  }

  datatype State = State(f: Frame, m: Mem)

  /** LEGET and REGET. */
  function Fetch(s: State, o: Operand): word
    requires Valid(o)
  {
    if o.kind == IMM then o.u
    else if o.kind == REG then ReadReg(s.f, o.u)
    else Load(s.m, Address(s.f, o))
  }

  /** LESET. */
  function Assign(s: State, o: Operand, v: word): State
    requires ValidLeft(o)
  {
    if o.kind == REG then s.(f := WriteReg(s.f, o.u, v)) else s.(m := Store(s.m, Address(s.f, o), v))
  }

  datatype Instr =
    | Add(dst: Operand, src: Operand)
    | Sub(dst: Operand, src: Operand)
    | JmpFar(src: Operand)
    | Push(src: Operand)
    | Pop(dst: Operand)

  predicate ValidInstr(i: Instr) {
    match i
    case Add(d, o) => ValidLeft(d) && Valid(o)
    case Sub(d, o) => ValidLeft(d) && Valid(o)
    case JmpFar(o) => Valid(o)
    case Push(o) => Valid(o)
    case Pop(d) => ValidLeft(d)
  }

  function Step(s: State, i: Instr): State
    requires ValidInstr(i)
  {
    match i
    case Add(d, o) => Assign(s, d, Wrap(Fetch(s, d) + Fetch(s, o)))
    case Sub(d, o) => Assign(s, d, Wrap(Fetch(s, d) - Fetch(s, o)))
    case JmpFar(o) => s.(f := WriteReg(s.f, EIP_ID, Fetch(s, o)))
    case Push(o) =>
      var t := s.(f := WriteReg(s.f, ESP_ID, Wrap(ReadReg(s.f, ESP_ID) - 4)));
      t.(m := Store(t.m, ReadReg(t.f, ESP_ID), Fetch(t, o)))
    case Pop(d) =>
      var t := Assign(s, d, Load(s.m, ReadReg(s.f, ESP_ID)));
      t.(f := WriteReg(t.f, ESP_ID, Wrap(ReadReg(t.f, ESP_ID) + 4)))
  }

  predicate ValidProgram(p: seq<Instr>) {
    forall i :: 0 <= i < |p| ==> ValidInstr(p[i])
  }

  function Run(s: State, p: seq<Instr>): State
    requires ValidProgram(p)
    decreases |p|
  {
    if p == [] then s else Run(Step(s, p[0]), p[1..])
  }

  // ---- What an instruction does, and what it leaves alone ----

  /** What a left operand holds after a value is assigned to it: an 8-bit register holds 0. */
  function Landed(o: Operand, v: word): word
    requires ValidLeft(o)
  {
    if o.kind != REG then v
    else if PartOf(o.u) in {Low8, High8} then 0
    else Cut(v, PartOf(o.u))
  }

  /** The four bytes of a 32-bit access. */
  predicate InWord(a: word, b: word) {
    b == a || b == Wrap(a + 1) || b == Wrap(a + 2) || b == Wrap(a + 3)
  }

  /** Nothing but the left operand d has changed from s to t: the same other registers, the same bytes
      outside its word. */
  ghost predicate SameElsewhere(s: State, t: State, d: Operand)
    requires ValidLeft(d)
  {
    && (forall r: Reg :: (d.kind == REG ==> r != RegOf(d.u)) ==> Get(t.f, r) == Get(s.f, r))
    && (forall b: word :: (d.kind == REG || !InWord(Address(s.f, d), b)) ==> ByteAt(t.m, b) == ByteAt(s.m, b))
  }

  /** Assigning and fetching: the operand reads back, its address stays, and nothing else changes. */
  lemma AssignFetch(s: State, d: Operand, v: word)
    requires ValidLeft(d)
    ensures var t := Assign(s, d, v);
            && Fetch(t, d) == Landed(d, v)
            && SameElsewhere(s, t, d)
            && (d.kind != REG ==> Address(t.f, d) == Address(s.f, d))
  {
    if d.kind == REG {
      var g := RegOf(d.u);
      ReadBack(s.f, d.u, v, d.u);
      hide ReadReg, WritePart, Cut, RegOf, PartOf, Get, Set;
      forall r: Reg ensures r != g ==> Get(WriteReg(s.f, d.u, v), r) == Get(s.f, r) {
        GetSet(s.f, g, WritePart(Get(s.f, g), PartOf(d.u), v), r);
      }
    } else {
      hide ReadReg, Store, Load, ByteAt, Get;
      var a := Address(s.f, d);
      LoadStore(s.m, a, v);
      forall b: word ensures !InWord(a, b) ==> ByteAt(Store(s.m, a, v), b) == ByteAt(s.m, b) {
        StoredByte(s.m, a, v, b);
      }
    }
  }

  /** Subtraction undoes addition, of an immediate to an operand that is not a 16-bit register, exactly
      when the operand is not an 8-bit register, or one that holds 0. Nothing else is touched. */
  lemma SubUndoesAdd(s: State, d: Operand, v: word)
    requires ValidLeft(d) && !(d.kind == REG && PartOf(d.u) == Low16)
    ensures var t := Step(Step(s, Add(d, Operand(IMM, v))), Sub(d, Operand(IMM, v)));
            && (Fetch(t, d) == Fetch(s, d) <==> (d.kind == REG && PartOf(d.u) in {Low8, High8} ==> Fetch(s, d) == 0))
            && SameElsewhere(s, t, d)
  {
    hide Step, Assign, Fetch, Get, ByteAt, Address, Wrap, RegOf, PartOf, SameElsewhere;
    var x := Fetch(s, d);
    var s1 := Assign(s, d, Wrap(x + v));
    var s2 := Assign(s1, d, Wrap(Fetch(s1, d) - v));
    ImmediateSteps(s, d, v);
    ImmediateSteps(s1, d, v);
    AssignFetch(s, d, Wrap(x + v));
    AssignFetch(s1, d, Wrap(Fetch(s1, d) - v));
    UpDown(x, v);
    SameTwice(s, s1, s2, d);
  }

  lemma ImmediateSteps(s: State, d: Operand, v: word)
    requires ValidLeft(d)
    ensures Step(s, Add(d, Operand(IMM, v))) == Assign(s, d, Wrap(Fetch(s, d) + v))
    ensures Step(s, Sub(d, Operand(IMM, v))) == Assign(s, d, Wrap(Fetch(s, d) - v))
  {
    assert Fetch(s, Operand(IMM, v)) == v;
    hide Assign, Fetch, Wrap;
  }

  /** The stack pointer is a whole register. */
  lemma EspAccess(f: Frame, x: word)
    ensures ReadReg(f, ESP_ID) == Get(f, ESP) && WriteReg(f, ESP_ID, x) == Set(f, ESP, x)
  {
    hide Get, Set;
  }

  lemma PopSteps(s: State, d: Operand)
    requires ValidLeft(d)
    ensures var s1 := Assign(s, d, Load(s.m, Get(s.f, ESP)));
            Step(s, Pop(d)) == State(Set(s1.f, ESP, Wrap(Get(s1.f, ESP) + 4)), s1.m)
  {
    hide Assign, Load, Get, Set, Wrap;
  }

  lemma SameTwice(s: State, t: State, u: State, d: Operand)
    requires ValidLeft(d) && SameElsewhere(s, t, d) && SameElsewhere(t, u, d)
    requires d.kind != REG ==> Address(t.f, d) == Address(s.f, d)
    ensures SameElsewhere(s, u, d)
  {
    hide Get, ByteAt, Address, RegOf, Wrap;
  }

  /** A pop has led from s to t: the word at the stack pointer has come into the operand and the stack
      pointer has moved up; when it was the operand, it has moved up from what it had become. Nothing
      else has changed. */
  ghost predicate Popped(s: State, t: State, d: Operand)
    requires ValidLeft(d)
  {
    var esp := Get(s.f, ESP);
    var top := Load(s.m, esp);
    var intoEsp := d.kind == REG && RegOf(d.u) == ESP;
    && Get(t.f, ESP) == Wrap((if intoEsp then WritePart(esp, PartOf(d.u), top) else esp) + 4)
    && (d.kind != REG ==> Load(t.m, Address(s.f, d)) == top)
    && (d.kind == REG && !intoEsp ==> ReadReg(t.f, d.u) == Landed(d, top))
    && SameElsewhere(s, State(Set(t.f, ESP, esp), t.m), d)
  }

  lemma PopEffect(s: State, d: Operand)
    requires ValidLeft(d)
    ensures Popped(s, Step(s, Pop(d)), d)
  {
    var esp := Get(s.f, ESP);
    var top := Load(s.m, esp);
    var s1 := Assign(s, d, top);
    AssignFetch(s, d, top);
    AssignEsp(s, d, top);
    PopSteps(s, d);
    var up := Wrap(Get(s1.f, ESP) + 4);
    hide Step, Assign, Get, Set, ByteAt, Load, Wrap, WritePart, Cut, Address, InWord, SameElsewhere, ReadReg;
    MovedElsewhere(s, s1, up, esp, d);
    MovedRead(s1.f, up, d);
  }

  lemma MovedElsewhere(s: State, s1: State, up: word, esp: word, d: Operand)
    requires ValidLeft(d) && SameElsewhere(s, s1, d) && Get(s.f, ESP) == esp
    ensures SameElsewhere(s, State(Set(Set(s1.f, ESP, up), ESP, esp), s1.m), d)
  {
    hide Get, Set, ByteAt, Address, InWord, RegOf;
    EspMoves(s1.f, up, esp);
  }

  lemma MovedRead(f: Frame, up: word, d: Operand)
    ensures Get(Set(f, ESP, up), ESP) == up
    ensures d.kind == REG && ValidLeft(d) && RegOf(d.u) != ESP ==> ReadReg(Set(f, ESP, up), d.u) == ReadReg(f, d.u)
  {
    hide Get, Set, ReadPart, PartOf, RegOf;
    EspMoves(f, up, up);
  }

  /** A new stack pointer, and the old one in its place again, leave the other registers alone. */
  lemma EspMoves(f: Frame, up: word, esp: word)
    ensures forall r: Reg :: Get(Set(f, ESP, up), r) == if r == ESP then up else Get(f, r)
    ensures forall r: Reg :: Get(Set(Set(f, ESP, up), ESP, esp), r) == if r == ESP then esp else Get(f, r)
  {
    hide Get, Set;
    forall r: Reg ensures Get(Set(f, ESP, up), r) == if r == ESP then up else Get(f, r) { GetSet(f, ESP, up, r); }
    forall r: Reg ensures Get(Set(Set(f, ESP, up), ESP, esp), r) == if r == ESP then esp else Get(f, r) {
      GetSet(Set(f, ESP, up), ESP, esp, r);
    }
  }

  lemma AssignEsp(s: State, d: Operand, v: word)
    requires ValidLeft(d)
    ensures Get(Assign(s, d, v).f, ESP)
         == if d.kind == REG && RegOf(d.u) == ESP then WritePart(Get(s.f, ESP), PartOf(d.u), v) else Get(s.f, ESP)
  {
    if d.kind == REG {
      GetSet(s.f, RegOf(d.u), WritePart(Get(s.f, RegOf(d.u)), PartOf(d.u), v), ESP);
      hide Get, Set, WritePart, RegOf, PartOf;
    }
  }

  lemma UpDown(x: word, v: word)
    ensures Wrap(Wrap(x + v) - v) == x
  {}

  // ---- The two copies agree ----

  function SavedState(s: State): State {
    State(Saved(s.f), s.m)
  }

  lemma SavedRead(f: Frame, id: RegId)
    ensures ReadReg(Saved(f), id) == ReadReg(f, id)
  {
    hide Get, Saved, ReadPart;
    SavedGet(f, RegOf(id));
  }

  lemma SavedWrite(f: Frame, id: RegId, x: word)
    ensures WriteReg(Saved(f), id, x) == Saved(WriteReg(f, id, x))
  {
    hide Get, Set, Saved, WritePart;
    SavedGet(f, RegOf(id));
    SavedSet(f, RegOf(id), WritePart(Get(f, RegOf(id)), PartOf(id), x));
  }

  lemma SavedFetch(s: State, o: Operand)
    requires Valid(o)
    ensures Fetch(SavedState(s), o) == Fetch(s, o)
    ensures o.kind != IMM && o.kind != REG ==> Address(Saved(s.f), o) == Address(s.f, o)
  {
    hide ReadReg, Saved, Load;
    if o.kind != IMM { SavedRead(s.f, o.u); }
  }

  lemma SavedAssign(s: State, o: Operand, v: word)
    requires ValidLeft(o)
    ensures Assign(SavedState(s), o, v) == SavedState(Assign(s, o, v))
  {
    hide Saved, WriteReg, Store, Address;
    SavedFetch(s, o);
    SavedWrite(s.f, o.u, v);
  }

  lemma SavedStep(s: State, i: Instr)
    requires ValidInstr(i)
    ensures Step(SavedState(s), i) == SavedState(Step(s, i))
  {
    hide Saved, WriteReg, ReadReg, Store, Load, Assign, Fetch;
    SavedRead(s.f, ESP_ID);
    match i
    case Add(d, o) =>
      SavedFetch(s, d);
      SavedFetch(s, o);
      SavedAssign(s, d, Wrap(Fetch(s, d) + Fetch(s, o)));
    case Sub(d, o) =>
      SavedFetch(s, d);
      SavedFetch(s, o);
      SavedAssign(s, d, Wrap(Fetch(s, d) - Fetch(s, o)));
    case JmpFar(o) =>
      SavedFetch(s, o);
      SavedWrite(s.f, EIP_ID, Fetch(s, o));
    case Push(o) =>
      SavedWrite(s.f, ESP_ID, Wrap(ReadReg(s.f, ESP_ID) - 4));
      var t := s.(f := WriteReg(s.f, ESP_ID, Wrap(ReadReg(s.f, ESP_ID) - 4)));
      SavedRead(t.f, ESP_ID);
      SavedFetch(t, o);
    case Pop(d) =>
      var v := Load(s.m, ReadReg(s.f, ESP_ID));
      SavedAssign(s, d, v);
      var t := Assign(s, d, v);
      SavedRead(t.f, ESP_ID);
      SavedWrite(t.f, ESP_ID, Wrap(ReadReg(t.f, ESP_ID) + 4));
  }

  lemma {:induction false} SavedRun(s: State, p: seq<Instr>)
    requires ValidProgram(p)
    ensures Run(SavedState(s), p) == SavedState(Run(s, p))
    decreases |p|
  {
    hide Step, SavedState;
    if p != [] {
      SavedStep(s, p[0]);
      SavedRun(Step(s, p[0]), p[1..]);
    }
  }

  /** Main result: saving an interrupt frame, running any program on the task frame and restoring it is
      running the program on the interrupt frame, with the same memory. */
  lemma EmulatorsAgree(r: IntRegs, m: Mem, p: seq<Instr>)
    requires ValidProgram(p)
    ensures var direct, saved := Run(State(OfInterrupt(r), m), p), Run(State(OfTask(Save(r)), m), p);
            && direct.f.OfInterrupt? && saved.f.OfTask?
            && Restore(saved.f.t) == direct.f.i && saved.m == direct.m
  {
    SavedRun(State(OfInterrupt(r), m), p);
    StaysInterrupt(State(OfInterrupt(r), m), p);
    hide Run;
  }

  lemma {:induction false} StaysInterrupt(s: State, p: seq<Instr>)
    requires ValidProgram(p) && s.f.OfInterrupt?
    ensures Run(s, p).f.OfInterrupt?
    decreases |p|
  {
    if p != [] {
      hide Get, SetInt, SetTask, Store, Load, Address, RegOf, PartOf, ReadPart, WritePart;
      StaysInterrupt(Step(s, p[0]), p[1..]);
    }
  }
}
