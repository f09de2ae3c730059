/** The emulator's registers, memory and addresses in numbers. */
module EmulatorLaws {
  import opened Words
  import opened Frames
  import opened Emulator

  // ---- Whole registers ----

  /** `enum i386_reg`: the numbers of the whole registers. */
  lemma RegisterNumbers()
    ensures
      && RegOf(0) == EAX && RegOf(1) == EBX && RegOf(2) == ECX && RegOf(3) == EDX
      && RegOf(4) == ESI && RegOf(5) == EDI && RegOf(6) == ESP && RegOf(7) == EBP
      && RegOf(8) == EIP && RegOf(26) == EFLAGS && RegOf(27) == CS && RegOf(28) == DS
      && RegOf(29) == SS && RegOf(30) == ES && RegOf(31) == FS && RegOf(32) == GS
    ensures forall id: RegId :: id < 9 || id >= 26 ==> PartOf(id) == Full
  {}

  /** Reading a whole register by its number reads this field of an interrupt frame. */
  lemma InterruptReads(r: IntRegs)
    ensures var f := OfInterrupt(r);
            && ReadReg(f, 0) == r.eax && ReadReg(f, 1) == r.ebx && ReadReg(f, 2) == r.ecx && ReadReg(f, 3) == r.edx
            && ReadReg(f, 4) == r.esi && ReadReg(f, 5) == r.edi && ReadReg(f, 6) == r.esp && ReadReg(f, 7) == r.ebp
            && ReadReg(f, 8) == r.eip && ReadReg(f, 26) == r.eflags && ReadReg(f, 27) == r.cs && ReadReg(f, 28) == r.ds
            && ReadReg(f, 29) == r.ss && ReadReg(f, 30) == r.es && ReadReg(f, 31) == r.fs && ReadReg(f, 32) == r.gs
  {
    RegisterNumbers();
    hide RegOf, PartOf;
  }

  /** Writing a whole register by its number writes this field of an interrupt frame and no other. */
  lemma InterruptWrites(r: IntRegs, v: word)
    ensures var f := OfInterrupt(r);
            && WriteReg(f, 0, v).i == r.(eax := v) && WriteReg(f, 1, v).i == r.(ebx := v)
            && WriteReg(f, 2, v).i == r.(ecx := v) && WriteReg(f, 3, v).i == r.(edx := v)
            && WriteReg(f, 4, v).i == r.(esi := v) && WriteReg(f, 5, v).i == r.(edi := v)
            && WriteReg(f, 6, v).i == r.(esp := v) && WriteReg(f, 7, v).i == r.(ebp := v)
            && WriteReg(f, 8, v).i == r.(eip := v) && WriteReg(f, 26, v).i == r.(eflags := v)
            && WriteReg(f, 27, v).i == r.(cs := v) && WriteReg(f, 28, v).i == r.(ds := v)
            && WriteReg(f, 29, v).i == r.(ss := v) && WriteReg(f, 30, v).i == r.(es := v)
            && WriteReg(f, 31, v).i == r.(fs := v) && WriteReg(f, 32, v).i == r.(gs := v)
  {
    RegisterNumbers();
    hide RegOf, PartOf;
  }

  /** Reading a whole register by its number reads this field of a task frame. */
  lemma TaskReads(r: TaskRegs)
    ensures var f := OfTask(r);
            && ReadReg(f, 0) == r.eax && ReadReg(f, 1) == r.ebx && ReadReg(f, 2) == r.ecx && ReadReg(f, 3) == r.edx
            && ReadReg(f, 4) == r.esi && ReadReg(f, 5) == r.edi && ReadReg(f, 6) == r.esp && ReadReg(f, 7) == r.ebp
            && ReadReg(f, 8) == r.eip && ReadReg(f, 26) == r.eflags && ReadReg(f, 27) == r.cs && ReadReg(f, 28) == r.ds
            && ReadReg(f, 29) == r.ss && ReadReg(f, 30) == r.es && ReadReg(f, 31) == r.fs && ReadReg(f, 32) == r.gs
  {
    RegisterNumbers();
    hide RegOf, PartOf;
  }

  /** Writing a whole register by its number writes this field of a task frame and no other. */
  lemma TaskWrites(r: TaskRegs, v: word)
    ensures var f := OfTask(r);
            && WriteReg(f, 0, v).t == r.(eax := v) && WriteReg(f, 1, v).t == r.(ebx := v)
            && WriteReg(f, 2, v).t == r.(ecx := v) && WriteReg(f, 3, v).t == r.(edx := v)
            && WriteReg(f, 4, v).t == r.(esi := v) && WriteReg(f, 5, v).t == r.(edi := v)
            && WriteReg(f, 6, v).t == r.(esp := v) && WriteReg(f, 7, v).t == r.(ebp := v)
            && WriteReg(f, 8, v).t == r.(eip := v) && WriteReg(f, 26, v).t == r.(eflags := v)
            && WriteReg(f, 27, v).t == r.(cs := v) && WriteReg(f, 28, v).t == r.(ds := v)
            && WriteReg(f, 29, v).t == r.(ss := v) && WriteReg(f, 30, v).t == r.(es := v)
            && WriteReg(f, 31, v).t == r.(fs := v) && WriteReg(f, 32, v).t == r.(gs := v)
  {
    RegisterNumbers();
    hide RegOf, PartOf;
  }

  // ---- Parts of registers ----

  /** The whole register of a number: 9 to 17 are the halves of 0 to 8, 18 to 21 the low bytes of 0 to 3, and
      22 to 25 their second bytes. */
  function Whole(id: RegId): (w: RegId)
    ensures w < 9 || w >= 26
  {
    if 9 <= id < 18 then id - 9 else if 18 <= id < 22 then id - 18 else if 22 <= id < 26 then id - 22 else id
  }

  function BitsOf(f: Frame, id: RegId): bv32 {
    Bits(ReadReg(f, id))
  }

  function First(b: bv32): bv32 {
    b & 0xFF
  }

  function Second(b: bv32): bv32 {
    b & 0xFF00
  }

  function LowHalf(b: bv32): bv32 {
    b & 0xFFFF
  }

  function Upper(b: bv32): bv32 {
    b & 0xFFFF_0000
  }

  /** The second byte, as a number of its own. */
  function SecondDown(b: bv32): bv32 {
    (b >> 8) & 0xFF
  }

  function Merged(a: bv32, b: bv32): bv32 {
    a | b
  }

  lemma SameRegister(id: RegId)
    ensures RegOf(id) == RegOf(Whole(id)) && PartOf(Whole(id)) == Full
    ensures PartOf(id) == if 9 <= id < 18 then Low16 else if 18 <= id < 22 then Low8
                          else if 22 <= id < 26 then High8 else Full
  {}

  /** What is read of a part: the low half, the first byte, or the second byte of its register. */
  lemma PartsRead(f: Frame, id: RegId)
    ensures var w := BitsOf(f, Whole(id));
            BitsOf(f, id) == if 9 <= id < 18 then LowHalf(w)
                             else if 18 <= id < 22 then First(w)
                             else if 22 <= id < 26 then SecondDown(w)
                             else w
  {
    hide Get, RegOf, PartOf, Bits, ReadPart, LowHalf, First, SecondDown;
    SameRegister(id);
    ReadBits(Get(f, RegOf(id)));
  }

  lemma ReadBits(v: word)
    ensures ReadPart(v, Full) == v
    ensures Bits(ReadPart(v, Low16)) == LowHalf(Bits(v))
    ensures Bits(ReadPart(v, Low8)) == First(Bits(v))
    ensures Bits(ReadPart(v, High8)) == SecondDown(Bits(v))
  {
    hide Bits, Number, Word16, Byte0, Byte1, LowHalf, First, SecondDown;
    var b := Bits(v);
    BitsOfNumber(Word16(b));
    BitsOfNumber(Byte0(b));
    BitsOfNumber(Byte1(b));
    ReadMasks(b);
  }

  lemma ReadMasks(b: bv32)
    ensures Word16(b) == LowHalf(b) && Byte0(b) == First(b) && Byte1(b) == SecondDown(b)
  {}

  /** The bits n of a register after b was written to one of its parts, where the bits were w: a half is
      replaced under the upper half as it was; a write to the first byte clears it and merges the second
      byte of b into the second byte; a write to the second byte clears it and merges the first byte of b
      into the first byte; the upper half stays. */
  predicate Written(n: bv32, w: bv32, b: bv32, part: Part) {
    match part
    case Full => n == b
    case Low16 => LowHalf(n) == LowHalf(b) && Upper(n) == Upper(w)
    case Low8 => First(n) == 0 && Second(n) == Second(Merged(w, b)) && Upper(n) == Upper(w)
    case High8 => First(n) == First(Merged(w, b)) && Second(n) == 0 && Upper(n) == Upper(w)
  }

  lemma PartsWritten(f: Frame, id: RegId, x: word)
    ensures Written(BitsOf(WriteReg(f, id, x), Whole(id)), BitsOf(f, Whole(id)), Bits(x),
                    if 9 <= id < 18 then Low16 else if 18 <= id < 22 then Low8
                    else if 22 <= id < 26 then High8 else Full)
  {
    hide Get, Set, RegOf, PartOf, Bits, WritePart, Written;
    SameRegister(id);
    var r, v := RegOf(id), Get(f, RegOf(id));
    GetSet(f, r, WritePart(v, PartOf(id), x), r);
    WrittenBits(v, PartOf(id), x);
  }

  lemma WrittenBits(v: word, part: Part, x: word)
    ensures Written(Bits(WritePart(v, part, x)), Bits(v), Bits(x), part)
  {
    hide Bits, Number, WithWord16, WithByte0, WithByte1, LowHalf, First, Second, Upper, Merged;
    var a, b := Bits(v), Bits(x);
    match part
    case Full =>
    case Low16 =>
      BitsOfNumber(WithWord16(a, b));
      HalfWritten(a, b);
    case Low8 =>
      BitsOfNumber(WithByte0(a, b));
      LowWritten(a, b);
      LowMerged(a, b);
    case High8 =>
      BitsOfNumber(WithByte1(a, b));
      SecondWritten(a, b);
  }

  lemma HalfWritten(w: bv32, b: bv32)
    ensures LowHalf(WithWord16(w, b)) == LowHalf(b) && Upper(WithWord16(w, b)) == Upper(w)
  {}

  lemma LowWritten(w: bv32, b: bv32)
    ensures First(WithByte0(w, b)) == 0
    ensures Upper(WithByte0(w, b)) == Upper(w)
  {}

  lemma LowMerged(w: bv32, b: bv32)
    ensures Second(WithByte0(w, b)) == Second(Merged(w, b))
  {
    Distributed(w, b);
    assert (w & 0xFFFF_FF00) & 0xFF00 == w & 0xFF00;
    assert (b & 0x0000_FF00) & 0xFF00 == b & 0xFF00;
    Distributed(w & 0xFFFF_FF00, b & 0x0000_FF00);
  }

  lemma Distributed(w: bv32, b: bv32)
    ensures (w | b) & 0xFF00 == (w & 0xFF00) | (b & 0xFF00)
  {}

  lemma SecondWritten(w: bv32, b: bv32)
    ensures First(WithByte1(w, b)) == First(Merged(w, b)) && Second(WithByte1(w, b)) == 0
    ensures Upper(WithByte1(w, b)) == Upper(w)
  {}

  // ---- Memory ----

  /** A store is little-endian, and wraps around at the end of the address space. */
  lemma StoreBytes(m: Mem, a: word, v: word, b: word)
    ensures var n := Store(m, a, v);
            && ByteAt(n, a) == v % 0x100
            && ByteAt(n, (a + 1) % 0x1_0000_0000) == v / 0x100 % 0x100
            && ByteAt(n, (a + 2) % 0x1_0000_0000) == v / 0x1_0000 % 0x100
            && ByteAt(n, (a + 3) % 0x1_0000_0000) == v / 0x100_0000
            && ((b - a) % 0x1_0000_0000 >= 4 ==> ByteAt(n, b) == ByteAt(m, b))
  {
    Apart(a);
    StoredByte(m, a, v, a);
    StoredByte(m, a, v, Wrap(a + 1));
    StoredByte(m, a, v, Wrap(a + 2));
    StoredByte(m, a, v, Wrap(a + 3));
    StoredByte(m, a, v, b);
    hide Store, ByteAt;
  }

  /** A load is the four bytes of the address, the first the lowest. */
  lemma LoadBytes(m: Mem, a: word, v: word)
    ensures Load(m, a) == v <==>
            && ByteAt(m, a) == v % 0x100
            && ByteAt(m, (a + 1) % 0x1_0000_0000) == v / 0x100 % 0x100
            && ByteAt(m, (a + 2) % 0x1_0000_0000) == v / 0x1_0000 % 0x100
            && ByteAt(m, (a + 3) % 0x1_0000_0000) == v / 0x100_0000
  {
    hide ByteAt;
    FourBytes(ByteAt(m, a), ByteAt(m, Wrap(a + 1)), ByteAt(m, Wrap(a + 2)), ByteAt(m, Wrap(a + 3)), v);
  }

  lemma FourBytes(b0: byte, b1: byte, b2: byte, b3: byte, v: word)
    ensures b0 + b1 * 0x100 + b2 * 0x1_0000 + b3 * 0x100_0000 == v <==>
            b0 == v % 0x100 && b1 == v / 0x100 % 0x100 && b2 == v / 0x1_0000 % 0x100 && b3 == v / 0x100_0000
  {
    BytesOfWord(v);
    if b0 + b1 * 0x100 + b2 * 0x1_0000 + b3 * 0x100_0000 == v {
      LowByte(b0, b1 + b2 * 0x100 + b3 * 0x1_0000);
      LowByte(b1, b2 + b3 * 0x100);
      LowByte(b2, b3);
      Shifted(v);
    }
  }

  lemma LowByte(b: byte, rest: nat)
    ensures (b + 0x100 * rest) % 0x100 == b && (b + 0x100 * rest) / 0x100 == rest
  {}

  lemma Shifted(v: nat)
    ensures v / 0x1_0000 == v / 0x100 / 0x100 && v / 0x100_0000 == v / 0x100 / 0x100 / 0x100
  {}

  // ---- Addresses ----

  /** The addresses of the memory forms: the fields of an operand are one word u, and r is the register of
      that number. */
  lemma Addresses(f: Frame, u: RegId)
    ensures var r := ReadReg(f, u);
            && Address(f, Operand(MEM, u)) == r
            && Address(f, Operand(SIB_RRN, u)) == r * (u + 1) % 0x1_0000_0000
            && Address(f, Operand(SIB_DRRN, u)) == (r * (u + 1) + u) % 0x1_0000_0000
            && Address(f, Operand(SIB_DRN, u)) == (r + 1) * u % 0x1_0000_0000
  {
    hide ReadReg;
    Distributes(ReadReg(f, u), u);
  }

  lemma Distributes(r: int, u: int)
    ensures r + r * u == r * (u + 1) && r * u + u == (r + 1) * u
  {}
}
