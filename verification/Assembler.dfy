/** An assembler for the 32-bit instructions, by numbers alone, and the proof that it and the
    decoder undo each other: every legal instruction is what its encoding decodes to, and
    every word that decodes is the encoding of a legal instruction, but for the bits that its
    format does not use. */
module Assembler {
  import opened Words
  import opened Bits
  import opened Isa
  import opened Alu
  import opened BitLaws
  import opened BitFields
  import opened Registry
  import opened Decoder
  import opened Masks

  // ----- Immediates as numbers -----

  /** The two's-complement reading of a residue modulo m. */
  function Wrapped(v: int, m: int): int {
    if v >= m / 2 then v - m else v
  }

  /** OR-ing a part below 2^k into a multiple of 2^k adds it. */
  lemma {:induction false} OrAdds(high: Word, low: Word, a: nat, k: nat)
    requires k <= 32 && high == a * Pow2(k) && low < Pow2(k) && high + low < 0x1_0000_0000
    ensures Or(high, low) == high + low
  {
    Power32();
    DivModUnique(high + low, Pow2(k), a, low);
    forall i: nat | i < 32 ensures Bit(Or(high, low), i) == Bit(high + low, i) {
      LogicBits(high, low, i);
      BitsUp(a, k, i);
      if i < k {
        BitsCut(high + low, k, i, low);
      } else {
        HighBitsZero(low, k, i);
        BitsDown(high + low, k, i - k, a);
      }
    }
    SameBits(Or(high, low), high + low, 32);
  }

  lemma PlacesAsPowers()
    ensures Pow2(0) == 1 && Pow2(1) == 2 && Pow2(5) == 0x20 && Pow2(7) == 0x80 && Pow2(8) == 0x100 && Pow2(11) == 0x800
    ensures Pow2(12) == 0x1000 && Pow2(19) == 0x8_0000 && Pow2(20) == 0x10_0000 && Pow2(21) == 0x20_0000
    ensures Pow2(25) == 0x200_0000 && Pow2(31) == 0x8000_0000
  {
    SmallPowers();
    assert Pow2(11) == 8 * Pow2(8);
    assert Pow2(19) == 0x100 * Pow2(11);
    assert Pow2(25) == 0x20 * Pow2(20);
    assert Pow2(31) == 0x40 * Pow2(25);
  }

  lemma Doubled(x: Word, n: nat, p: nat)
    requires n < 32 && p == Pow2(n) && x * p < 0x1_0000_0000
    ensures Sll(x, n) == x * p
  {
    Products(x, p);
  }

  /** Moved up and back down, a number takes its sign from its top bit. */
  lemma Extended12(v: Word)
    requires v < 0x1000
    ensures Signed(Sra(Sll(v, 20), 20)) == Wrapped(v, 0x1000)
  {
    PlacesAsPowers();
    Doubled(v, 20, 0x10_0000);
    DivModUnique(Signed(Sll(v, 20)), 0x10_0000, Wrapped(v, 0x1000), 0);
  }

  lemma Extended13(v: Word)
    requires v < 0x2000
    ensures Signed(Sra(Sll(v, 19), 19)) == Wrapped(v, 0x2000)
  {
    PlacesAsPowers();
    Doubled(v, 19, 0x8_0000);
    DivModUnique(Signed(Sll(v, 19)), 0x8_0000, Wrapped(v, 0x2000), 0);
  }

  lemma Extended21(v: Word)
    requires v < 0x20_0000
    ensures Signed(Sra(Sll(v, 11), 11)) == Wrapped(v, 0x20_0000)
  {
    PlacesAsPowers();
    Doubled(v, 11, 0x800);
    DivModUnique(Signed(Sll(v, 11)), 0x800, Wrapped(v, 0x20_0000), 0);
  }

  /** A field moved to its place. */
  lemma Moved(w: Word, from: nat, n: nat, place: nat, size: nat, to: nat, p: nat)
    requires from < 32 && n <= 32 && to < 32 && place == Pow2(from) && size == Pow2(n) && p == Pow2(to) && size * p <= 0x1_0000_0000
    ensures 1 <= size <= 0x1_0000_0000 && 0 <= w / place % size < size
    ensures Sll(And(Srl(w, from), size - 1), to) == w / place % size * p
  {
    var v := w / place % size;
    AtMostProduct(size, p);
    FieldMask(w, from, n, place, size);
    EuclideanDivision(w / place, size);
    BelowProduct(v, size, p);
    Doubled(v, to, p);
  }

  lemma AtMostProduct(a: nat, b: nat)
    requires b >= 1
    ensures a <= a * b
  {
    Products(a, b - 1);
    Distribute(a, 1, b - 1);
  }

  lemma BelowProduct(v: nat, a: nat, b: nat)
    requires v < a && b >= 1
    ensures v * b < a * b
  {
    Products(b, a - v - 1);
    Distribute(b, v, a - v);
    Distribute(b, 1, a - v - 1);
  }

  // The five immediates, from the fields of the word.

  lemma {:induction false} ValueI(w: Word)
    ensures Signed(ImmI(w)) == Wrapped(Funct12(w), 0x1000)
  {
    PlacesAsPowers();
    var t := w / 0x10_0000;
    DivModUnique(Signed(w), 0x10_0000, Wrapped(t, 0x1000), w % 0x10_0000);
  }

  lemma {:induction false} ValueS(w: Word)
    ensures Signed(ImmS(w)) == Wrapped(0x20 * Funct7(w) + Rd(w), 0x1000)
  {
    PlacesAsPowers();
    var f7, rd := Funct7(w), Rd(w);
    Moved(w, 25, 7, 0x200_0000, 0x80, 5, 0x20);
    FieldMask(w, 7, 5, 0x80, 0x20);
    Joined12(f7, rd);
  }

  lemma Joined12(f7: U7, rd: U5)
    ensures Signed(Sra(Sll(Or(f7 * 0x20, rd), 20), 20)) == Wrapped(0x20 * f7 + rd, 0x1000)
  {
    PlacesAsPowers();
    OrAdds(f7 * 0x20, rd, f7, 5);
    Extended12(f7 * 0x20 + rd);
  }

  lemma {:induction false} OrFour(a: Word, b: Word, c: Word, d: Word, ka: nat, x: nat, kb: nat, y: nat, kc: nat, z: nat)
    requires ka <= 32 && kb <= 32 && kc <= 32 && a + b + c + d < 0x1_0000_0000
    requires a == x * Pow2(ka) && b < Pow2(ka) && a + b == y * Pow2(kb) && c < Pow2(kb) && a + b + c == z * Pow2(kc) && d < Pow2(kc)
    ensures Or(Or(Or(a, b), c), d) == a + b + c + d
  {
    OrAdds(a, b, x, ka);
    OrAdds(a + b, c, y, kb);
    OrAdds(a + b + c, d, z, kc);
  }

  /** Bits 12, 11, 10 to 5 and 4 to 1 of a branch offset. */
  function ScatteredB(p: nat, q: nat, r: nat, s: nat): nat {
    p * 0x1000 + q * 0x800 + r * 0x20 + s * 2
  }

  lemma Joined13(p: nat, q: nat, r: nat, s: nat)
    requires p < 2 && q < 2 && r < 0x40 && s < 0x10
    ensures Signed(Sra(Sll(Or(Or(Or(p * 0x1000, q * 0x800), r * 0x20), s * 2), 19), 19)) == Wrapped(ScatteredB(p, q, r, s), 0x2000)
  {
    PlacesAsPowers();
    OrFour(p * 0x1000, q * 0x800, r * 0x20, s * 2, 12, p, 11, 2 * p + q, 5, 0x80 * p + 0x40 * q + r);
    Extended13(ScatteredB(p, q, r, s));
  }

  lemma {:induction false} ValueB(w: Word)
    ensures Signed(ImmB(w))
            == Wrapped(ScatteredB(w / 0x8000_0000 % 2, w / 0x80 % 2, w / 0x200_0000 % 0x40, w / 0x100 % 0x10), 0x2000)
  {
    PlacesAsPowers();
    Moved(w, 31, 1, 0x8000_0000, 2, 12, 0x1000);
    Moved(w, 7, 1, 0x80, 2, 11, 0x800);
    SmallPowers();
    Moved(w, 25, 6, 0x200_0000, 0x40, 5, 0x20);
    Moved(w, 8, 4, 0x100, 0x10, 1, 2);
    Joined13(w / 0x8000_0000 % 2, w / 0x80 % 2, w / 0x200_0000 % 0x40, w / 0x100 % 0x10);
  }

  lemma {:induction false} ValueU(w: Word)
    ensures Signed(ImmU(w)) == Signed(w - w % 0x1000)
  {
    PlacesAsPowers();
    HighMask(w, 12, 0xFFFF_F000);
  }

  /** Bits 20, 19 to 12, 11 and 10 to 1 of a jump offset. */
  function ScatteredJ(p: nat, q: nat, r: nat, s: nat): nat {
    p * 0x10_0000 + q * 0x1000 + r * 0x800 + s * 2
  }

  lemma Joined21(p: nat, q: nat, r: nat, s: nat)
    requires p < 2 && q < 0x100 && r < 2 && s < 0x400
    ensures Signed(Sra(Sll(Or(Or(Or(p * 0x10_0000, q * 0x1000), r * 0x800), s * 2), 11), 11)) == Wrapped(ScatteredJ(p, q, r, s), 0x20_0000)
  {
    PlacesAsPowers();
    OrFour(p * 0x10_0000, q * 0x1000, r * 0x800, s * 2, 20, p, 12, 0x100 * p + q, 11, 0x200 * p + 2 * q + r);
    Extended21(ScatteredJ(p, q, r, s));
  }

  lemma {:induction false} ValueJ(w: Word)
    ensures Signed(ImmJ(w))
            == Wrapped(ScatteredJ(w / 0x8000_0000 % 2, w / 0x1000 % 0x100, w / 0x10_0000 % 2, w / 0x20_0000 % 0x400), 0x20_0000)
  {
    MovedJ(w);
    Joined21(w / 0x8000_0000 % 2, w / 0x1000 % 0x100, w / 0x10_0000 % 2, w / 0x20_0000 % 0x400);
  }

  lemma MovedJ(w: Word)
    ensures Sll(And(Srl(w, 31), 1), 20) == w / 0x8000_0000 % 2 * 0x10_0000
    ensures Sll(And(Srl(w, 12), 0xFF), 12) == w / 0x1000 % 0x100 * 0x1000
    ensures Sll(And(Srl(w, 20), 1), 11) == w / 0x10_0000 % 2 * 0x800
    ensures Sll(And(Srl(w, 21), 0x3FF), 1) == w / 0x20_0000 % 0x400 * 2
  {
    PlacesAsPowers();
    SmallPowers();
    Moved(w, 31, 1, 0x8000_0000, 2, 20, 0x10_0000);
    Moved(w, 12, 8, 0x1000, 0x100, 12, 0x1000);
    Moved(w, 20, 1, 0x10_0000, 2, 11, 0x800);
    Moved(w, 21, 10, 0x20_0000, 0x400, 1, 2);
  }

  /** The parts of scattered immediates, by the fields they lie in. */
  lemma PartsOfB(w: Word)
    ensures w / 0x8000_0000 % 2 == Funct7(w) / 0x40 && w / 0x200_0000 % 0x40 == Funct7(w) % 0x40
    ensures w / 0x80 % 2 == Rd(w) % 2 && w / 0x100 % 0x10 == Rd(w) / 2
  {
    TopField(w, 0x200_0000, 0x80);
    DivideTwice(w, 0x200_0000, 0x40);
    DivideTwice(w, 0x80, 2);
    DivideTwice(w / 0x80, 2, 0x10);
    Remainders(w / 0x80, 2, 0x10);
  }

  lemma PartsOfJ(w: Word)
    ensures w / 0x8000_0000 % 2 == Funct12(w) / 0x800 && w / 0x1000 % 0x100 == Funct3(w) + 8 * Rs1(w)
    ensures w / 0x10_0000 % 2 == Funct12(w) % 2 && w / 0x20_0000 % 0x400 == Funct12(w) / 2 % 0x400
  {
    TopField(w, 0x10_0000, 0x1000);
    DivideTwice(w, 0x10_0000, 0x800);
    DivideTwice(w, 0x10_0000, 2);
    DivideTwice(w, 0x1000, 8);
    DivideTwice(w / 0x1000, 8, 0x20);
    Remainders(w / 0x1000, 8, 0x20);
  }

  /** The highest field needs no cutting. */
  lemma TopField(w: Word, place: nat, size: nat)
    requires place > 0 && place * size == 0x1_0000_0000
    ensures w / place < size && w / place % size == w / place
  {
    EuclideanDivision(w, place);
    Products(place, w / place - size);
    Distribute(place, size, w / place - size);
    QuotientNotNegative(w, place);
    SmallRemainder(w / place, size);
  }

  lemma Remainders(v: nat, a: nat, b: nat)
    requires a > 0 && b > 0
    ensures a * b > 0 && v % (a * b) % a == v % a
  {
    DivideTwice(v, a, b);
    var q, r := v / (a * b), v % (a * b);
    EuclideanDivision(v, a * b);
    EuclideanDivision(r, a);
    Associate(a, b, q);
    Distribute(a, b * q, r / a);
    DivModUnique(v, a, b * q + r / a, r % a);
  }

  // ----- The encoder -----

  datatype Layout = Plain | Registers | Shift | Immediate | Store | Branch | Upper | Jump

  function LayoutOfI(op: OpI): Layout {
    match op
    case ECALL | EBREAK | FENCE | FENCE_I => Plain
    case ADD | SUB | SLL | SLT | SLTU | XOR | SRL | SRA | OR | AND => Registers
    case SLLI | SRLI | SRAI => Shift
    case SB | SH | SW => Store
    case BEQ | BNE | BLT | BGE | BLTU | BGEU => Branch
    case LUI | AUIPC => Upper
    case JAL => Jump
    case _ => Immediate
  }

  /** Where an instruction's operands are. */
  function LayoutOf(op: Opcode): Layout {
    match op
    case I(i) => LayoutOfI(i)
    case Csr(_) => Immediate
    case Zbb(z) => if z in {RORI, CLZ, CTZ, CPOP, SEXT_B, SEXT_H, ORC_B, REV8} then Shift else Registers
    case Zbs(z) => if z in {BCLRI, BEXTI, BINVI, BSETI} then Shift else Registers
    case _ => Registers
  }

  /** The word of an instruction with this row: the numbers that the row gives, and the
      operands. */
  function Laid(l: Layout, e: Entry, inst: Instruction): Word {
    var o, f3, rd, rs1, rs2, imm := e.opcode7, OrZero(e.f3), inst.rd, inst.rs1, inst.rs2, inst.imm;
    match l
    case Plain => Sample(e)
    case Registers => Assembled(o, rd, f3, rs1, 0x20 * Top7(e) + rs2)
    case Shift => Assembled(o, rd, f3, rs1, 0x20 * Top7(e) + imm % 0x20)
    case Immediate => Assembled(o, rd, f3, rs1, imm % 0x1000)
    case Store => Assembled(o, imm % 0x20, f3, rs1, 0x20 * (imm / 0x20 % 0x80) + rs2)
    case Branch =>
      Assembled(o, 2 * (imm / 2 % 0x10) + imm / 0x800 % 2, f3, rs1, 0x20 * (0x40 * (imm / 0x1000 % 2) + imm / 0x20 % 0x40) + rs2)
    case Upper => Assembled(o, rd, imm / 0x1000 % 8, imm / 0x8000 % 0x20, imm / 0x10_0000 % 0x1000)
    case Jump =>
      Assembled(o, rd, imm / 0x1000 % 8, imm / 0x8000 % 0x20, 0x800 * (imm / 0x10_0000 % 2) + 2 * (imm / 2 % 0x400) + imm / 0x800 % 2)
  }

  function Encode(inst: Instruction): Word {
    Laid(LayoutOf(inst.op), RowOf(inst.op), inst)
  }

  /** The instructions that there are: operands that the layout does not have are zero, and
      immediates are in its range. */
  predicate Fits(l: Layout, e: Entry, inst: Instruction) {
    var imm := inst.imm;
    inst.compressed == None && inst.op == e.op
    && match l
       case Plain => inst.rd == 0 && inst.rs1 == 0 && inst.rs2 == 0 && imm == 0
       case Registers => imm == 0 && (e.rs2.Some? ==> inst.rs2 == e.rs2.value)
       case Shift => inst.rs2 == 0 && 0 <= imm < 0x20 && (e.rs2.Some? ==> imm == e.rs2.value)
       case Immediate => inst.rs2 == 0 && -0x800 <= imm < 0x800
       case Store => inst.rd == 0 && -0x800 <= imm < 0x800
       case Branch => inst.rd == 0 && -0x1000 <= imm < 0x1000 && imm % 2 == 0
       case Upper => inst.rs1 == 0 && inst.rs2 == 0 && imm % 0x1000 == 0
       case Jump => inst.rs1 == 0 && inst.rs2 == 0 && -0x10_0000 <= imm < 0x10_0000 && imm % 2 == 0
  }

  predicate Legal(inst: Instruction) {
    Fits(LayoutOf(inst.op), RowOf(inst.op), inst)
  }

  /** The fields that the row of each layout gives. */
  predicate Shape(l: Layout, e: Entry) {
    e.opcode7 % 4 == 3
    && match l
       case Plain => e.f3.Some? && e.f7.None? && e.f5.None? && e.rs2.None?
       case Registers => e.f3.Some? && e.f12.None? && e.rd.None? && e.rs1.None? && (e.f7.Some? || e.f5.Some?) && !(e.f7.Some? && e.f5.Some?)
       case Shift => e.f3.Some? && e.f12.None? && e.rd.None? && e.rs1.None? && e.f7.Some? && e.f5.None?
       case Immediate | Store | Branch => e == ByF3(e.op, e.opcode7, OrZero(e.f3))
       case Upper | Jump => e == ByOpcode(e.op, e.opcode7)
  }

  /** The layout of a row is what the registry's format says. */
  predicate Formatted(l: Layout, e: Entry) {
    (l == Plain <==> e.op in {I(ECALL), I(EBREAK), I(FENCE), I(FENCE_I)})
    && (e.op.A? <==> l == Registers && e.f7.None?)
    && match l
       case Plain => true
       case Registers => FormatOf(e.op) == FormatR
       case Shift => FormatOf(e.op) == FormatI && e.opcode7 == 0x13 && (e.f3 == Some(1) || e.f3 == Some(5))
       case Immediate => FormatOf(e.op) == FormatI && !(e.opcode7 == 0x13 && (e.f3 == Some(1) || e.f3 == Some(5)))
       case Store => FormatOf(e.op) == FormatS
       case Branch => FormatOf(e.op) == FormatB
       case Upper => FormatOf(e.op) == FormatU
       case Jump => FormatOf(e.op) == FormatJ
  }

  lemma ShapeOfShiftI(op: OpI)
    requires LayoutOfI(op) == Shift
    ensures Shape(LayoutOfI(op), RowI(op)) && Formatted(LayoutOfI(op), RowI(op))
  {
  }

  lemma ShapeOfRegisterI(op: OpI)
    requires LayoutOfI(op) == Registers
    ensures Shape(LayoutOfI(op), RowI(op)) && Formatted(LayoutOfI(op), RowI(op))
  {
  }

  lemma ShapeOfMemoryI(op: OpI)
    requires LayoutOfI(op) == Store || LayoutOfI(op) == Branch || LayoutOfI(op) == Plain
    ensures Shape(LayoutOfI(op), RowI(op)) && Formatted(LayoutOfI(op), RowI(op))
  {
  }

  lemma ShapeOfOtherI(op: OpI)
    requires LayoutOfI(op) == Immediate || LayoutOfI(op) == Upper || LayoutOfI(op) == Jump
    ensures Shape(LayoutOfI(op), RowI(op)) && Formatted(LayoutOfI(op), RowI(op))
  {
  }

  lemma ShapeOfI(op: OpI)
    ensures Shape(LayoutOfI(op), RowI(op)) && Formatted(LayoutOfI(op), RowI(op))
  {
    match LayoutOfI(op)
    case Registers => ShapeOfRegisterI(op);
    case Shift => ShapeOfShiftI(op);
    case Store | Branch | Plain => ShapeOfMemoryI(op);
    case _ => ShapeOfOtherI(op);
  }

  lemma ShapeOfZbb(op: OpZbb)
    ensures Shape(LayoutOf(Zbb(op)), RowZbb(op)) && Formatted(LayoutOf(Zbb(op)), RowZbb(op))
  {
  }

  lemma ShapeOfOthers(op: Opcode)
    requires !op.I? && !op.Zbb?
    ensures Shape(LayoutOf(op), RowOf(op)) && Formatted(LayoutOf(op), RowOf(op))
  {
  }

  lemma RowShape(op: Opcode)
    ensures Shape(LayoutOf(op), RowOf(op)) && Formatted(LayoutOf(op), RowOf(op))
  {
    match op
    case I(x) => ShapeOfI(x);
    case Zbb(x) => ShapeOfZbb(x);
    case _ => ShapeOfOthers(op);
  }

  /** What the decoder makes of a word with these fields. */
  function ReadFields(l: Layout, op: Opcode, f: Fields, raw: Word): Instruction {
    match l
    case Plain => Instruction(op, raw := raw)
    case Registers => Instruction(op, f.rd, f.rs1, f.rs2, raw := raw)
    case Shift => Instruction(op, f.rd, f.rs1, imm := f.rs2, raw := raw)
    case Immediate => Instruction(op, f.rd, f.rs1, imm := f.immI, raw := raw)
    case Store => Instruction(op, rs1 := f.rs1, rs2 := f.rs2, imm := f.immS, raw := raw)
    case Branch => Instruction(op, rs1 := f.rs1, rs2 := f.rs2, imm := f.immB, raw := raw)
    case Upper => Instruction(op, f.rd, imm := f.immU, raw := raw)
    case Jump => Instruction(op, f.rd, imm := f.immJ, raw := raw)
  }

  function Read(l: Layout, op: Opcode, w: Word): Instruction {
    ReadFields(l, op, FieldsOf(w), w)
  }

  lemma FieldsAreRead(l: Layout, e: Entry, f: Fields, raw: Word)
    requires Formatted(l, e) && (e.f3.Some? ==> f.f3 == e.f3.value) && ((l == Shift || l == Immediate) ==> e.f3.Some?)
    ensures InstructionOf(e, f, raw) == ReadFields(l, e.op, f, raw)
  {
  }

  lemma InstructionIsRead(l: Layout, e: Entry, w: Word)
    requires Formatted(l, e) && Shape(l, e) && FieldsMatch(e, w)
    ensures InstructionOf(e, FieldsOf(w), w) == Read(l, e.op, w)
  {
    FieldsAreRead(l, e, FieldsOf(w), w);
  }

  // ----- Encoding, then decoding -----

  /** What an encoding has to be for the decoder to give the instruction back. */
  predicate Encodes(l: Layout, e: Entry, inst: Instruction, w: Word) {
    FieldsMatch(e, w) && Read(l, e.op, w) == inst.(raw := w)
  }

  lemma PlainEncodes(e: Entry, inst: Instruction)
    requires Fits(Plain, e, inst) && Consistent(e)
    ensures Encodes(Plain, e, inst, Laid(Plain, e, inst))
  {
    SampleAgrees(e);
  }

  /** The top bits that a row of this kind gives. */
  lemma TopOfRow(e: Entry, rs2: U5)
    requires e.f12.None? && !(e.f7.Some? && e.f5.Some?) && (e.rs2.Some? ==> e.rs2.value == rs2)
    ensures var t := 0x20 * Top7(e) + rs2;
            && 0 <= t < 0x1000 && t % 0x20 == rs2
            && (e.f7.Some? ==> t / 0x20 == e.f7.value) && (e.f5.Some? ==> t / 0x80 == e.f5.value)
  {
    DivModUnique(0x20 * Top7(e) + rs2, 0x20, Top7(e), rs2);
    DivModUnique(0x20 * Top7(e) + rs2, 0x80, Top7(e) / 4, 0x20 * (Top7(e) % 4) + rs2);
  }

  lemma {:induction false} RegistersEncode(e: Entry, inst: Instruction)
    requires Fits(Registers, e, inst) && Shape(Registers, e)
    ensures Encodes(Registers, e, inst, Laid(Registers, e, inst))
  {
    TopOfRow(e, inst.rs2);
    AssembledFields(e.opcode7, inst.rd, OrZero(e.f3), inst.rs1, 0x20 * Top7(e) + inst.rs2);
  }

  lemma {:induction false} ShiftEncodes(e: Entry, inst: Instruction)
    requires Fits(Shift, e, inst) && Shape(Shift, e)
    ensures Encodes(Shift, e, inst, Laid(Shift, e, inst))
  {
    SmallRemainder(inst.imm, 0x20);
    TopOfRow(e, inst.imm);
    AssembledFields(e.opcode7, inst.rd, OrZero(e.f3), inst.rs1, 0x20 * Top7(e) + inst.imm);
  }

  lemma {:induction false} ImmediateEncodes(e: Entry, inst: Instruction)
    requires Fits(Immediate, e, inst) && Shape(Immediate, e)
    ensures Encodes(Immediate, e, inst, Laid(Immediate, e, inst))
  {
    var w := Laid(Immediate, e, inst);
    AssembledFields(e.opcode7, inst.rd, OrZero(e.f3), inst.rs1, inst.imm % 0x1000);
    OnlyF3(e, w);
    ReadImmediate(w, inst.imm);
  }

  lemma ReadImmediate(w: Word, imm: int)
    requires Funct12(w) == imm % 0x1000 && -0x800 <= imm < 0x800
    ensures Signed(ImmI(w)) == imm
  {
    ValueI(w);
    SignDigit(imm, 0x1000);
  }

  lemma OnlyF3(e: Entry, w: Word)
    requires e == ByF3(e.op, e.opcode7, OrZero(e.f3)) && Opcode7(w) == e.opcode7 && Funct3(w) == OrZero(e.f3)
    ensures FieldsMatch(e, w)
  {
  }

  lemma {:induction false} StoreEncodes(e: Entry, inst: Instruction)
    requires Fits(Store, e, inst) && Shape(Store, e)
    ensures Encodes(Store, e, inst, Laid(Store, e, inst))
  {
    var imm, w := inst.imm, Laid(Store, e, inst);
    AssembledFields(e.opcode7, imm % 0x20, OrZero(e.f3), inst.rs1, 0x20 * (imm / 0x20 % 0x80) + inst.rs2);
    OffsetOfS(w, imm, inst.rs2);
    OnlyF3(e, w);
  }

  lemma OffsetOfS(w: Word, imm: int, rs2: U5)
    requires Rd(w) == imm % 0x20 && -0x800 <= imm < 0x800
    requires Funct7(w) == (0x20 * (imm / 0x20 % 0x80) + rs2) / 0x20 && Rs2(w) == (0x20 * (imm / 0x20 % 0x80) + rs2) % 0x20
    ensures Signed(ImmS(w)) == imm && Rs2(w) == rs2
  {
    DivModUnique(0x20 * (imm / 0x20 % 0x80) + rs2, 0x20, imm / 0x20 % 0x80, rs2);
    ReadS(w, imm / 0x20 % 0x80, imm % 0x20);
    GatheredS(imm);
  }

  lemma ReadS(w: Word, f7: U7, rd: U5)
    requires Funct7(w) == f7 && Rd(w) == rd
    ensures Signed(ImmS(w)) == Wrapped(0x20 * f7 + rd, 0x1000)
  {
    ValueS(w);
  }

  /** Taking a number apart, digit by digit. */
  lemma Digit(x: int, d: nat, m: nat, dm: nat)
    requires d > 0 && m > 0 && dm == d * m
    ensures dm > 0 && x / d == m * (x / dm) + x / d % m
  {
    var y := x / d;
    EuclideanDivision(x, d);
    EuclideanDivision(y, m);
    Associate(d, m, y / m);
    Distribute(d, m * (y / m), y % m);
    BelowProduct(y % m, m, d);
    RoomForOne(d, y % m, m);
    DivModUnique(x, dm, y / m, d * (y % m) + x % d);
  }

  lemma SignDigit(x: int, m: int)
    requires 0 < m && 0 - m <= x < m
    ensures x / m == (if x < 0 then -1 else 0) && x % m == if x < 0 then x + m else x
  {
    DivModUnique(x, m, if x < 0 then -1 else 0, if x < 0 then x + m else x);
  }

  lemma GatheredS(imm: int)
    requires -0x800 <= imm < 0x800
    ensures Wrapped(0x20 * (imm / 0x20 % 0x80) + imm % 0x20, 0x1000) == imm
  {
  }

  lemma {:induction false} BranchEncodes(e: Entry, inst: Instruction)
    requires Fits(Branch, e, inst) && Shape(Branch, e)
    ensures Encodes(Branch, e, inst, Laid(Branch, e, inst))
  {
    var imm, w := inst.imm, Laid(Branch, e, inst);
    AssembledFields(e.opcode7, 2 * (imm / 2 % 0x10) + imm / 0x800 % 2, OrZero(e.f3), inst.rs1,
                    0x20 * (0x40 * (imm / 0x1000 % 2) + imm / 0x20 % 0x40) + inst.rs2);
    OffsetOfB(w, imm, inst.rs2);
    OnlyF3(e, w);
  }

  lemma OffsetOfB(w: Word, imm: int, rs2: U5)
    requires Rd(w) == 2 * (imm / 2 % 0x10) + imm / 0x800 % 2 && -0x1000 <= imm < 0x1000 && imm % 2 == 0
    requires Funct7(w) == (0x20 * (0x40 * (imm / 0x1000 % 2) + imm / 0x20 % 0x40) + rs2) / 0x20
    requires Rs2(w) == (0x20 * (0x40 * (imm / 0x1000 % 2) + imm / 0x20 % 0x40) + rs2) % 0x20
    ensures Signed(ImmB(w)) == imm && Rs2(w) == rs2
  {
    var p, q, r, s := imm / 0x1000 % 2, imm / 0x800 % 2, imm / 0x20 % 0x40, imm / 2 % 0x10;
    FieldsOfB(p, q, r, s, rs2);
    ReadB(w, p, q, r, s);
    GatheredB(imm);
  }

  lemma ReadB(w: Word, p: nat, q: nat, r: nat, s: nat)
    requires Funct7(w) / 0x40 == p && Funct7(w) % 0x40 == r && Rd(w) % 2 == q && Rd(w) / 2 == s
    ensures Signed(ImmB(w)) == Wrapped(ScatteredB(p, q, r, s), 0x2000)
  {
    ValueB(w);
    PartsOfB(w);
  }

  lemma FieldsOfB(p: nat, q: nat, r: nat, s: nat, rs2: U5)
    requires p < 2 && q < 2 && r < 0x40 && s < 0x10
    ensures (2 * s + q) % 2 == q && (2 * s + q) / 2 == s
    ensures var t := 0x20 * (0x40 * p + r) + rs2; t / 0x20 / 0x40 == p && t / 0x20 % 0x40 == r && t % 0x20 == rs2
  {
    DivModUnique(2 * s + q, 2, s, q);
    DivModUnique(0x20 * (0x40 * p + r) + rs2, 0x20, 0x40 * p + r, rs2);
    DivModUnique(0x40 * p + r, 0x40, p, r);
  }

  lemma GatheredB(imm: int)
    requires -0x1000 <= imm < 0x1000 && imm % 2 == 0
    ensures Wrapped(ScatteredB(imm / 0x1000 % 2, imm / 0x800 % 2, imm / 0x20 % 0x40, imm / 2 % 0x10), 0x2000) == imm
  {
    Digit(imm, 2, 0x10, 0x20);
    Digit(imm, 0x20, 0x40, 0x800);
    Digit(imm, 0x800, 2, 0x1000);
    SignDigit(imm, 0x1000);
  }

  lemma {:induction false} UpperEncodes(e: Entry, inst: Instruction)
    requires Fits(Upper, e, inst) && Shape(Upper, e)
    ensures Encodes(Upper, e, inst, Laid(Upper, e, inst))
  {
    var imm, w := inst.imm, Laid(Upper, e, inst);
    AssembledFields(e.opcode7, inst.rd, imm / 0x1000 % 8, imm / 0x8000 % 0x20, imm / 0x10_0000 % 0x1000);
    ReadU(e, inst, w);
  }

  lemma ReadU(e: Entry, inst: Instruction, w: Word)
    requires w == Laid(Upper, e, inst) && inst.imm % 0x1000 == 0
    ensures Signed(ImmU(w)) == inst.imm
  {
    ValueU(w);
    GatheredU(inst.imm);
    DivModUnique(w, 0x1000, inst.imm / 0x1000 % 8 + 8 * (inst.imm / 0x8000 % 0x20) + 0x100 * (inst.imm / 0x10_0000 % 0x1000),
                 e.opcode7 + 0x80 * inst.rd);
  }

  lemma GatheredU(imm: Int32)
    requires imm % 0x1000 == 0
    ensures var v := imm / 0x1000 % 8 + 8 * (imm / 0x8000 % 0x20) + 0x100 * (imm / 0x10_0000 % 0x1000);
            0 <= v < 0x10_0000 && Signed(0x1000 * v) == imm
  {
    Digit(imm, 0x1000, 8, 0x8000);
    Digit(imm, 0x8000, 0x20, 0x10_0000);
    Digit(imm, 0x10_0000, 0x1000, 0x1_0000_0000);
  }

  lemma {:induction false} JumpEncodes(e: Entry, inst: Instruction)
    requires Fits(Jump, e, inst) && Shape(Jump, e)
    ensures Encodes(Jump, e, inst, Laid(Jump, e, inst))
  {
    var imm, w := inst.imm, Laid(Jump, e, inst);
    AssembledFields(e.opcode7, inst.rd, imm / 0x1000 % 8, imm / 0x8000 % 0x20,
                    0x800 * (imm / 0x10_0000 % 2) + 2 * (imm / 2 % 0x400) + imm / 0x800 % 2);
    OffsetOfJ(w, imm);
    OnlyOpcode(e, w);
  }

  lemma OnlyOpcode(e: Entry, w: Word)
    requires e == ByOpcode(e.op, e.opcode7) && Opcode7(w) == e.opcode7
    ensures FieldsMatch(e, w)
  {
  }

  lemma OffsetOfJ(w: Word, imm: int)
    requires Funct3(w) == imm / 0x1000 % 8 && Rs1(w) == imm / 0x8000 % 0x20 && -0x10_0000 <= imm < 0x10_0000 && imm % 2 == 0
    requires Funct12(w) == 0x800 * (imm / 0x10_0000 % 2) + 2 * (imm / 2 % 0x400) + imm / 0x800 % 2
    ensures Signed(ImmJ(w)) == imm
  {
    var p, r, s := imm / 0x10_0000 % 2, imm / 0x800 % 2, imm / 2 % 0x400;
    FieldsOfJ(p, r, s);
    ReadJ(w, p, imm / 0x1000 % 8 + 8 * (imm / 0x8000 % 0x20), r, s);
    GatheredJ(imm);
  }

  lemma ReadJ(w: Word, p: nat, q: nat, r: nat, s: nat)
    requires Funct12(w) / 0x800 == p && Funct3(w) + 8 * Rs1(w) == q && Funct12(w) % 2 == r && Funct12(w) / 2 % 0x400 == s
    ensures Signed(ImmJ(w)) == Wrapped(ScatteredJ(p, q, r, s), 0x20_0000)
  {
    ValueJ(w);
    PartsOfJ(w);
  }

  lemma FieldsOfJ(p: nat, r: nat, s: nat)
    requires p < 2 && r < 2 && s < 0x400
    ensures var t := 0x800 * p + 2 * s + r; t / 0x800 == p && t % 2 == r && t / 2 % 0x400 == s
  {
    DivModUnique(0x800 * p + 2 * s + r, 0x800, p, 2 * s + r);
    DivModUnique(0x800 * p + 2 * s + r, 2, 0x400 * p + s, r);
    DivModUnique(0x400 * p + s, 0x400, p, s);
  }

  lemma GatheredJ(imm: int)
    requires -0x10_0000 <= imm < 0x10_0000 && imm % 2 == 0
    ensures Wrapped(ScatteredJ(imm / 0x10_0000 % 2, imm / 0x1000 % 8 + 8 * (imm / 0x8000 % 0x20), imm / 0x800 % 2, imm / 2 % 0x400),
                    0x20_0000) == imm
  {
    Digit(imm, 2, 0x400, 0x800);
    Digit(imm, 0x800, 2, 0x1000);
    Digit(imm, 0x1000, 8, 0x8000);
    Digit(imm, 0x8000, 0x20, 0x10_0000);
    SignDigit(imm, 0x10_0000);
  }

  lemma {:induction false} LaidEncodes(l: Layout, e: Entry, inst: Instruction)
    requires Fits(l, e, inst) && Shape(l, e) && Consistent(e)
    ensures Encodes(l, e, inst, Laid(l, e, inst))
  {
    match l
    case Plain => PlainEncodes(e, inst);
    case Registers => RegistersEncode(e, inst);
    case Shift => ShiftEncodes(e, inst);
    case Immediate => ImmediateEncodes(e, inst);
    case Store => StoreEncodes(e, inst);
    case Branch => BranchEncodes(e, inst);
    case Upper => UpperEncodes(e, inst);
    case Jump => JumpEncodes(e, inst);
  }

  /** An encoding has its row's opcode7, so it is a 32-bit one. */
  lemma NotCompressed(w: Word)
    requires Opcode7(w) % 4 == 3
    ensures !IsCompressed(w)
  {
    DivModUnique(w, 4, 0x20 * (w / 0x80) + Opcode7(w) / 4, 3);
  }

  /** Every legal instruction is what its encoding decodes to, in every field. */
  lemma {:induction false} DecodesEncoded(expand: DecodeFn, inst: Instruction)
    requires Legal(inst)
    ensures !IsCompressed(Encode(inst)) && Decode(expand, Encode(inst)) == Some(inst.(raw := Encode(inst)))
  {
    var l, e, w := LayoutOf(inst.op), RowOf(inst.op), Encode(inst);
    RowShape(inst.op);
    RowConsistent(inst.op);
    LaidEncodes(l, e, inst);
    InstructionIsRead(l, e, w);
    NotCompressed(w);
    AgreesIsFieldsMatch(e, w);
    EveryRowDecodes(inst.op, FieldsOf(w), w);
  }

  // ----- Decoding, then encoding -----

  /** A word is its fields. */
  lemma Rebuilt(w: Word)
    ensures w == Assembled(Opcode7(w), Rd(w), Funct3(w), Rs1(w), Funct12(w)) && Funct12(w) == 0x20 * Funct7(w) + Rs2(w)
  {
    TopField(w, 0x10_0000, 0x1000);
    TopField(w, 0x200_0000, 0x80);
    EuclideanDivision(w, 0x80);
    Digit(w, 0x80, 0x20, 0x1000);
    Digit(w, 0x1000, 8, 0x8000);
    Digit(w, 0x8000, 0x20, 0x10_0000);
    Digit(w, 0x10_0000, 0x20, 0x200_0000);
  }

  /** The word without the bits that its instruction does not use: the two ordering bits of an
      atomic, and all but opcode and function of a fence. */
  function Used(op: Opcode, w: Word): int {
    if op.A? then w - 0x200_0000 * (w / 0x200_0000 % 4)
    else if op == I(FENCE) || op == I(FENCE_I) then w % 0x80 + 0x1000 * (w / 0x1000 % 8)
    else w
  }

  /** The instruction that a word with a row's fields stands for fits, and is encoded so. */
  ghost predicate Returns(l: Layout, e: Entry, w: Word) {
    var inst := Read(l, e.op, w);
    Fits(l, e, inst)
    && Laid(l, e, inst)
       == if l == Plain && e.f12.None? then w % 0x80 + 0x1000 * (w / 0x1000 % 8)
          else if l == Registers && e.f7.None? then w - 0x200_0000 * (w / 0x200_0000 % 4)
          else w
  }

  lemma {:induction false} RegistersReturn(e: Entry, w: Word)
    requires Shape(Registers, e) && FieldsMatch(e, w)
    ensures Returns(Registers, e, w)
  {
    Rebuilt(w);
    SharedFields(w);
    EuclideanDivision(Funct7(w), 4);
    Remainders(w / 0x200_0000, 4, 0x20);
  }

  lemma {:induction false} ShiftReturns(e: Entry, w: Word)
    requires Shape(Shift, e) && FieldsMatch(e, w)
    ensures Returns(Shift, e, w)
  {
    Rebuilt(w);
    SmallRemainder(Rs2(w), 0x20);
  }

  /** A digit of a residue does not depend on how it is read. */
  lemma DigitOfWrapped(v: int, d: nat, k: nat, c: nat, m: nat)
    requires d > 0 && k > 0 && m == d * (k * c) && 0 <= v < m
    ensures Wrapped(v, m) / d % k == v / d % k
  {
    if v >= m / 2 {
      EuclideanDivision(v, d);
      Distribute(d, v / d, 0 - k * c);
      DivModUnique(v - m, d, v / d - k * c, v % d);
      EuclideanDivision(v / d, k);
      Distribute(k, v / d / k, 0 - c);
      DivModUnique(v / d - k * c, k, v / d / k - c, v / d % k);
    }
  }

  lemma WrappedRange(v: int, m: int)
    requires 0 <= v < m && m % 2 == 0
    ensures 0 - m / 2 <= Wrapped(v, m) < m / 2 && Wrapped(v, m) % m == v
  {
    DivModUnique(Wrapped(v, m), m, if v >= m / 2 then -1 else 0, v);
  }

  lemma {:induction false} ImmediateReturns(e: Entry, w: Word)
    requires Shape(Immediate, e) && FieldsMatch(e, w)
    ensures Returns(Immediate, e, w)
  {
    Rebuilt(w);
    ValueI(w);
    WrappedRange(Funct12(w), 0x1000);
  }

  lemma {:induction false} StoreReturns(e: Entry, w: Word)
    requires Shape(Store, e) && FieldsMatch(e, w)
    ensures Returns(Store, e, w)
  {
    Rebuilt(w);
    StoreDigits(w, Signed(ImmS(w)));
  }

  lemma StoreDigits(w: Word, imm: int)
    requires imm == Signed(ImmS(w))
    ensures -0x800 <= imm < 0x800 && imm % 0x20 == Rd(w) && imm / 0x20 % 0x80 == Funct7(w)
  {
    ReadS(w, Funct7(w), Rd(w));
    DigitsOfS(Funct7(w), Rd(w));
  }

  lemma DigitsOfS(f7: U7, rd: U5)
    ensures var imm := Wrapped(0x20 * f7 + rd, 0x1000);
            -0x800 <= imm < 0x800 && imm % 0x20 == rd && imm / 0x20 % 0x80 == f7
  {
    var v := 0x20 * f7 + rd;
    var high := if v >= 0x800 then f7 - 0x80 else f7;
    DivModUnique(Wrapped(v, 0x1000), 0x20, high, rd);
    DivModUnique(high, 0x80, if v >= 0x800 then -1 else 0, f7);
  }

  lemma DigitsOfB(p: nat, q: nat, r: nat, s: nat)
    requires p < 2 && q < 2 && r < 0x40 && s < 0x10
    ensures var v := ScatteredB(p, q, r, s);
            v < 0x2000 && v % 2 == 0 && v / 2 % 0x10 == s && v / 0x20 % 0x40 == r && v / 0x800 % 2 == q && v / 0x1000 % 2 == p
  {
    var v := ScatteredB(p, q, r, s);
    DivModUnique(v, 2, 0x800 * p + 0x400 * q + 0x10 * r + s, 0);
    DivModUnique(v / 2, 0x10, 0x80 * p + 0x40 * q + r, s);
    DivModUnique(v, 0x20, 0x80 * p + 0x40 * q + r, 2 * s);
    DivModUnique(v / 0x20, 0x40, 2 * p + q, r);
    DivModUnique(v, 0x800, 2 * p + q, 0x20 * r + 2 * s);
    DivModUnique(v, 0x1000, p, 0x800 * q + 0x20 * r + 2 * s);
  }

  lemma BranchDigits(w: Word, imm: int)
    requires imm == Signed(ImmB(w))
    ensures -0x1000 <= imm < 0x1000 && imm % 2 == 0
    ensures 2 * (imm / 2 % 0x10) + imm / 0x800 % 2 == Rd(w) && 0x40 * (imm / 0x1000 % 2) + imm / 0x20 % 0x40 == Funct7(w)
  {
    var p, q, r, s := Funct7(w) / 0x40, Rd(w) % 2, Funct7(w) % 0x40, Rd(w) / 2;
    var v := ScatteredB(p, q, r, s);
    ReadB(w, p, q, r, s);
    DigitsOfB(p, q, r, s);
    WrappedRange(v, 0x2000);
    JumpOffsetsEven(w);
    DigitOfWrapped(v, 2, 0x10, 0x100, 0x2000);
    DigitOfWrapped(v, 0x20, 0x40, 4, 0x2000);
    DigitOfWrapped(v, 0x800, 2, 2, 0x2000);
    DigitOfWrapped(v, 0x1000, 2, 1, 0x2000);
  }

  lemma {:induction false} BranchReturns(e: Entry, w: Word)
    requires Shape(Branch, e) && FieldsMatch(e, w)
    ensures Returns(Branch, e, w)
  {
    Rebuilt(w);
    BranchDigits(w, Signed(ImmB(w)));
  }

  lemma UpperDigits(w: Word, imm: int)
    requires imm == Signed(ImmU(w))
    ensures imm % 0x1000 == 0 && imm / 0x1000 % 8 == Funct3(w) && imm / 0x8000 % 0x20 == Rs1(w) && imm / 0x10_0000 % 0x1000 == Funct12(w)
  {
    var v := w - w % 0x1000;
    ValueU(w);
    EuclideanDivision(w, 0x1000);
    DivModUnique(v, 0x1000, w / 0x1000, 0);
    DivideTwice(v, 0x1000, 8);
    DivideTwice(w, 0x1000, 8);
    DivideTwice(v, 0x1000, 0x100);
    DivideTwice(w, 0x1000, 0x100);
    UpperAligned(v);
    DigitOfWrapped(v, 0x1000, 8, 0x2_0000, 0x1_0000_0000);
    DigitOfWrapped(v, 0x8000, 0x20, 0x1000, 0x1_0000_0000);
    DigitOfWrapped(v, 0x10_0000, 0x1000, 1, 0x1_0000_0000);
  }

  lemma UpperAligned(v: Word)
    requires v % 0x1000 == 0
    ensures Signed(v) % 0x1000 == 0 && Signed(v) == Wrapped(v, 0x1_0000_0000)
  {
    EuclideanDivision(v, 0x1000);
    DivModUnique(Signed(v), 0x1000, if v < 0x8000_0000 then v / 0x1000 else v / 0x1000 - 0x10_0000, 0);
  }

  lemma {:induction false} UpperReturns(e: Entry, w: Word)
    requires Shape(Upper, e) && FieldsMatch(e, w)
    ensures Returns(Upper, e, w)
  {
    Rebuilt(w);
    UpperDigits(w, Signed(ImmU(w)));
  }

  lemma DigitsOfJ(p: nat, f3: U3, rs1: U5, r: nat, s: nat)
    requires p < 2 && r < 2 && s < 0x400
    ensures var v := ScatteredJ(p, f3 + 8 * rs1, r, s);
            v < 0x20_0000 && v % 2 == 0 && v / 2 % 0x400 == s && v / 0x800 % 2 == r && v / 0x1000 % 8 == f3 && v / 0x8000 % 0x20 == rs1
            && v / 0x10_0000 % 2 == p
  {
    var v := ScatteredJ(p, f3 + 8 * rs1, r, s);
    DivModUnique(v, 2, 0x8_0000 * p + 0x800 * (f3 + 8 * rs1) + 0x400 * r + s, 0);
    DivModUnique(v / 2, 0x400, 0x200 * p + 2 * (f3 + 8 * rs1) + r, s);
    DivModUnique(v, 0x800, 0x200 * p + 2 * (f3 + 8 * rs1) + r, 2 * s);
    DivModUnique(v / 0x800, 2, 0x100 * p + f3 + 8 * rs1, r);
    DivModUnique(v, 0x1000, 0x100 * p + f3 + 8 * rs1, 0x800 * r + 2 * s);
    DivModUnique(v / 0x1000, 8, 0x20 * p + rs1, f3);
    DivModUnique(v, 0x8000, 0x20 * p + rs1, 0x1000 * f3 + 0x800 * r + 2 * s);
    DivModUnique(v / 0x8000, 0x20, p, rs1);
    DivModUnique(v, 0x10_0000, p, 0x1000 * (f3 + 8 * rs1) + 0x800 * r + 2 * s);
  }

  lemma LowDigitsJ(v: nat)
    requires v < 0x20_0000 && v % 2 == 0
    ensures var imm := Wrapped(v, 0x20_0000);
            -0x10_0000 <= imm < 0x10_0000 && imm % 2 == 0 && imm / 2 % 0x400 == v / 2 % 0x400 && imm / 0x800 % 2 == v / 0x800 % 2
  {
    WrappedRange(v, 0x20_0000);
    DigitOfWrapped(v, 2, 0x400, 0x400, 0x20_0000);
    DigitOfWrapped(v, 0x800, 2, 0x200, 0x20_0000);
  }

  lemma HighDigitsJ(v: nat)
    requires v < 0x20_0000
    ensures var imm := Wrapped(v, 0x20_0000);
            imm / 0x1000 % 8 == v / 0x1000 % 8 && imm / 0x8000 % 0x20 == v / 0x8000 % 0x20 && imm / 0x10_0000 % 2 == v / 0x10_0000 % 2
  {
    DigitOfWrapped(v, 0x1000, 8, 0x40, 0x20_0000);
    DigitOfWrapped(v, 0x8000, 0x20, 2, 0x20_0000);
    DigitOfWrapped(v, 0x10_0000, 2, 1, 0x20_0000);
  }

  lemma FieldDigitsJ(t: U12, f3: U3, rs1: U5, imm: int)
    requires imm == Wrapped(ScatteredJ(t / 0x800, f3 + 8 * rs1, t % 2, t / 2 % 0x400), 0x20_0000)
    ensures -0x10_0000 <= imm < 0x10_0000 && imm % 2 == 0 && imm / 0x1000 % 8 == f3 && imm / 0x8000 % 0x20 == rs1
    ensures 0x800 * (imm / 0x10_0000 % 2) + 2 * (imm / 2 % 0x400) + imm / 0x800 % 2 == t
  {
    var v := ScatteredJ(t / 0x800, f3 + 8 * rs1, t % 2, t / 2 % 0x400);
    DigitsOfJ(t / 0x800, f3, rs1, t % 2, t / 2 % 0x400);
    LowDigitsJ(v);
    HighDigitsJ(v);
    ThreeParts(t);
  }

  lemma JumpDigits(w: Word, imm: int)
    requires imm == Signed(ImmJ(w))
    ensures -0x10_0000 <= imm < 0x10_0000 && imm % 2 == 0 && imm / 0x1000 % 8 == Funct3(w) && imm / 0x8000 % 0x20 == Rs1(w)
    ensures 0x800 * (imm / 0x10_0000 % 2) + 2 * (imm / 2 % 0x400) + imm / 0x800 % 2 == Funct12(w)
  {
    var t := Funct12(w);
    ReadJ(w, t / 0x800, Funct3(w) + 8 * Rs1(w), t % 2, t / 2 % 0x400);
    FieldDigitsJ(t, Funct3(w), Rs1(w), imm);
  }

  lemma ThreeParts(t: U12)
    ensures 0x800 * (t / 0x800) + 2 * (t / 2 % 0x400) + t % 2 == t
  {
    Digit(t, 2, 0x400, 0x800);
  }

  lemma {:induction false} JumpReturns(e: Entry, w: Word)
    requires Shape(Jump, e) && FieldsMatch(e, w)
    ensures Returns(Jump, e, w)
  {
    Rebuilt(w);
    JumpDigits(w, Signed(ImmJ(w)));
  }

  lemma {:induction false} PlainReturns(e: Entry, w: Word)
    requires Shape(Plain, e) && FieldsMatch(e, w) && (e.rd.Some? <==> e.f12.Some?) && (e.rs1.Some? <==> e.f12.Some?)
    ensures Returns(Plain, e, w)
  {
    Rebuilt(w);
  }

  lemma PlainRows(op: Opcode)
    requires LayoutOf(op) == Plain
    ensures var e := RowOf(op); (e.rd.Some? <==> e.f12.Some?) && (e.rs1.Some? <==> e.f12.Some?)
    ensures RowOf(op).f12.None? <==> op == I(FENCE) || op == I(FENCE_I)
  {
  }

  lemma {:induction false} LaidReturns(l: Layout, e: Entry, w: Word)
    requires l != Plain && Shape(l, e) && FieldsMatch(e, w)
    ensures Returns(l, e, w)
  {
    match l
    case Registers => RegistersReturn(e, w);
    case Shift => ShiftReturns(e, w);
    case Immediate => ImmediateReturns(e, w);
    case Store => StoreReturns(e, w);
    case Branch => BranchReturns(e, w);
    case Upper => UpperReturns(e, w);
    case Jump => JumpReturns(e, w);
  }

  lemma {:induction false} RowReturns(op: Opcode, w: Word)
    requires FieldsMatch(RowOf(op), w)
    ensures Returns(LayoutOf(op), RowOf(op), w)
    ensures var inst := Read(LayoutOf(op), op, w); Legal(inst) && Encode(inst) == Used(op, w)
  {
    RowShape(op);
    if LayoutOf(op) == Plain {
      PlainRows(op);
      PlainReturns(RowOf(op), w);
    } else {
      LaidReturns(LayoutOf(op), RowOf(op), w);
    }
  }

  /** Every 32-bit word that decodes stands for a legal instruction and is its encoding, but for
      the bits that the instruction does not use. */
  lemma {:induction false} EncodesDecoded(expand: DecodeFn, raw: Word)
    requires !IsCompressed(raw) && Decode(expand, raw).Some?
    ensures var inst := Decode(expand, raw).value; Legal(inst) && Encode(inst) == Used(inst.op, raw)
  {
    var w, inst := FieldsOf(raw), Decode(expand, raw).value;
    DecodedHasRow(w, raw);
    EveryRowDecodes(inst.op, w, raw);
    AgreesIsFieldsMatch(RowOf(inst.op), raw);
    RowShape(inst.op);
    InstructionIsRead(LayoutOf(inst.op), RowOf(inst.op), raw);
    RowReturns(inst.op, raw);
  }

  /** So no two legal instructions share an encoding. */
  lemma EncodingsDiffer(a: Instruction, b: Instruction)
    requires Legal(a) && Legal(b) && Encode(a) == Encode(b)
    ensures a.(raw := 0) == b.(raw := 0)
  {
    DecodesEncoded(raw => None, a);
    DecodesEncoded(raw => None, b);
  }
}
