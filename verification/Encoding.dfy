/** The encodings of RV32IMA, Zicsr, Zifencei, Zba, Zbb and Zbs by the numbers in the word, as
    the instruction-set listings of the RISC-V Unprivileged ISA give them, and the proof that
    the decoder reads every word so: which instruction it is, and where its operands are. */
module Encoding {
  import opened Words
  import opened Bits
  import opened Isa
  import opened BitFields
  import opened Decoder

  // ----- The listings -----

  /** The i-th of eight instructions. */
  function Pick(names: seq<Option<Opcode>>, i: int): Option<Opcode> {
    if 0 <= i < |names| then names[i] else None
  }

  const NONE: Option<Opcode> := None

  /** Opcode 0x33, by funct7 and funct3. */
  function Register(f7: int, f3: int, rs2: int): Option<Opcode> {
    if f7 == 0x00 then
      Pick([Some(I(ADD)), Some(I(SLL)), Some(I(SLT)), Some(I(SLTU)), Some(I(XOR)), Some(I(SRL)), Some(I(OR)), Some(I(AND))], f3)
    else if f7 == 0x01 then
      Pick([Some(M(MUL)), Some(M(MULH)), Some(M(MULHSU)), Some(M(MULHU)), Some(M(DIV)), Some(M(DIVU)), Some(M(REM)), Some(M(REMU))], f3)
    else if f7 == 0x20 then
      Pick([Some(I(SUB)), NONE, NONE, NONE, Some(Zbb(XNOR)), Some(I(SRA)), Some(Zbb(ORN)), Some(Zbb(ANDN))], f3)
    else if f7 == 0x10 then
      Pick([NONE, NONE, Some(Zba(SH1ADD)), NONE, Some(Zba(SH2ADD)), NONE, Some(Zba(SH3ADD)), NONE], f3)
    else if f7 == 0x05 then
      Pick([NONE, NONE, NONE, NONE, Some(Zbb(MIN)), Some(Zbb(MINU)), Some(Zbb(MAX)), Some(Zbb(MAXU))], f3)
    else if f7 == 0x30 then Pick([NONE, Some(Zbb(ROL)), NONE, NONE, NONE, Some(Zbb(ROR))], f3)
    else if f7 == 0x24 then Pick([NONE, Some(Zbs(BCLR)), NONE, NONE, NONE, Some(Zbs(BEXT))], f3)
    else if f7 == 0x34 && f3 == 1 then Some(Zbs(BINV))
    else if f7 == 0x14 && f3 == 1 then Some(Zbs(BSET))
    else if f7 == 0x04 && f3 == 4 && rs2 == 0 then Some(Zbb(ZEXT_H))
    else None
  }

  /** Opcode 0x13, by funct3; the shifts and bit operations by funct7 and the rs2 field. */
  function Immediate(f7: int, f3: int, rs2: int): Option<Opcode> {
    if f3 == 1 then
      if f7 == 0x00 then Some(I(SLLI))
      else if f7 == 0x24 then Some(Zbs(BCLRI))
      else if f7 == 0x34 then Some(Zbs(BINVI))
      else if f7 == 0x14 then Some(Zbs(BSETI))
      else if f7 == 0x30 then
        Pick([Some(Zbb(CLZ)), Some(Zbb(CTZ)), Some(Zbb(CPOP)), NONE, Some(Zbb(SEXT_B)), Some(Zbb(SEXT_H))], rs2)
      else None
    else if f3 == 5 then
      if f7 == 0x00 then Some(I(SRLI))
      else if f7 == 0x20 then Some(I(SRAI))
      else if f7 == 0x24 then Some(Zbs(BEXTI))
      else if f7 == 0x30 then Some(Zbb(RORI))
      else if f7 == 0x14 && rs2 == 7 then Some(Zbb(ORC_B))
      else if f7 == 0x34 && rs2 == 24 then Some(Zbb(REV8))
      else None
    else Pick([Some(I(ADDI)), NONE, Some(I(SLTI)), Some(I(SLTIU)), Some(I(XORI)), NONE, Some(I(ORI)), Some(I(ANDI))], f3)
  }

  /** Opcode 0x2F with funct3 2, by the top five bits. */
  function Atomic(f5: int, rs2: int): Option<Opcode> {
    if f5 == 0x02 then if rs2 == 0 then Some(A(LR_W)) else None
    else if f5 == 0x03 then Some(A(SC_W))
    else if f5 == 0x01 then Some(A(AMOSWAP_W))
    else if f5 == 0x00 then Some(A(AMOADD_W))
    else if f5 == 0x04 then Some(A(AMOXOR_W))
    else if f5 == 0x0C then Some(A(AMOAND_W))
    else if f5 == 0x08 then Some(A(AMOOR_W))
    else if f5 == 0x10 then Some(A(AMOMIN_W))
    else if f5 == 0x14 then Some(A(AMOMAX_W))
    else if f5 == 0x18 then Some(A(AMOMINU_W))
    else if f5 == 0x1C then Some(A(AMOMAXU_W))
    else None
  }

  /** The instruction that a 32-bit word encodes, by its numbers alone. */
  function Listed(w: Word): Option<Opcode> {
    var o, f3, f7, rs2 := w % 128, w / 0x1000 % 8, w / 0x200_0000, w / 0x10_0000 % 32;
    if o == 0x33 then Register(f7, f3, rs2)
    else if o == 0x13 then Immediate(f7, f3, rs2)
    else if o == 0x03 then Pick([Some(I(LB)), Some(I(LH)), Some(I(LW)), NONE, Some(I(LBU)), Some(I(LHU))], f3)
    else if o == 0x23 then Pick([Some(I(SB)), Some(I(SH)), Some(I(SW))], f3)
    else if o == 0x63 then Pick([Some(I(BEQ)), Some(I(BNE)), NONE, NONE, Some(I(BLT)), Some(I(BGE)), Some(I(BLTU)), Some(I(BGEU))], f3)
    else if o == 0x2F then if f3 == 2 then Atomic(w / 0x800_0000, rs2) else None
    else if o == 0x73 then
      if f3 == 0 then if w == 0x73 then Some(I(ECALL)) else if w == 0x10_0073 then Some(I(EBREAK)) else None
      else Pick([NONE, Some(Csr(CSRRW)), Some(Csr(CSRRS)), Some(Csr(CSRRC)), NONE, Some(Csr(CSRRWI)), Some(Csr(CSRRSI)), Some(Csr(CSRRCI))], f3)
    else if o == 0x37 then Some(I(LUI))
    else if o == 0x17 then Some(I(AUIPC))
    else if o == 0x6F then Some(I(JAL))
    else if o == 0x67 then if f3 == 0 then Some(I(JALR)) else None
    else if o == 0x0F then Pick([Some(I(FENCE)), Some(I(FENCE_I))], f3)
    else None
  }

  // ----- Where the operands are -----

  /** The operands are these registers. */
  predicate Registers(inst: Instruction, rd: int, rs1: int, rs2: int) {
    inst.rd == rd && inst.rs1 == rs1 && inst.rs2 == rs2
  }

  /** Every bit of the immediate, as a pattern, is the word's bit at its place, and those
      below `from` are zero. */
  ghost predicate Immediates(inst: Instruction, w: Word, place: nat -> nat, from: nat) {
    forall i: nat :: i < 32 ==> Bit(inst.imm % 0x1_0000_0000, i) == (i >= from && Bit(w, place(i)))
  }

  /** The operands of the word are where its opcode says. */
  ghost predicate OperandsIn(inst: Instruction, w: Word) {
    var o, f3, rd, rs1, rs2 := w % 128, w / 0x1000 % 8, w / 0x80 % 32, w / 0x8000 % 32, w / 0x10_0000 % 32;
    if o == 0x33 || o == 0x2F then Registers(inst, rd, rs1, rs2) && inst.imm == 0
    else if o == 0x13 && (f3 == 1 || f3 == 5) then Registers(inst, rd, rs1, 0) && inst.imm == rs2
    else if o == 0x13 || o == 0x03 || o == 0x67 || (o == 0x73 && f3 != 0) then
      Registers(inst, rd, rs1, 0) && Immediates(inst, w, PlaceI, 0)
    else if o == 0x23 then Registers(inst, 0, rs1, rs2) && Immediates(inst, w, PlaceS, 0)
    else if o == 0x63 then Registers(inst, 0, rs1, rs2) && Immediates(inst, w, PlaceB, 1)
    else if o == 0x37 || o == 0x17 then Registers(inst, rd, 0, 0) && Immediates(inst, w, PlaceU, 12)
    else if o == 0x6F then Registers(inst, rd, 0, 0) && Immediates(inst, w, PlaceJ, 1)
    else Registers(inst, 0, 0, 0) && inst.imm == 0
  }

  // ----- The decoder reads words so -----

  lemma PatternOfSigned(x: Word)
    ensures Signed(x) % 0x1_0000_0000 == x
  {
  }

  /** The immediates of a word, bit by bit. */
  lemma {:induction false} ImmediateBits(w: Word, i: nat)
    requires i < 32
    ensures Bit(Signed(ImmI(w)) % 0x1_0000_0000, i) == Bit(w, PlaceI(i))
    ensures Bit(Signed(ImmS(w)) % 0x1_0000_0000, i) == Bit(w, PlaceS(i))
    ensures Bit(Signed(ImmB(w)) % 0x1_0000_0000, i) == (i >= 1 && Bit(w, PlaceB(i)))
    ensures Bit(Signed(ImmU(w)) % 0x1_0000_0000, i) == (i >= 12 && Bit(w, PlaceU(i)))
    ensures Bit(Signed(ImmJ(w)) % 0x1_0000_0000, i) == (i >= 1 && Bit(w, PlaceJ(i)))
  {
    PatternOfSigned(ImmI(w));
    PatternOfSigned(ImmS(w));
    PatternOfSigned(ImmB(w));
    PatternOfSigned(ImmU(w));
    PatternOfSigned(ImmJ(w));
    BitsOfI(w, i);
    BitsOfS(w, i);
    BitsOfB(w, i);
    BitsOfU(w, i);
    BitsOfJ(w, i);
  }

  function OpOf(d: Option<Instruction>): Option<Opcode> {
    match d case None => None case Some(inst) => Some(inst.op)
  }

  predicate Keeps(d: Option<Instruction>, raw: Word, rd: int, rs1: int, rs2: int, imm: int) {
    d.Some? ==> Registers(d.value, rd, rs1, rs2) && d.value.imm == imm && d.value.raw == raw
  }

  lemma RegisterListed(w: Fields, raw: Word)
    ensures OpOf(DecodeR(w, raw)) == Register(w.f7, w.f3, w.rs2Field)
  {
    if w.f7 == 0x00 || w.f7 == 0x20 || w.f7 == 0x01 {
      RegisterListedBase(w, raw);
    }
  }

  lemma RegisterListedBase(w: Fields, raw: Word)
    requires w.f7 == 0x00 || w.f7 == 0x20 || w.f7 == 0x01
    ensures OpOf(DecodeR(w, raw)) == Register(w.f7, w.f3, w.rs2Field)
  {
  }

  lemma RegisterOperands(w: Fields, raw: Word)
    ensures Keeps(DecodeR(w, raw), raw, w.rd, w.rs1, w.rs2, 0)
  {
  }

  lemma ImmediateListed(w: Fields, raw: Word)
    ensures OpOf(DecodeIAlu(w, raw)) == Immediate(w.f7, w.f3, w.rs2Field)
    ensures Keeps(DecodeIAlu(w, raw), raw, w.rd, w.rs1, 0, if w.f3 == 1 || w.f3 == 5 then w.rs2 else w.immI)
  {
  }

  lemma MemoryListed(w: Fields, raw: Word)
    ensures OpOf(DecodeLoad(w, raw)) == Pick([Some(I(LB)), Some(I(LH)), Some(I(LW)), NONE, Some(I(LBU)), Some(I(LHU))], w.f3)
    ensures Keeps(DecodeLoad(w, raw), raw, w.rd, w.rs1, 0, w.immI)
    ensures OpOf(DecodeStore(w, raw)) == Pick([Some(I(SB)), Some(I(SH)), Some(I(SW))], w.f3)
    ensures Keeps(DecodeStore(w, raw), raw, 0, w.rs1, w.rs2, w.immS)
  {
  }

  lemma BranchListed(w: Fields, raw: Word)
    ensures OpOf(DecodeBranch(w, raw))
            == Pick([Some(I(BEQ)), Some(I(BNE)), NONE, NONE, Some(I(BLT)), Some(I(BGE)), Some(I(BLTU)), Some(I(BGEU))], w.f3)
    ensures Keeps(DecodeBranch(w, raw), raw, 0, w.rs1, w.rs2, w.immB)
  {
  }

  lemma AtomicListed(w: Fields, raw: Word)
    ensures OpOf(DecodeAtomic(w, raw)) == if w.f3 == 2 then Atomic(w.f5, w.rs2Field) else None
    ensures Keeps(DecodeAtomic(w, raw), raw, w.rd, w.rs1, w.rs2, 0)
  {
  }

  lemma OthersListed(w: Fields, raw: Word)
    ensures DecodeU(LUI, w, raw) == Some(Instruction(I(LUI), w.rd, imm := w.immU, raw := raw))
    ensures DecodeU(AUIPC, w, raw) == Some(Instruction(I(AUIPC), w.rd, imm := w.immU, raw := raw))
    ensures DecodeJ(w, raw) == Some(Instruction(I(JAL), w.rd, imm := w.immJ, raw := raw))
    ensures OpOf(DecodeJalr(w, raw)) == if w.f3 == 0 then Some(I(JALR)) else None
    ensures Keeps(DecodeJalr(w, raw), raw, w.rd, w.rs1, 0, w.immI)
    ensures OpOf(DecodeFence(w, raw)) == Pick([Some(I(FENCE)), Some(I(FENCE_I))], w.f3)
    ensures Keeps(DecodeFence(w, raw), raw, 0, 0, 0, 0)
  {
  }

  lemma SystemListed(w: Fields, raw: Word)
    ensures OpOf(DecodeSystem(w, raw))
            == if w.f3 == 0 then
                 if w.rdField == 0 && w.rs1Field == 0 && w.f12 == 0 then Some(I(ECALL))
                 else if w.rdField == 0 && w.rs1Field == 0 && w.f12 == 1 then Some(I(EBREAK)) else None
               else Pick([NONE, Some(Csr(CSRRW)), Some(Csr(CSRRS)), Some(Csr(CSRRC)), NONE, Some(Csr(CSRRWI)), Some(Csr(CSRRSI)), Some(Csr(CSRRCI))], w.f3)
    ensures w.f3 == 0 ==> Keeps(DecodeSystem(w, raw), raw, 0, 0, 0, 0)
    ensures w.f3 != 0 ==> Keeps(DecodeSystem(w, raw), raw, w.rd, w.rs1, 0, w.immI)
  {
  }

  /** The numbers of a word are its fields. */
  ghost predicate Numbers(w: Fields, raw: Word) {
    && w.opcode7 == raw % 128 && w.f3 == raw / 0x1000 % 8 && w.f7 == raw / 0x200_0000 && w.f5 == raw / 0x800_0000
    && w.rd == w.rdField == raw / 0x80 % 32 && w.rs1 == w.rs1Field == raw / 0x8000 % 32
    && w.rs2 == w.rs2Field == raw / 0x10_0000 % 32 && w.f12 == raw / 0x10_0000
  }

  lemma FieldsAreNumbers(raw: Word)
    ensures Numbers(FieldsOf(raw), raw)
  {
    TopNumbers(raw);
  }

  lemma TopNumbers(raw: Word)
    ensures Funct7(raw) == raw / 0x200_0000 && Funct5(raw) == raw / 0x800_0000 && Funct12(raw) == raw / 0x10_0000
  {
    SmallRemainder(raw / 0x200_0000, 0x80);
    SmallRemainder(raw / 0x800_0000, 0x20);
    SmallRemainder(raw / 0x10_0000, 0x1000);
  }

  /** ECALL and EBREAK are single words. */
  lemma WholeWord(raw: Word)
    requires raw % 128 == 0x73 && raw / 0x1000 % 8 == 0 && raw / 0x80 % 32 == 0 && raw / 0x8000 % 32 == 0
    ensures raw == 0x73 + 0x10_0000 * (raw / 0x10_0000)
  {
    var a := raw / 0x80;
    var b := a / 32;
    var c := b / 8;
    DivModUnique(raw, 0x1000, b, 0x73 + 0x80 * (a % 32));
    DivModUnique(raw, 0x8000, c, 0x73 + 0x80 * (a % 32) + 0x1000 * (b % 8));
    DivModUnique(raw, 0x10_0000, c / 32, 0x73 + 0x80 * (a % 32) + 0x1000 * (b % 8) + 0x8000 * (c % 32));
  }

  /** What the five immediates are. */
  ghost predicate ImmediatesIn(w: Fields, raw: Word) {
    forall i: nat :: i < 32 ==> ImmediatesAt(w, raw, i)
  }

  predicate ImmediatesAt(w: Fields, raw: Word, i: nat) {
    && Bit(w.immI % 0x1_0000_0000, i) == Bit(raw, PlaceI(i))
    && Bit(w.immS % 0x1_0000_0000, i) == Bit(raw, PlaceS(i))
    && Bit(w.immB % 0x1_0000_0000, i) == (i >= 1 && Bit(raw, PlaceB(i)))
    && Bit(w.immU % 0x1_0000_0000, i) == (i >= 12 && Bit(raw, PlaceU(i)))
    && Bit(w.immJ % 0x1_0000_0000, i) == (i >= 1 && Bit(raw, PlaceJ(i)))
  }

  lemma FieldsHoldImmediates(raw: Word)
    ensures ImmediatesIn(FieldsOf(raw), raw)
  {
    forall i: nat | i < 32 ensures ImmediatesAt(FieldsOf(raw), raw, i) {
      ImmediateBits(raw, i);
    }
  }

  /** One of the five. */
  lemma ImmediateHolds(w: Fields, raw: Word, inst: Instruction)
    requires ImmediatesIn(w, raw)
    ensures inst.imm == w.immI ==> Immediates(inst, raw, PlaceI, 0)
    ensures inst.imm == w.immS ==> Immediates(inst, raw, PlaceS, 0)
    ensures inst.imm == w.immB ==> Immediates(inst, raw, PlaceB, 1)
    ensures inst.imm == w.immU ==> Immediates(inst, raw, PlaceU, 12)
    ensures inst.imm == w.immJ ==> Immediates(inst, raw, PlaceJ, 1)
  {
    forall i: nat | i < 32
      ensures Bit(w.immI % 0x1_0000_0000, i) == Bit(raw, PlaceI(i))
      ensures Bit(w.immS % 0x1_0000_0000, i) == Bit(raw, PlaceS(i))
      ensures Bit(w.immB % 0x1_0000_0000, i) == (i >= 1 && Bit(raw, PlaceB(i)))
      ensures Bit(w.immU % 0x1_0000_0000, i) == (i >= 12 && Bit(raw, PlaceU(i)))
      ensures Bit(w.immJ % 0x1_0000_0000, i) == (i >= 1 && Bit(raw, PlaceJ(i)))
    {
      assert ImmediatesAt(w, raw, i);
    }
  }

  lemma {:induction false} WordListed(w: Fields, raw: Word)
    requires Numbers(w, raw)
    ensures OpOf(DecodeWord(w, raw)) == Listed(raw)
  {
    var o := w.opcode7;
    if o == 0x33 {
      RegisterListed(w, raw);
    } else if o == 0x13 {
      ImmediateListed(w, raw);
    } else if o == 0x03 || o == 0x23 {
      MemoryListed(w, raw);
    } else if o == 0x63 {
      BranchListed(w, raw);
    } else if o == 0x2F {
      AtomicListed(w, raw);
    } else if o == 0x73 {
      SystemListed(w, raw);
      if w.f3 == 0 && w.rdField == 0 && w.rs1Field == 0 {
        WholeWord(raw);
      }
    } else {
      OthersListed(w, raw);
    }
  }

  lemma {:induction false} WordOperands(w: Fields, raw: Word)
    requires Numbers(w, raw) && ImmediatesIn(w, raw) && DecodeWord(w, raw).Some?
    ensures OperandsIn(DecodeWord(w, raw).value, raw) && DecodeWord(w, raw).value.raw == raw
  {
    var o, inst := w.opcode7, DecodeWord(w, raw).value;
    ImmediateHolds(w, raw, inst);
    if o == 0x33 {
      RegisterOperands(w, raw);
    } else if o == 0x13 {
      ImmediateListed(w, raw);
    } else if o == 0x03 || o == 0x23 {
      MemoryListed(w, raw);
    } else if o == 0x63 {
      BranchListed(w, raw);
    } else if o == 0x2F {
      AtomicListed(w, raw);
    } else if o == 0x73 {
      SystemListed(w, raw);
    } else {
      OthersListed(w, raw);
    }
  }

  /** For every 32-bit word the decoder succeeds exactly when the listings have it, with the
      instruction they give and the operands where the formats put them. */
  lemma {:induction false} DecodesAsListed(expand: DecodeFn, raw: Word)
    requires raw % 4 == 3
    ensures OpOf(Decode(expand, raw)) == Listed(raw)
    ensures var d := Decode(expand, raw); d.Some? ==> OperandsIn(d.value, raw) && d.value.raw == raw
  {
    FieldsAreNumbers(raw);
    FieldsHoldImmediates(raw);
    WordListed(FieldsOf(raw), raw);
    if DecodeWord(FieldsOf(raw), raw).Some? {
      WordOperands(FieldsOf(raw), raw);
    }
  }
}
