/** The instruction decoder: a switch on opcode7 and then, per extension, on the other
    fields; and the proof that it decodes exactly the registry's encodings. */
module Decoder {
  import opened Words
  import opened Isa
  import opened BitFields
  import opened Registry
  import opened Parity
  import opened Cache

  // ----- Opcode selection, per extension -----

  function SelectRI(f3: U3, f7: U7): (r: Option<OpI>)
    ensures r.Some? ==> RowI(r.value) == ByF7(I(r.value), 0x33, f3, f7)
  {
    if f3 == 0 then if f7 == 0 then Some(ADD) else if f7 == 0x20 then Some(SUB) else None
    else if f3 == 5 then if f7 == 0 then Some(SRL) else if f7 == 0x20 then Some(SRA) else None
    else if f7 != 0 then None
    else if f3 == 1 then Some(SLL)
    else if f3 == 2 then Some(SLT)
    else if f3 == 3 then Some(SLTU)
    else if f3 == 4 then Some(XOR)
    else if f3 == 6 then Some(OR)
    else Some(AND)
  }

  function SelectM(f3: U3): (r: OpM)
    ensures RowM(r) == ByF7(M(r), 0x33, f3, 1)
  {
    if f3 == 0 then MUL else if f3 == 1 then MULH else if f3 == 2 then MULHSU else if f3 == 3 then MULHU
    else if f3 == 4 then DIV else if f3 == 5 then DIVU else if f3 == 6 then REM else REMU
  }

  function SelectZba(f3: U3, f7: U7): (r: Option<OpZba>)
    ensures r.Some? ==> RowZba(r.value) == ByF7(Zba(r.value), 0x33, f3, f7)
  {
    if f7 != 0x10 then None
    else if f3 == 2 then Some(SH1ADD) else if f3 == 4 then Some(SH2ADD) else if f3 == 6 then Some(SH3ADD) else None
  }

  function SelectZbbR(f3: U3, f7: U7, rs2: U5): (r: Option<OpZbb>)
    ensures r.Some? ==> RowZbb(r.value) == if f7 == 4 then ByF7Rs2(Zbb(r.value), 0x33, f3, f7, rs2) else ByF7(Zbb(r.value), 0x33, f3, f7)
  {
    if f7 == 0x20 then
      if f3 == 4 then Some(XNOR) else if f3 == 6 then Some(ORN) else if f3 == 7 then Some(ANDN) else None
    else if f7 == 5 then
      if f3 == 4 then Some(MIN) else if f3 == 5 then Some(MINU)
      else if f3 == 6 then Some(MAX) else if f3 == 7 then Some(MAXU) else None
    else if f7 == 0x30 then
      if f3 == 1 then Some(ROL) else if f3 == 5 then Some(ROR) else None
    else if f7 == 4 then
      if f3 == 4 && rs2 == 0 then Some(ZEXT_H) else None
    else None
  }

  function SelectZbsR(f3: U3, f7: U7): (r: Option<OpZbs>)
    ensures r.Some? ==> RowZbs(r.value) == ByF7(Zbs(r.value), 0x33, f3, f7)
  {
    if f7 == 0x24 then if f3 == 1 then Some(BCLR) else if f3 == 5 then Some(BEXT) else None
    else if f7 == 0x34 then if f3 == 1 then Some(BINV) else None
    else if f7 == 0x14 then if f3 == 1 then Some(BSET) else None
    else None
  }

  function SelectIAlu(f3: U3, f7: U7): (r: Option<OpI>)
    ensures r.Some? ==> RowI(r.value) == if f3 == 1 || f3 == 5 then ByF7(I(r.value), 0x13, f3, f7) else ByF3(I(r.value), 0x13, f3)
  {
    if f3 == 0 then Some(ADDI) else if f3 == 2 then Some(SLTI) else if f3 == 3 then Some(SLTIU)
    else if f3 == 4 then Some(XORI) else if f3 == 6 then Some(ORI) else if f3 == 7 then Some(ANDI)
    else if f3 == 1 then if f7 == 0 then Some(SLLI) else None
    else if f7 == 0 then Some(SRLI) else if f7 == 0x20 then Some(SRAI) else None
  }

  function SelectZbbI(f3: U3, f7: U7, rs2: U5): (r: Option<OpZbb>)
    ensures r.Some? ==> RowZbb(r.value) == if r.value == RORI then ByF7(Zbb(r.value), 0x13, f3, f7) else ByF7Rs2(Zbb(r.value), 0x13, f3, f7, rs2)
  {
    if f3 == 1 then
      if f7 != 0x30 then None
      else if rs2 == 0 then Some(CLZ) else if rs2 == 1 then Some(CTZ) else if rs2 == 2 then Some(CPOP)
      else if rs2 == 4 then Some(SEXT_B) else if rs2 == 5 then Some(SEXT_H) else None
    else if f3 == 5 then
      if f7 == 0x30 then Some(RORI)
      else if f7 == 0x14 then if rs2 == 7 then Some(ORC_B) else None
      else if f7 == 0x34 then if rs2 == 0x18 then Some(REV8) else None
      else None
    else None
  }

  function SelectZbsI(f3: U3, f7: U7): (r: Option<OpZbs>)
    ensures r.Some? ==> RowZbs(r.value) == ByF7(Zbs(r.value), 0x13, f3, f7)
  {
    if f7 == 0x24 then if f3 == 1 then Some(BCLRI) else if f3 == 5 then Some(BEXTI) else None
    else if f7 == 0x34 then if f3 == 1 then Some(BINVI) else None
    else if f7 == 0x14 then if f3 == 1 then Some(BSETI) else None
    else None
  }

  function SelectLoad(f3: U3): (r: Option<OpI>)
    ensures r.Some? ==> RowI(r.value) == ByF3(I(r.value), 0x03, f3)
  {
    if f3 == 0 then Some(LB) else if f3 == 1 then Some(LH) else if f3 == 2 then Some(LW)
    else if f3 == 4 then Some(LBU) else if f3 == 5 then Some(LHU) else None
  }

  function SelectStore(f3: U3): (r: Option<OpI>)
    ensures r.Some? ==> RowI(r.value) == ByF3(I(r.value), 0x23, f3)
  {
    if f3 == 0 then Some(SB) else if f3 == 1 then Some(SH) else if f3 == 2 then Some(SW) else None
  }

  function SelectBranch(f3: U3): (r: Option<OpI>)
    ensures r.Some? ==> RowI(r.value) == ByF3(I(r.value), 0x63, f3)
  {
    if f3 == 0 then Some(BEQ) else if f3 == 1 then Some(BNE) else if f3 == 4 then Some(BLT)
    else if f3 == 5 then Some(BGE) else if f3 == 6 then Some(BLTU) else if f3 == 7 then Some(BGEU) else None
  }

  function SelectAtomic(f5: U5): (r: Option<OpA>)
    ensures r.Some? ==> RowA(r.value) == if r.value == LR_W then ByF5Rs2(A(r.value), 0x2F, 2, f5, 0) else ByF5(A(r.value), 0x2F, 2, f5)
  {
    if f5 == 2 then Some(LR_W) else if f5 == 3 then Some(SC_W) else if f5 == 1 then Some(AMOSWAP_W)
    else if f5 == 0 then Some(AMOADD_W) else if f5 == 4 then Some(AMOXOR_W) else if f5 == 0xC then Some(AMOAND_W)
    else if f5 == 8 then Some(AMOOR_W) else if f5 == 0x10 then Some(AMOMIN_W) else if f5 == 0x14 then Some(AMOMAX_W)
    else if f5 == 0x18 then Some(AMOMINU_W) else if f5 == 0x1C then Some(AMOMAXU_W) else None
  }

  function SelectCsr(f3: U3): (r: Option<OpCsr>)
    ensures r.Some? ==> RowCsr(r.value) == ByF3(Csr(r.value), 0x73, f3)
  {
    if f3 == 1 then Some(CSRRW) else if f3 == 2 then Some(CSRRS) else if f3 == 3 then Some(CSRRC)
    else if f3 == 5 then Some(CSRRWI) else if f3 == 6 then Some(CSRRSI) else if f3 == 7 then Some(CSRRCI) else None
  }

  // ----- Sub-decoders -----

  function R(op: Opcode, w: Fields, raw: Word): Instruction {
    Instruction(op, w.rd, w.rs1, w.rs2, raw := raw)
  }

  /** The extensions are tried in turn. */
  function DecodeR(w: Fields, raw: Word): Option<Instruction>
  {
    var f3, f7 := w.f3, w.f7;
    if f7 == 1 then Some(R(M(SelectM(f3)), w, raw))
    else if SelectRI(f3, f7).Some? then Some(R(I(SelectRI(f3, f7).value), w, raw))
    else if SelectZba(f3, f7).Some? then Some(R(Zba(SelectZba(f3, f7).value), w, raw))
    else if SelectZbbR(f3, f7, w.rs2Field).Some? then Some(R(Zbb(SelectZbbR(f3, f7, w.rs2Field).value), w, raw))
    else if SelectZbsR(f3, f7).Some? then Some(R(Zbs(SelectZbsR(f3, f7).value), w, raw))
    else None
  }

  function DecodeIAlu(w: Fields, raw: Word): Option<Instruction>
  {
    var f3, f7, rs2 := w.f3, w.f7, w.rs2Field;
    var imm := if f3 == 1 || f3 == 5 then w.rs2 else w.immI;
    var rd, rs1 := w.rd, w.rs1;
    if SelectIAlu(f3, f7).Some? then Some(Instruction(I(SelectIAlu(f3, f7).value), rd, rs1, imm := imm, raw := raw))
    else if SelectZbbI(f3, f7, rs2).Some? then Some(Instruction(Zbb(SelectZbbI(f3, f7, rs2).value), rd, rs1, imm := imm, raw := raw))
    else if SelectZbsI(f3, f7).Some? then Some(Instruction(Zbs(SelectZbsI(f3, f7).value), rd, rs1, imm := imm, raw := raw))
    else None
  }

  function DecodeLoad(w: Fields, raw: Word): Option<Instruction>
  {
    match SelectLoad(w.f3)
    case None => None
    case Some(op) => Some(Instruction(I(op), w.rd, w.rs1, imm := w.immI, raw := raw))
  }

  function DecodeStore(w: Fields, raw: Word): Option<Instruction>
  {
    match SelectStore(w.f3)
    case None => None
    case Some(op) =>
      Some(Instruction(I(op), rs1 := w.rs1, rs2 := w.rs2, imm := w.immS, raw := raw))
  }

  function DecodeBranch(w: Fields, raw: Word): Option<Instruction>
  {
    match SelectBranch(w.f3)
    case None => None
    case Some(op) =>
      Some(Instruction(I(op), rs1 := w.rs1, rs2 := w.rs2, imm := w.immB, raw := raw))
  }

  function DecodeU(op: OpI, w: Fields, raw: Word): Option<Instruction>
  {
    Some(Instruction(I(op), w.rd, imm := w.immU, raw := raw))
  }

  function DecodeJ(w: Fields, raw: Word): Option<Instruction>
  {
    Some(Instruction(I(JAL), w.rd, imm := w.immJ, raw := raw))
  }

  function DecodeJalr(w: Fields, raw: Word): Option<Instruction>
  {
    if w.f3 != 0 then None
    else Some(Instruction(I(JALR), w.rd, w.rs1, imm := w.immI, raw := raw))
  }

  function DecodeFence(w: Fields, raw: Word): Option<Instruction>
  {
    if w.f3 == 0 then Some(Instruction(I(FENCE), raw := raw))
    else if w.f3 == 1 then Some(Instruction(I(FENCE_I), raw := raw))
    else None
  }

  /** LR.W with a non-zero rs2 field is a reserved encoding. */
  function DecodeAtomic(w: Fields, raw: Word): Option<Instruction>
  {
    if w.f3 != 2 then None
    else
      match SelectAtomic(w.f5)
      case None => None
      case Some(op) => if op == LR_W && w.rs2Field != 0 then None else Some(R(A(op), w, raw))
  }

  function DecodeSystem(w: Fields, raw: Word): Option<Instruction>
  {
    if w.f3 == 0 then
      if w.rdField != 0 || w.rs1Field != 0 then None
      else if w.f12 == 0 then Some(Instruction(I(ECALL), raw := raw))
      else if w.f12 == 1 then Some(Instruction(I(EBREAK), raw := raw))
      else None
    else
      match SelectCsr(w.f3)
      case None => None
      case Some(op) => Some(Instruction(Csr(op), w.rd, w.rs1, imm := w.immI, raw := raw))
  }

  /** A 32-bit encoding, taken apart; `raw` is the word itself. */
  function DecodeWord(w: Fields, raw: Word): Option<Instruction>
  {
    var o := w.opcode7;
    if o == 0x33 then DecodeR(w, raw)
    else if o == 0x13 then DecodeIAlu(w, raw)
    else if o == 0x03 then DecodeLoad(w, raw)
    else if o == 0x23 then DecodeStore(w, raw)
    else if o == 0x63 then DecodeBranch(w, raw)
    else if o == 0x37 then DecodeU(LUI, w, raw)
    else if o == 0x17 then DecodeU(AUIPC, w, raw)
    else if o == 0x6F then DecodeJ(w, raw)
    else if o == 0x67 then DecodeJalr(w, raw)
    else if o == 0x0F then DecodeFence(w, raw)
    else if o == 0x2F then DecodeAtomic(w, raw)
    else if o == 0x73 then DecodeSystem(w, raw)
    else None
  }

  /** Decode a fetched word: 16-bit encodings go to `expand`, which this model leaves
      open. */
  function Decode(expand: DecodeFn, raw: Word): Option<Instruction> {
    if IsCompressed(raw) then expand(raw) else DecodeWord(FieldsOf(raw), raw)
  }

  // ----- Every row decodes to its instruction -----

  predicate RowDecodes(e: Entry, w: Fields, raw: Word)
  {
    Agrees(e, w) ==> DecodeWord(w, raw) == Some(InstructionOf(e, w, raw))
  }

  lemma RowsAddCompareDecode(op: OpI, w: Fields, raw: Word)
    requires op in {ADD, SUB, SLT, SLTU}
    ensures RowDecodes(RowI(op), w, raw)
  {
  }

  lemma RowsLogicShiftDecode(op: OpI, w: Fields, raw: Word)
    requires op in {XOR, OR, AND, SLL, SRL, SRA}
    ensures RowDecodes(RowI(op), w, raw)
  {
  }

  lemma RowsImmediateDecode(op: OpI, w: Fields, raw: Word)
    requires op in {ADDI, SLTI, SLTIU, XORI, ORI, ANDI}
    ensures RowDecodes(RowI(op), w, raw)
  {
  }

  lemma RowsShiftDecode(op: OpI, w: Fields, raw: Word)
    requires op in {SLLI, SRLI, SRAI}
    ensures RowDecodes(RowI(op), w, raw)
  {
  }

  lemma RowsLoadDecode(op: OpI, w: Fields, raw: Word)
    requires op in {LB, LH, LW, LBU, LHU}
    ensures RowDecodes(RowI(op), w, raw)
  {
  }

  lemma RowsUpperDecode(op: OpI, w: Fields, raw: Word)
    requires op in {LUI, AUIPC}
    ensures RowDecodes(RowI(op), w, raw)
  {
  }

  lemma RowsJumpDecode(op: OpI, w: Fields, raw: Word)
    requires op in {JALR, JAL}
    ensures RowDecodes(RowI(op), w, raw)
  {
  }

  lemma RowsStoreBranchDecode(op: OpI, w: Fields, raw: Word)
    requires FormatOfI(op) == FormatS || FormatOfI(op) == FormatB
    ensures RowDecodes(RowI(op), w, raw)
  {
  }

  lemma RowsSystemDecode(op: OpI, w: Fields, raw: Word)
    requires op in {FENCE, FENCE_I, ECALL, EBREAK}
    ensures RowDecodes(RowI(op), w, raw)
  {
  }

  lemma RowsIDecode(op: OpI, w: Fields, raw: Word)
    ensures RowDecodes(RowI(op), w, raw)
  {
    if op in {ADD, SUB, SLT, SLTU} {
      RowsAddCompareDecode(op, w, raw);
    } else if op in {XOR, OR, AND, SLL, SRL, SRA} {
      RowsLogicShiftDecode(op, w, raw);
    } else if op in {LB, LH, LW, LBU, LHU} {
      RowsLoadDecode(op, w, raw);
    } else if op in {JALR, JAL} {
      RowsJumpDecode(op, w, raw);
    } else if op in {LUI, AUIPC} {
      RowsUpperDecode(op, w, raw);
    } else if FormatOfI(op) == FormatS || FormatOfI(op) == FormatB {
      RowsStoreBranchDecode(op, w, raw);
    } else if op in {FENCE, FENCE_I, ECALL, EBREAK} {
      RowsSystemDecode(op, w, raw);
    } else if op in {SLLI, SRLI, SRAI} {
      RowsShiftDecode(op, w, raw);
    } else {
      RowsImmediateDecode(op, w, raw);
    }
  }

  lemma RowsMDecode(op: OpM, w: Fields, raw: Word)
    ensures RowDecodes(RowM(op), w, raw)
  {
  }

  lemma RowsPairDecode(op: OpA, w: Fields, raw: Word)
    requires op in {LR_W, SC_W, AMOSWAP_W, AMOADD_W}
    ensures RowDecodes(RowA(op), w, raw)
  {
  }

  lemma RowsAmoDecode(op: OpA, w: Fields, raw: Word)
    requires op !in {LR_W, SC_W, AMOSWAP_W, AMOADD_W}
    ensures RowDecodes(RowA(op), w, raw)
  {
  }

  lemma RowsADecode(op: OpA, w: Fields, raw: Word)
    ensures RowDecodes(RowA(op), w, raw)
  {
    if op in {LR_W, SC_W, AMOSWAP_W, AMOADD_W} {
      RowsPairDecode(op, w, raw);
    } else {
      RowsAmoDecode(op, w, raw);
    }
  }

  lemma RowsCsrDecode(op: OpCsr, w: Fields, raw: Word)
    ensures RowDecodes(RowCsr(op), w, raw)
  {
  }

  lemma RowsZbaDecode(op: OpZba, w: Fields, raw: Word)
    ensures RowDecodes(RowZba(op), w, raw)
  {
  }

  lemma RowsMinMaxDecode(op: OpZbb, w: Fields, raw: Word)
    requires op in {MIN, MINU, MAX, MAXU}
    ensures RowDecodes(RowZbb(op), w, raw)
  {
  }

  lemma RowsZbbLogicDecode(op: OpZbb, w: Fields, raw: Word)
    requires op in {ANDN, ORN, XNOR, ROL, ROR, ZEXT_H}
    ensures RowDecodes(RowZbb(op), w, raw)
  {
  }

  lemma RowsZbbCountDecode(op: OpZbb, w: Fields, raw: Word)
    requires op in {CLZ, CTZ, CPOP, SEXT_B, SEXT_H}
    ensures RowDecodes(RowZbb(op), w, raw)
  {
  }

  lemma RowsZbbBytesDecode(op: OpZbb, w: Fields, raw: Word)
    requires op in {RORI, ORC_B, REV8}
    ensures RowDecodes(RowZbb(op), w, raw)
  {
  }

  lemma RowsZbbDecode(op: OpZbb, w: Fields, raw: Word)
    ensures RowDecodes(RowZbb(op), w, raw)
  {
    if op in {MIN, MINU, MAX, MAXU} {
      RowsMinMaxDecode(op, w, raw);
    } else if op in {ANDN, ORN, XNOR, ROL, ROR, ZEXT_H} {
      RowsZbbLogicDecode(op, w, raw);
    } else if op in {CLZ, CTZ, CPOP, SEXT_B, SEXT_H} {
      RowsZbbCountDecode(op, w, raw);
    } else {
      RowsZbbBytesDecode(op, w, raw);
    }
  }

  lemma RowsZbsRDecode(op: OpZbs, w: Fields, raw: Word)
    requires op in {BCLR, BEXT, BINV, BSET}
    ensures RowDecodes(RowZbs(op), w, raw)
  {
  }

  lemma RowsZbsIDecode(op: OpZbs, w: Fields, raw: Word)
    requires op in {BCLRI, BEXTI, BINVI, BSETI}
    ensures RowDecodes(RowZbs(op), w, raw)
  {
  }

  lemma RowsZbsDecode(op: OpZbs, w: Fields, raw: Word)
    ensures RowDecodes(RowZbs(op), w, raw)
  {
    if op in {BCLR, BEXT, BINV, BSET} {
      RowsZbsRDecode(op, w, raw);
    } else {
      RowsZbsIDecode(op, w, raw);
    }
  }

  lemma EveryRowDecodes(op: Opcode, w: Fields, raw: Word)
    ensures RowDecodes(RowOf(op), w, raw)
  {
    match op
    case I(x) => RowsIDecode(x, w, raw);
    case M(x) => RowsMDecode(x, w, raw);
    case A(x) => RowsADecode(x, w, raw);
    case Csr(x) => RowsCsrDecode(x, w, raw);
    case Zba(x) => RowsZbaDecode(x, w, raw);
    case Zbb(x) => RowsZbbDecode(x, w, raw);
    case Zbs(x) => RowsZbsDecode(x, w, raw);
  }

  // ----- Everything that decodes has a row -----

  /** The decoded instruction's own row agrees with the word. */
  predicate HasRow(r: Option<Instruction>, w: Fields) {
    r.Some? ==> Agrees(RowOf(r.value.op), w)
  }

  lemma DecodeRBaseHasRow(w: Fields, raw: Word)
    requires w.opcode7 == 0x33 && (w.f7 == 1 || SelectRI(w.f3, w.f7).Some?)
    ensures HasRow(DecodeR(w, raw), w)
  {
  }

  lemma DecodeRAddressHasRow(w: Fields, raw: Word)
    requires w.opcode7 == 0x33 && w.f7 != 1 && SelectRI(w.f3, w.f7).None? && SelectZba(w.f3, w.f7).Some?
    ensures HasRow(DecodeR(w, raw), w)
  {
  }

  lemma DecodeRBitsHasRow(w: Fields, raw: Word)
    requires w.opcode7 == 0x33 && w.f7 != 1 && SelectRI(w.f3, w.f7).None? && SelectZba(w.f3, w.f7).None?
    ensures HasRow(DecodeR(w, raw), w)
  {
  }

  lemma DecodeRHasRow(w: Fields, raw: Word)
    requires w.opcode7 == 0x33
    ensures HasRow(DecodeR(w, raw), w)
  {
    if w.f7 == 1 || SelectRI(w.f3, w.f7).Some? {
      DecodeRBaseHasRow(w, raw);
    } else if SelectZba(w.f3, w.f7).Some? {
      DecodeRAddressHasRow(w, raw);
    } else {
      DecodeRBitsHasRow(w, raw);
    }
  }

  lemma DecodeIAluHasRow(w: Fields, raw: Word)
    requires w.opcode7 == 0x13
    ensures HasRow(DecodeIAlu(w, raw), w)
  {
  }

  lemma DecodeMemoryHasRow(w: Fields, raw: Word)
    ensures w.opcode7 == 0x03 ==> HasRow(DecodeLoad(w, raw), w)
    ensures w.opcode7 == 0x23 ==> HasRow(DecodeStore(w, raw), w)
    ensures w.opcode7 == 0x63 ==> HasRow(DecodeBranch(w, raw), w)
  {
  }

  lemma DecodeUpperHaveRow(w: Fields, raw: Word)
    ensures w.opcode7 == 0x37 ==> HasRow(DecodeU(LUI, w, raw), w)
    ensures w.opcode7 == 0x17 ==> HasRow(DecodeU(AUIPC, w, raw), w)
  {
  }

  lemma DecodeJumpsHaveRow(w: Fields, raw: Word)
    ensures w.opcode7 == 0x6F ==> HasRow(DecodeJ(w, raw), w)
    ensures w.opcode7 == 0x67 ==> HasRow(DecodeJalr(w, raw), w)
  {
  }

  lemma DecodeFenceHasRow(w: Fields, raw: Word)
    ensures w.opcode7 == 0x0F ==> HasRow(DecodeFence(w, raw), w)
  {
  }

  lemma DecodeAtomicHasRow(w: Fields, raw: Word)
    requires w.opcode7 == 0x2F
    ensures HasRow(DecodeAtomic(w, raw), w)
  {
  }

  lemma DecodeSystemHasRow(w: Fields, raw: Word)
    requires w.opcode7 == 0x73
    ensures HasRow(DecodeSystem(w, raw), w)
  {
  }

  lemma DecodedHasRow(w: Fields, raw: Word)
    ensures HasRow(DecodeWord(w, raw), w)
  {
    var o := w.opcode7;
    if o == 0x33 {
      DecodeRHasRow(w, raw);
    } else if o == 0x13 {
      DecodeIAluHasRow(w, raw);
    } else if o == 0x2F {
      DecodeAtomicHasRow(w, raw);
    } else if o == 0x73 {
      DecodeSystemHasRow(w, raw);
    } else {
      DecodeMemoryHasRow(w, raw);
      DecodeUpperHaveRow(w, raw);
      DecodeJumpsHaveRow(w, raw);
      DecodeFenceHasRow(w, raw);
    }
  }

  // ----- The decoder meets the registry -----

  lemma ListedI(op: OpI)
    ensures I(op) in ORDER
  {
  }

  lemma ListedM(op: OpM)
    ensures M(op) in ORDER
  {
  }

  lemma ListedA(op: OpA)
    ensures A(op) in ORDER
  {
  }

  lemma ListedCsr(op: OpCsr)
    ensures Csr(op) in ORDER
  {
  }

  lemma ListedZba(op: OpZba)
    ensures Zba(op) in ORDER
  {
  }

  lemma ListedZbb(op: OpZbb)
    ensures Zbb(op) in ORDER
  {
  }

  lemma ListedZbs(op: OpZbs)
    ensures Zbs(op) in ORDER
  {
  }

  /** Every opcode is in the table. */
  lemma Listed(op: Opcode)
    ensures RowOf(op) in Table()
  {
    match op {
      case I(x) => ListedI(x);
      case M(x) => ListedM(x);
      case A(x) => ListedA(x);
      case Csr(x) => ListedCsr(x);
      case Zba(x) => ListedZba(x);
      case Zbb(x) => ListedZbb(x);
      case Zbs(x) => ListedZbs(x);
    }
    var i :| 0 <= i < |ORDER| && ORDER[i] == op;
    assert Table()[i] == RowOf(op);
  }

  /** A row of the table that matches is the row of the instruction the word decodes to. */
  lemma MatchingRow(e: Entry, b: Word, raw: Word)
    requires e in Table() && Matches(e, b)
    ensures DecodeWord(FieldsOf(b), raw) == Some(InstructionOf(e, FieldsOf(b), raw))
    ensures e == RowOf(InstructionOf(e, FieldsOf(b), raw).op)
  {
    var i :| 0 <= i < |ORDER| && e == RowOf(ORDER[i]);
    var op := ORDER[i];
    RowConsistent(op);
    MatchesAgrees(e, b);
    EveryRowDecodes(op, FieldsOf(b), raw);
    InstructionOfOp(e, FieldsOf(b), raw);
  }

  lemma InstructionOfOp(e: Entry, w: Fields, raw: Word)
    ensures InstructionOf(e, w, raw).op == e.op && InstructionOf(e, w, raw).raw == raw
  {
  }

  /** No word matches two rows: both would be the row of what it decodes to. */
  lemma TableDisjoint()
    ensures Disjoint(Table())
  {
    forall e, f, b: Word | e in Table() && f in Table() && Matches(e, b) && Matches(f, b)
      ensures e == f
    {
      MatchingRow(e, b, 0);
      MatchingRow(f, b, 0);
    }
  }

  /** For every 32-bit word, the decoder succeeds exactly when some row of the registry
      matches under its mask, and then returns that row's instruction in every field. */
  lemma DecoderMeetsRegistry(expand: DecodeFn, raw: Word)
    requires !IsCompressed(raw)
    ensures Decode(expand, raw) ==
              match FirstMatch(Table(), raw)
              case None => None
              case Some(e) => Some(InstructionOf(e, FieldsOf(raw), raw))
  {
    var w := FieldsOf(raw);
    FirstMatchSound(Table(), raw);
    var d := DecodeWord(w, raw);
    match FirstMatch(Table(), raw) {
      case Some(e) => MatchingRow(e, raw, raw);
      case None =>
        if d.Some? {
          var e := RowOf(d.value.op);
          DecodedHasRow(w, raw);
          AgreesMatches(e, raw);
          Listed(d.value.op);
        }
    }
  }

  // ----- What the rest of the VM needs of a decoder -----

  /** What the model asks of the 16-bit expansion: it keeps the bits, and its branch and
      jump offsets are even. */
  ghost predicate ExpandsWell(expand: DecodeFn) {
    StoresRaw(expand) && EvenOffsets(expand)
  }

  function DecoderWith(expand: DecodeFn): DecodeFn {
    (raw: Word) => Decode(expand, raw)
  }

  lemma DecodedJumpsEven(b: Word, raw: Word)
    ensures var d := DecodeWord(FieldsOf(b), raw);
            d.Some? ==> d.value.raw == raw && (IsRelativeJump(d.value.op) ==> d.value.imm % 2 == 0)
  {
    JumpOffsetsEven(b);
    var w := FieldsOf(b);
    var d := DecodeWord(w, raw);
    if d.Some? {
      DecodedShape(w, raw);
    }
  }

  lemma DecodedShape(w: Fields, raw: Word)
    requires DecodeWord(w, raw).Some?
    ensures var d := DecodeWord(w, raw).value;
            d.raw == raw && (IsRelativeJump(d.op) ==> d.imm == w.immB || d.imm == w.immJ)
  {
    DecodedHasRow(w, raw);
    var d := DecodeWord(w, raw).value;
    EveryRowDecodes(d.op, w, raw);
    InstructionOfOp(RowOf(d.op), w, raw);
  }

  lemma DecodeKeeps(expand: DecodeFn, raw: Word)
    requires ExpandsWell(expand)
    ensures var d := Decode(expand, raw);
            d.Some? ==> d.value.raw == raw && (IsRelativeJump(d.value.op) ==> d.value.imm % 2 == 0)
  {
    if !IsCompressed(raw) {
      DecodedJumpsEven(raw, raw);
    }
  }

  /** The decoder keeps the bits it decoded and its branch and jump offsets are even, so the
      cache and parity theorems hold of the VM that uses it. */
  lemma DecoderSuitsVm(expand: DecodeFn)
    requires ExpandsWell(expand)
    ensures StoresRaw(DecoderWith(expand)) && EvenOffsets(DecoderWith(expand))
  {
    var decode := DecoderWith(expand);
    forall raw: Word
      ensures decode(raw).Some? ==> decode(raw).value.raw == raw
      ensures decode(raw).Some? && IsRelativeJump(decode(raw).value.op) ==> decode(raw).value.imm % 2 == 0
    {
      DecodeKeeps(expand, raw);
    }
  }
}
