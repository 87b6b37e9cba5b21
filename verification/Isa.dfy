/** The instruction set: opcodes per extension, decoded instructions and formats. */
module Isa {
  import opened Words

  type Reg = x: int | 0 <= x < 32

  datatype OpI =
    | ADD | SUB | SLL | SLT | SLTU | XOR | SRL | SRA | OR | AND
    | ADDI | SLTI | SLTIU | XORI | ORI | ANDI | SLLI | SRLI | SRAI
    | LB | LH | LW | LBU | LHU
    | SB | SH | SW
    | BEQ | BNE | BLT | BGE | BLTU | BGEU
    | LUI | AUIPC
    | JAL | JALR
    | FENCE | FENCE_I
    | ECALL | EBREAK

  datatype OpM = MUL | MULH | MULHSU | MULHU | DIV | DIVU | REM | REMU

  datatype OpA =
    | LR_W | SC_W
    | AMOSWAP_W | AMOADD_W | AMOXOR_W | AMOAND_W | AMOOR_W
    | AMOMIN_W | AMOMAX_W | AMOMINU_W | AMOMAXU_W

  datatype OpCsr = CSRRW | CSRRS | CSRRC | CSRRWI | CSRRSI | CSRRCI

  datatype OpZba = SH1ADD | SH2ADD | SH3ADD

  datatype OpZbb =
    | ANDN | ORN | XNOR | MAX | MAXU | MIN | MINU | ROL | ROR | ZEXT_H
    | CLZ | CTZ | CPOP | SEXT_B | SEXT_H | RORI | ORC_B | REV8

  datatype OpZbs = BCLR | BEXT | BINV | BSET | BCLRI | BEXTI | BINVI | BSETI

  /** RV32C names, kept on expanded instructions for display only. */
  datatype OpC =
    | C_ADDI4SPN | C_LW | C_SW
    | C_ADDI | C_JAL | C_LI | C_ADDI16SP | C_LUI | C_SRLI | C_SRAI | C_ANDI
    | C_SUB | C_XOR | C_OR | C_AND | C_J | C_BEQZ | C_BNEZ
    | C_SLLI | C_LWSP | C_JR | C_MV | C_EBREAK | C_JALR | C_ADD | C_SWSP

  datatype Opcode =
    | I(i: OpI) | M(m: OpM) | A(a: OpA) | Csr(csr: OpCsr)
    | Zba(zba: OpZba) | Zbb(zbb: OpZbb) | Zbs(zbs: OpZbs)

  datatype Format = FormatR | FormatI | FormatS | FormatB | FormatU | FormatJ

  function FormatOf(op: Opcode): Format {
    match op
    case I(i) => FormatOfI(i)
    case Csr(_) => FormatI
    case Zbb(z) =>
      if z in {CLZ, CTZ, CPOP, SEXT_B, SEXT_H, RORI, ORC_B, REV8} then FormatI else FormatR
    case Zbs(z) => if z in {BCLRI, BEXTI, BINVI, BSETI} then FormatI else FormatR
    case M(_) => FormatR
    case A(_) => FormatR
    case Zba(_) => FormatR
  }

  function FormatOfI(op: OpI): Format {
    match op
    case ADD | SUB | SLL | SLT | SLTU | XOR | SRL | SRA | OR | AND => FormatR
    case SB | SH | SW => FormatS
    case BEQ | BNE | BLT | BGE | BLTU | BGEU => FormatB
    case LUI | AUIPC => FormatU
    case JAL => FormatJ
    case _ => FormatI
  }

  /** A decoded instruction. `imm` is the sign-extended immediate; `raw` the encoding. */
  datatype Instruction = Instruction(
    op: Opcode,
    rd: Reg := 0,
    rs1: Reg := 0,
    rs2: Reg := 0,
    imm: Int32 := 0,
    nameonly raw: Word,
    compressed: Option<OpC> := None)

  /** A decoder maps the fetched bits to an instruction, or rejects them. */
  type DecodeFn = Word -> Option<Instruction>

  /** Encodings whose low two bits are not 11 are 16 bits long. */
  predicate IsCompressed(raw: Word) {
    raw % 4 != 3
  }

  function SizeOf(raw: Word): Word {
    if IsCompressed(raw) then 2 else 4
  }

  /** The 12-bit CSR number in an instruction's immediate. */
  function CsrNumber(imm: Int32): int {
    imm % 0x1000
  }

  /** Branches and jumps are relative to pc by the immediate. */
  predicate IsRelativeJump(op: Opcode) {
    op.I? && op.i in {BEQ, BNE, BLT, BGE, BLTU, BGEU, JAL}
  }
}
