/** The ranges that the branch-label resolver relies on are those of the machine: for the 32-bit
    formats, the offsets that can be written are exactly the ones the decoder returns. */
module Offsets {
  import opened Words
  import opened Isa
  import opened Assembly
  import opened Reach
  import Registry
  import Decoder
  import Assembler

  /** A word decodes to this branch or jump, with this offset. */
  predicate DecodesTo(expand: DecodeFn, raw: Word, op: Opcode, offset: int) {
    !IsCompressed(raw) && Decoder.Decode(expand, raw).Some?
    && var inst := Decoder.Decode(expand, raw).value; inst.op == op && inst.imm == offset
  }

  predicate IsOffsetOp(op: Opcode) {
    op in {I(BEQ), I(BNE), I(BLT), I(BGE), I(BLTU), I(BGEU), I(JAL)}
  }

  lemma LegalOffset(inst: Instruction)
    requires IsOffsetOp(inst.op) && Assembler.Legal(inst)
    ensures Encodable(if inst.op == I(JAL) then JumpForm else BranchForm, inst.imm)
  {
  }

  lemma OffsetLegal(op: Opcode, offset: Int32)
    requires IsOffsetOp(op) && Encodable(if op == I(JAL) then JumpForm else BranchForm, offset)
    ensures Assembler.Legal(Instruction(op, imm := offset, raw := 0))
  {
    OffsetLayout(op);
    FitsLayout(Assembler.LayoutOf(op), Registry.RowOf(op), Instruction(op, imm := offset, raw := 0));
  }

  lemma OffsetLayout(op: Opcode)
    requires IsOffsetOp(op)
    ensures Assembler.LayoutOf(op) == if op == I(JAL) then Assembler.Jump else Assembler.Branch
  {
  }

  lemma FitsLayout(l: Assembler.Layout, e: Registry.Entry, inst: Instruction)
    requires l.Jump? || l.Branch?
    requires e.op == inst.op && inst == Instruction(inst.op, imm := inst.imm, raw := 0)
    requires Encodable(if l.Jump? then JumpForm else BranchForm, inst.imm)
    ensures Assembler.Fits(l, e, inst)
  {
  }

  lemma {:induction false} OffsetDecoded(expand: DecodeFn, inst: Instruction)
    requires Assembler.Legal(inst)
    ensures DecodesTo(expand, Assembler.Encode(inst), inst.op, inst.imm)
  {
    Assembler.DecodesEncoded(expand, inst);
  }

  lemma {:induction false} DecodedOffset(expand: DecodeFn, raw: Word, op: Opcode, offset: int)
    requires IsOffsetOp(op) && DecodesTo(expand, raw, op, offset)
    ensures Encodable(if op == I(JAL) then JumpForm else BranchForm, offset)
  {
    Assembler.EncodesDecoded(expand, raw);
    LegalOffset(Decoder.Decode(expand, raw).value);
  }

  /** For the 32-bit forms these are exactly the offsets that the machine's decoder returns. */
  lemma {:induction false} FormsAreDecoded(expand: DecodeFn, op: Opcode, offset: Int32)
    requires IsOffsetOp(op)
    ensures Encodable(if op == I(JAL) then JumpForm else BranchForm, offset)
            <==> exists raw: Word :: DecodesTo(expand, raw, op, offset)
  {
    if Encodable(if op == I(JAL) then JumpForm else BranchForm, offset) {
      OffsetLegal(op, offset);
      OffsetDecoded(expand, Instruction(op, imm := offset, raw := 0));
    }
    forall raw: Word | DecodesTo(expand, raw, op, offset)
      ensures Encodable(if op == I(JAL) then JumpForm else BranchForm, offset)
    {
      DecodedOffset(expand, raw, op, offset);
    }
  }
}
