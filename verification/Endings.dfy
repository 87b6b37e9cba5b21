/** How generated programs end: an ECALL or EBREAK, or an instruction that faults whatever the
    registers hold, shown on the machine itself. */
module Endings {
  import opened Words
  import opened Isa
  import opened Alu
  import opened BitFields
  import opened Machine
  import opened Decoder

  /** One instruction, one that another prepares, or bits that encode no instruction. */
  datatype Ending =
    | Single(inst: Instruction)
    | Prepared(first: Instruction, inst: Instruction)
    | ReservedWord(word: Word)
    | ReservedHalfword(raw: Word)

  /** Reserved encodings, 32 and 16 bits long. */
  const RESERVED_32: set<Word> :=
    {0x0000_000B, 0x0000_200F, 0x0000_1067, 0x0000_2063, 0x0000_3003, 0x0000_6003, 0x0000_3023, 0x0000_302F,
     0x0000_003B, 0x0200_D013, 0x0200_1013, 0x0A00_0033, 0x1051_A52F, 0x0000_00F3, 0x0010_8073}
  const RESERVED_16: set<Word> := {0x0000, 0x4002, 0x8002, 0x6101, 0x9C01, 0x6000, 0x8000, 0x1082}

  /** The test runner's memory. */
  const MEMORY: nat := 0x5_0000

  /** The instruction stops the machine, or faults and changes nothing, or leaves a pc that
      cannot be fetched from. */
  predicate Last(a: Arch, inst: Instruction, raw: Word) {
    var s := Execute(a, inst, raw);
    match s.result
    case Ok(Continue) => Fetch(s.arch).Err?
    case Ok(_) => true
    case Err(_) => s.arch == a
  }

  ghost predicate LastAnyway(a: Arch, inst: Instruction) {
    forall raw :: Last(a, inst, raw)
  }

  ghost predicate Prepares(a: Arch, first: Instruction, inst: Instruction, raw: Word) {
    Execute(a, first, raw).result == Ok(Continue) && LastAnyway(Execute(a, first, raw).arch, inst)
  }

  /** The ending ends the program in this state. */
  ghost predicate EndsAt(e: Ending, a: Arch, expand: DecodeFn) {
    match e
    case Single(inst) => LastAnyway(a, inst)
    case Prepared(first, inst) => forall raw :: Prepares(a, first, inst, raw)
    case ReservedWord(raw) => Decode(expand, raw) == None
    case ReservedHalfword(raw) => Decode(expand, raw) == None
  }

  /** The runner's machine, with an aligned address in the base register. */
  predicate Booted(a: Arch, base: Reg) {
    |a.mem| == MEMORY && a.regs[base] % 4 == 0
  }

  /** The 16-bit expansion, which this model leaves open, rejects the reserved halfwords. */
  ghost predicate Rejects(expand: DecodeFn) {
    forall raw :: raw in RESERVED_16 ==> expand(raw) == None
  }

  ghost predicate AlwaysEnds(e: Ending, base: Reg) {
    forall a: Arch, expand: DecodeFn :: Booted(a, base) && Rejects(expand) ==> EndsAt(e, a, expand)
  }

  // ----- Stops -----

  lemma StopIsLast(a: Arch, inst: Instruction, raw: Word)
    requires inst.op == I(ECALL) || inst.op == I(EBREAK)
    ensures Last(a, inst, raw)
  {
  }

  lemma StopEnds(op: OpI, base: Reg)
    requires op == ECALL || op == EBREAK
    ensures AlwaysEnds(Single(Instruction(I(op), raw := 0)), base)
  {
    var inst := Instruction(I(op), raw := 0);
    forall a: Arch, expand: DecodeFn | Booted(a, base) ensures EndsAt(Single(inst), a, expand) {
      forall raw ensures Last(a, inst, raw) {
        StopIsLast(a, inst, raw);
      }
    }
  }

  // ----- Misaligned accesses -----

  predicate IsLoad(op: OpI, w: Width) {
    (op == LB && w == 1) || (op == LBU && w == 1) || (op == LH && w == 2) || (op == LHU && w == 2) || (op == LW && w == 4)
  }

  predicate IsStore(op: OpI, w: Width) {
    (op == SB && w == 1) || (op == SH && w == 2) || (op == SW && w == 4)
  }

  /** Where the instruction loads or stores. */
  lemma AccessAddress(a: Arch, op: OpI, w: Width, inst: Instruction, raw: Word)
    requires inst.op == I(op) && (IsLoad(op, w) || IsStore(op, w))
    ensures AccessOf(EffectAt(a, inst, raw)) == Some((Add32(a.regs[inst.rs1], Bits32(inst.imm)), w))
  {
  }

  lemma AtomicAddress(a: Arch, op: OpA, inst: Instruction, raw: Word)
    requires inst.op == A(op)
    ensures AccessOf(EffectAt(a, inst, raw)) == Some((a.regs[inst.rs1], 4))
  {
  }

  /** An access that is misaligned or out of bounds is the last thing that happens. */
  lemma RefusedIsLast(a: Arch, inst: Instruction, addr: Word, w: Width)
    requires forall raw :: AccessOf(EffectAt(a, inst, raw)) == Some((addr, w))
    requires addr % w != 0 || addr + w > |a.mem|
    ensures LastAnyway(a, inst)
  {
    forall raw ensures Last(a, inst, raw) {
      assert AccessOf(EffectAt(a, inst, raw)) == Some((addr, w));
    }
  }

  /** A word-aligned base plus an offset has the offset's alignment. */
  lemma OffsetAlignment(b: Word, off: int, w: Width)
    requires b % 4 == 0
    ensures Add32(b, Bits32(off)) % w == off % w
  {
    var sum := b + Bits32(off);
    var q := sum / 0x1_0000_0000 + off / 0x1_0000_0000;
    assert Add32(b, Bits32(off)) == 4 * (b / 4) + off - 0x1_0000_0000 * q;
    if w == 1 {
    } else if w == 2 {
      DivModUnique(Add32(b, Bits32(off)), 2, 2 * (b / 4) + off / 2 - 0x8000_0000 * q, off % 2);
    } else {
      DivModUnique(Add32(b, Bits32(off)), 4, b / 4 + off / 4 - 0x4000_0000 * q, off % 4);
    }
  }

  /** A load or store of `w` bytes at a multiple of `w` and a bit. */
  lemma {:induction false} MisalignedEnds(op: OpI, w: Width, j: int, m: nat, x: Reg, y: Reg, base: Reg)
    requires (IsLoad(op, w) || IsStore(op, w)) && -100 <= j <= 100 && 0 < m < w
    ensures AlwaysEnds(Single(Instruction(I(op), rd := x, rs1 := base, rs2 := y, imm := w * j + m, raw := 0)), base)
  {
    var inst := Instruction(I(op), rd := x, rs1 := base, rs2 := y, imm := w * j + m, raw := 0);
    forall a: Arch, expand: DecodeFn | Booted(a, base) ensures EndsAt(Single(inst), a, expand) {
      var addr := Add32(a.regs[base], Bits32(inst.imm));
      OffsetAlignment(a.regs[base], inst.imm, w);
      DivModUnique(w * j + m, w, j, m);
      forall raw ensures AccessOf(EffectAt(a, inst, raw)) == Some((addr, w)) {
        AccessAddress(a, op, w, inst, raw);
      }
      RefusedIsLast(a, inst, addr, w);
    }
  }

  // ----- Prepared addresses -----

  function AddImmediate(t: Reg, b: Reg, imm: Int32): Instruction {
    Instruction(I(ADDI), rd := t, rs1 := b, imm := imm, raw := 0)
  }

  /** LUI with the upper twenty bits `hi`. */
  function LoadUpper(t: Reg, hi: nat): Instruction
    requires hi < 0x10_0000
  {
    Instruction(I(LUI), rd := t, imm := Signed(hi * 0x1000), raw := 0)
  }

  lemma AddImmediateRuns(a: Arch, t: Reg, b: Reg, imm: Int32, raw: Word)
    requires t != 0
    ensures var s := Execute(a, AddImmediate(t, b, imm), raw);
            s.result == Ok(Continue) && s.arch.regs[t] == Add32(a.regs[b], Bits32(imm)) && |s.arch.mem| == |a.mem|
  {
  }

  lemma LoadUpperRuns(a: Arch, t: Reg, hi: nat, raw: Word)
    requires t != 0 && hi < 0x10_0000
    ensures var s := Execute(a, LoadUpper(t, hi), raw);
            s.result == Ok(Continue) && s.arch.regs[t] == hi * 0x1000 && |s.arch.mem| == |a.mem|
  {
  }

  lemma {:induction false} AtomicRefused(b: Arch, op: OpA, inst: Instruction)
    requires inst.op == A(op) && (b.regs[inst.rs1] % 4 != 0 || b.regs[inst.rs1] + 4 > |b.mem|)
    ensures LastAnyway(b, inst)
  {
    forall raw ensures AccessOf(EffectAt(b, inst, raw)) == Some((b.regs[inst.rs1], 4)) {
      AtomicAddress(b, op, inst, raw);
    }
    RefusedIsLast(b, inst, b.regs[inst.rs1], 4);
  }

  /** An AMO, LR.W or SC.W at an address that is not a multiple of four. */
  lemma {:induction false} MisalignedAtomicEnds(op: OpA, t: Reg, c: Int32, rd: Reg, rs2: Reg, base: Reg)
    requires t != 0 && c % 4 != 0
    ensures AlwaysEnds(Prepared(AddImmediate(t, base, c), Instruction(A(op), rd := rd, rs1 := t, rs2 := rs2, raw := 0)), base)
  {
    var first, inst := AddImmediate(t, base, c), Instruction(A(op), rd := rd, rs1 := t, rs2 := rs2, raw := 0);
    forall a: Arch, expand: DecodeFn | Booted(a, base) ensures EndsAt(Prepared(first, inst), a, expand) {
      forall raw ensures Prepares(a, first, inst, raw) {
        AddImmediateRuns(a, t, base, c, raw);
        OffsetAlignment(a.regs[base], c, 4);
        AtomicRefused(Execute(a, first, raw).arch, op, inst);
      }
    }
  }

  // ----- Unmapped memory -----

  /** The upper part of an address beyond the runner's memory. */
  predicate Beyond(hi: nat) {
    0x50 <= hi < 0x10_0000
  }

  lemma BeyondMemory(hi: nat, off: nat)
    requires Beyond(hi) && off < 0x1000
    ensures Add32(hi * 0x1000, Bits32(off)) == hi * 0x1000 + off >= MEMORY
  {
  }

  lemma {:induction false} UnmappedEnds(op: OpI, w: Width, t: Reg, hi: nat, off: Int32, x: Reg, y: Reg, base: Reg)
    requires (IsLoad(op, w) || IsStore(op, w)) && t != 0 && Beyond(hi) && 0 <= off < 0x800
    ensures AlwaysEnds(Prepared(LoadUpper(t, hi), Instruction(I(op), rd := x, rs1 := t, rs2 := y, imm := off, raw := 0)), base)
  {
    var first, inst := LoadUpper(t, hi), Instruction(I(op), rd := x, rs1 := t, rs2 := y, imm := off, raw := 0);
    forall a: Arch, expand: DecodeFn | Booted(a, base) ensures EndsAt(Prepared(first, inst), a, expand) {
      forall raw ensures Prepares(a, first, inst, raw) {
        LoadUpperRuns(a, t, hi, raw);
        BeyondMemory(hi, off);
        var b := Execute(a, first, raw).arch;
        var addr := Add32(b.regs[t], Bits32(off));
        forall raw' ensures AccessOf(EffectAt(b, inst, raw')) == Some((addr, w)) {
          AccessAddress(b, op, w, inst, raw');
        }
        RefusedIsLast(b, inst, addr, w);
      }
    }
  }

  lemma {:induction false} UnmappedAtomicEnds(op: OpA, t: Reg, hi: nat, rd: Reg, rs2: Reg, base: Reg)
    requires t != 0 && Beyond(hi)
    ensures AlwaysEnds(Prepared(LoadUpper(t, hi), Instruction(A(op), rd := rd, rs1 := t, rs2 := rs2, raw := 0)), base)
  {
    var first, inst := LoadUpper(t, hi), Instruction(A(op), rd := rd, rs1 := t, rs2 := rs2, raw := 0);
    forall a: Arch, expand: DecodeFn | Booted(a, base) ensures EndsAt(Prepared(first, inst), a, expand) {
      forall raw ensures Prepares(a, first, inst, raw) {
        LoadUpperRuns(a, t, hi, raw);
        BeyondMemory(hi, 0);
        AtomicRefused(Execute(a, first, raw).arch, op, inst);
      }
    }
  }

  /** A jump there retires, and nothing can be fetched then. */
  lemma {:induction false} UnmappedJumpEnds(t: Reg, hi: nat, off: Int32, rd: Reg, base: Reg)
    requires t != 0 && Beyond(hi) && 0 <= off < 0x800
    ensures AlwaysEnds(Prepared(LoadUpper(t, hi), Instruction(I(JALR), rd := rd, rs1 := t, imm := off, raw := 0)), base)
  {
    var first, inst := LoadUpper(t, hi), Instruction(I(JALR), rd := rd, rs1 := t, imm := off, raw := 0);
    forall a: Arch, expand: DecodeFn | Booted(a, base) ensures EndsAt(Prepared(first, inst), a, expand) {
      forall raw ensures Prepares(a, first, inst, raw) {
        LoadUpperRuns(a, t, hi, raw);
        BeyondMemory(hi, off);
        var b := Execute(a, first, raw).arch;
        forall raw' ensures Last(b, inst, raw') {
          JumpBeyond(b, inst, raw');
        }
      }
    }
  }

  lemma JumpBeyond(b: Arch, inst: Instruction, raw: Word)
    requires inst.op == I(JALR) && Add32(b.regs[inst.rs1], Bits32(inst.imm)) >= |b.mem| == MEMORY
    ensures Last(b, inst, raw)
  {
    assert Execute(b, inst, raw).arch.pc >= MEMORY;
  }

  // ----- CSRs -----

  /** The immediate that a CSR number is decoded to. */
  function CsrImmediate(number: nat): Int32
    requires number < 0x1000
  {
    if number < 0x800 then number else number - 0x1000
  }

  /** A write to a CSR other than mscratch, or a read of one that there is not. */
  lemma {:induction false} CsrEnds(op: OpCsr, number: nat, rd: Reg, operand: Reg, base: Reg)
    requires number < 0x1000 && number != MSCRATCH && (IsCsrSwap(op) || operand != 0 || !Readable(number))
    ensures AlwaysEnds(Single(Instruction(Csr(op), rd := rd, rs1 := operand, imm := CsrImmediate(number), raw := 0)), base)
  {
    var inst := Instruction(Csr(op), rd := rd, rs1 := operand, imm := CsrImmediate(number), raw := 0);
    assert CsrNumber(inst.imm) == number;
    forall a: Arch, expand: DecodeFn | Booted(a, base) ensures EndsAt(Single(inst), a, expand) {
      forall raw ensures Last(a, inst, raw) {
        assert Refusal(a, EffectAt(a, inst, raw)) == Some(IllegalInstruction);
      }
    }
  }

  // ----- Reserved encodings -----

  /** Fields that no instruction has: an opcode of no extension here, or one with a function
      code, shift amount or operand that it does not allow. */
  predicate NotEncoded(o: U7, f3: U3, f7: U7, f5: U5, rs2: U5, rd: U5, rs1: U5) {
    || o == 0x0B || o == 0x3B
    || (o == 0x0F && f3 == 2) || (o == 0x67 && f3 == 1) || (o == 0x63 && f3 == 2)
    || (o == 0x03 && (f3 == 3 || f3 == 6)) || (o == 0x23 && f3 == 3)
    || (o == 0x2F && (f3 == 3 || (f5 == 2 && rs2 != 0)))
    || (o == 0x13 && (f3 == 1 || f3 == 5) && f7 == 1) || (o == 0x33 && f3 == 0 && f7 == 5)
    || (o == 0x73 && f3 == 0 && (rd != 0 || rs1 != 0))
  }

  lemma {:induction false} NotDecodedAlu(w: Fields, raw: Word)
    requires NotEncoded(w.opcode7, w.f3, w.f7, w.f5, w.rs2Field, w.rdField, w.rs1Field)
    requires w.opcode7 == 0x13 || w.opcode7 == 0x33
    ensures DecodeWord(w, raw) == None
  {
  }

  lemma {:induction false} NotDecodedSystem(w: Fields, raw: Word)
    requires NotEncoded(w.opcode7, w.f3, w.f7, w.f5, w.rs2Field, w.rdField, w.rs1Field)
    requires w.opcode7 == 0x2F || w.opcode7 == 0x73
    ensures DecodeWord(w, raw) == None
  {
  }

  lemma {:induction false} NotDecoded(w: Fields, raw: Word)
    requires NotEncoded(w.opcode7, w.f3, w.f7, w.f5, w.rs2Field, w.rdField, w.rs1Field)
    ensures DecodeWord(w, raw) == None
  {
    if w.opcode7 == 0x13 || w.opcode7 == 0x33 {
      NotDecodedAlu(w, raw);
    } else if w.opcode7 == 0x2F || w.opcode7 == 0x73 {
      NotDecodedSystem(w, raw);
    }
  }

  predicate IsReserved(w: Word) {
    !IsCompressed(w) && NotEncoded(Opcode7(w), Funct3(w), Funct7(w), Funct5(w), Rs2(w), Rd(w), Rs1(w))
  }

  lemma ReservedMemory()
    ensures IsReserved(0x0000_2063) && IsReserved(0x0000_3003) && IsReserved(0x0000_6003) && IsReserved(0x0000_3023)
    ensures IsReserved(0x0000_302F) && IsReserved(0x1051_A52F) && IsReserved(0x0000_200F)
  {
  }

  lemma ReservedOthers()
    ensures IsReserved(0x0000_000B) && IsReserved(0x0000_1067) && IsReserved(0x0000_003B) && IsReserved(0x0200_D013)
    ensures IsReserved(0x0200_1013) && IsReserved(0x0A00_0033) && IsReserved(0x0000_00F3) && IsReserved(0x0010_8073)
  {
  }

  lemma ReservedFields(w: Word)
    requires w in RESERVED_32
    ensures IsReserved(w)
  {
    ReservedMemory();
    ReservedOthers();
  }

  lemma {:induction false} ReservedWordEnds(raw: Word, base: Reg)
    requires raw in RESERVED_32
    ensures AlwaysEnds(ReservedWord(raw), base)
  {
    forall expand: DecodeFn ensures Decode(expand, raw) == None {
      ReservedUndecodable(expand, raw);
    }
  }

  lemma ReservedUndecodable(expand: DecodeFn, raw: Word)
    requires raw in RESERVED_32
    ensures Decode(expand, raw) == None
  {
    ReservedFields(raw);
    NotDecoded(FieldsOf(raw), raw);
  }

  lemma {:induction false} ReservedHalfwordEnds(raw: Word, base: Reg)
    requires raw in RESERVED_16
    ensures AlwaysEnds(ReservedHalfword(raw), base)
  {
    assert IsCompressed(raw);
  }
}
