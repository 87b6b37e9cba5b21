/** What each instruction does to the machine, number by number: where it goes on, what it
    leaves in registers, memory and CSRs, and what it leaves alone. Every law is about a step
    that retires, in any state and under any decoder, and says nothing about how the step is
    put together. */
module StepLaws {
  import opened Words
  import opened Bits
  import opened Isa
  import opened Alu
  import opened BitLaws
  import opened Laws
  import opened Machine
  import opened Running

  /** A step from `a` to `b` fetches `raw`, which decodes to `inst`, and retires. */
  ghost predicate Retires(decode: DecodeFn, a: Arch, raw: Word, inst: Instruction, b: Arch) {
    Fetch(a) == Ok(raw) && decode(raw) == Some(inst) && Step(decode, a).result.Ok? && Step(decode, a).arch == b
  }

  /** Registers other than `rd` keep their values. */
  ghost predicate OthersKept(a: Arch, b: Arch, rd: Reg) {
    forall r: Reg :: r != rd ==> b.regs[r] == a.regs[r]
  }

  /** Nothing but registers, pc and the count changes. */
  predicate MemoryKept(a: Arch, b: Arch) {
    b.mem == a.mem && b.res == a.res && b.mscratch == a.mscratch
  }

  /** `rd` gets the value, and nothing else changes but pc and the count. */
  ghost predicate Gives(a: Arch, b: Arch, rd: Reg, v: Word) {
    MemoryKept(a, b) && OthersKept(a, b, rd) && (rd != 0 ==> b.regs[rd] == v)
  }

  /** The address behind the instruction at pc, by its first byte. */
  function Behind(a: Arch): Word
    requires a.pc < |a.mem|
  {
    (a.pc + if a.mem[a.pc] % 4 == 3 then 4 else 2) % 0x1_0000_0000
  }

  /** rs1 plus the immediate. */
  function Sum(a: Arch, inst: Instruction): Word {
    (a.regs[inst.rs1] + inst.imm) % 0x1_0000_0000
  }

  // ----- Fetching -----

  /** The bits that are fetched: two bytes, or four if the low two bits of the first one are
      set. */
  lemma {:induction false} FetchedBytes(a: Arch, raw: Word)
    requires Fetch(a) == Ok(raw)
    ensures a.pc % 2 == 0 && a.pc + 2 <= |a.mem|
    ensures a.mem[a.pc] % 4 != 3 ==> raw == HalfAt(a.mem, a.pc)
    ensures a.mem[a.pc] % 4 == 3 ==>
              a.pc + 4 <= |a.mem| && raw == WordAt(a.mem, a.pc)
    ensures SizeOf(raw) == if a.mem[a.pc] % 4 == 3 then 4 else 2
  {
    LoadedJoin(a.mem, a.pc, 2);
    JoinLow(a.mem[a.pc], a.mem[a.pc + 1], 0, 0);
    if a.pc + 4 <= |a.mem| {
      LoadedJoin(a.mem, a.pc, 4);
      JoinLow(a.mem[a.pc], a.mem[a.pc + 1], a.mem[a.pc + 2], a.mem[a.pc + 3]);
    }
  }

  lemma JoinLow(b0: Byte, b1: Byte, b2: Byte, b3: Byte)
    ensures Join2(b0, b1) % 4 == b0 % 4 && Join4(b0, b1, b2, b3) % 4 == b0 % 4
  {
    DivModUnique(Join2(b0, b1), 4, b0 / 4 + 0x40 * b1, b0 % 4);
    DivModUnique(Join4(b0, b1, b2, b3), 4, b0 / 4 + 0x40 * b1 + 0x4000 * b2 + 0x40_0000 * b3, b0 % 4);
  }

  lemma {:induction false} LoadedJoin(mem: seq<Byte>, p: nat, w: Width)
    requires p + w <= |mem|
    ensures w == 1 ==> LoadLe(mem, p, w) == mem[p]
    ensures w == 2 ==> LoadLe(mem, p, w) == HalfAt(mem, p)
    ensures w == 4 ==> LoadLe(mem, p, w) == WordAt(mem, p)
  {
    LeValues(mem[p..p + w]);
  }

  // ----- The parts of a step -----

  /** The effect of the instruction at pc. */
  function EffectHere(a: Arch, inst: Instruction): (e: Effect)
    requires a.pc < |a.mem|
    ensures e.WellFormed()
  {
    EffectOf(inst, a.pc, Behind(a), a.regs[inst.rs1], a.regs[inst.rs2])
  }

  /** `b` is `a` after the effect, and after going on. */
  predicate After(a: Arch, e: Effect, b: Arch)
    requires a.pc < |a.mem| && e.WellFormed()
  {
    Refusal(a, e) == None && b == Perform(a, e).(pc := TargetOf(e, Behind(a)), cycles := NextCount(a.cycles))
  }

  lemma {:induction false} Parts(decode: DecodeFn, a: Arch, raw: Word, inst: Instruction, b: Arch)
    requires Retires(decode, a, raw, inst, b)
    ensures a.pc < |a.mem| && After(a, EffectHere(a, inst), b)
    ensures var e := EffectHere(a, inst); Step(decode, a).result == Ok(if e.Stop? then e.reason else Continue)
  {
    FetchedBytes(a, raw);
    assert Step(decode, a) == Execute(a, inst, raw);
  }

  /** An effect that only gives a register its value. */
  lemma AfterCompute(a: Arch, rd: Reg, v: Word, b: Arch)
    requires a.pc < |a.mem| && After(a, Compute(rd, v), b)
    ensures Gives(a, b, rd, v)
  {
  }

  /** An effect that changes no register and no memory. */
  lemma AfterNothing(a: Arch, e: Effect, b: Arch)
    requires a.pc < |a.mem| && e.WellFormed() && (e.Branch? || e.Fence? || e.Stop?) && After(a, e, b)
    ensures Gives(a, b, 0, 0) && b.pc == if e.Branch? && e.taken then e.target else Behind(a)
  {
  }

  lemma AfterJumpEffect(a: Arch, rd: Reg, link: Word, target: Word, b: Arch)
    requires a.pc < |a.mem| && After(a, Jump(rd, link, target), b)
    ensures Gives(a, b, rd, link) && b.pc == target
  {
  }

  lemma AfterLoadEffect(a: Arch, rd: Reg, p: Word, n: Width, signed: bool, b: Arch)
    requires a.pc < |a.mem| && After(a, Load(rd, p, n, signed), b)
    ensures p % n == 0 && p + n <= |a.mem| && Gives(a, b, rd, LoadedValue(a, p, n, signed))
  {
  }

  lemma AfterStoreEffect(a: Arch, p: Word, n: Width, v: Word, b: Arch)
    requires a.pc < |a.mem| && After(a, Store(p, n, v), b)
    ensures p % n == 0 && p + n <= |a.mem| && b.mem == Splice(a.mem, p, ToLe(v, n))
    ensures OthersKept(a, b, 0) && b.mscratch == a.mscratch
  {
  }

  lemma AfterAmoEffect(a: Arch, rd: Reg, p: Word, op: OpA, y: Word, b: Arch)
    requires a.pc < |a.mem| && op != LR_W && op != SC_W && After(a, Amo(rd, p, op, y), b)
    ensures p % 4 == 0 && p + 4 <= |a.mem|
    ensures b.mem == Splice(a.mem, p, ToLe(ComputeAmo(op, LoadLe(a.mem, p, 4), y), 4))
    ensures OthersKept(a, b, rd) && b.mscratch == a.mscratch && (rd != 0 ==> b.regs[rd] == LoadLe(a.mem, p, 4))
  {
  }

  lemma SumOfResidue(x: int, i: int)
    ensures Add32(x, Bits32(i)) == (x + i) % 0x1_0000_0000
  {
    var q := (x + Bits32(i)) / 0x1_0000_0000 + i / 0x1_0000_0000;
    DivModUnique(x + i, 0x1_0000_0000, q, Add32(x, Bits32(i)));
  }

  // ----- Where a step goes on -----

  predicate IsBranch(op: Opcode) {
    op in {I(BEQ), I(BNE), I(BLT), I(BGE), I(BLTU), I(BGEU)}
  }

  /** A step counts one instruction and, unless it is a branch or a jump, goes on behind it. */
  lemma {:induction false} StraightOn(decode: DecodeFn, a: Arch, raw: Word, inst: Instruction, b: Arch)
    requires Retires(decode, a, raw, inst, b)
    ensures a.pc < |a.mem| && b.cycles == (a.cycles + 1) % 0x1_0000_0000_0000_0000
    ensures !IsBranch(inst.op) && inst.op != I(JAL) && inst.op != I(JALR) ==> b.pc == Behind(a)
  {
    Parts(decode, a, raw, inst, b);
    OnlyControlTurns(a, inst);
    Counted(a, EffectHere(a, inst), b);
  }

  lemma Counted(a: Arch, e: Effect, b: Arch)
    requires a.pc < |a.mem| && e.WellFormed() && After(a, e, b)
    ensures b.cycles == (a.cycles + 1) % 0x1_0000_0000_0000_0000 && (!e.Branch? && !e.Jump? ==> b.pc == Behind(a))
  {
  }

  lemma OnlyControlTurns(a: Arch, inst: Instruction)
    requires a.pc < |a.mem|
    ensures !IsBranch(inst.op) && inst.op != I(JAL) && inst.op != I(JALR) ==> !EffectHere(a, inst).Branch? && !EffectHere(a, inst).Jump?
  {
  }

  /** The comparison of a branch. */
  predicate Holds(op: Opcode, x: Word, y: Word) {
    if op == I(BEQ) then x == y
    else if op == I(BNE) then x != y
    else if op == I(BLT) then Signed(x) < Signed(y)
    else if op == I(BGE) then Signed(x) >= Signed(y)
    else if op == I(BLTU) then x < y
    else x >= y
  }

  /** A branch goes to pc plus its offset if its comparison holds, else on behind it, and
      does nothing else. */
  lemma {:induction false} BranchGoes(decode: DecodeFn, a: Arch, raw: Word, inst: Instruction, b: Arch)
    requires Retires(decode, a, raw, inst, b) && IsBranch(inst.op)
    ensures a.pc < |a.mem| && Gives(a, b, 0, 0)
    ensures b.pc == if Holds(inst.op, a.regs[inst.rs1], a.regs[inst.rs2]) then (a.pc + inst.imm) % 0x1_0000_0000 else Behind(a)
  {
    Parts(decode, a, raw, inst, b);
    AfterBranch(a, inst, b);
  }

  lemma {:induction false} AfterBranch(a: Arch, inst: Instruction, b: Arch)
    requires IsBranch(inst.op) && a.pc < |a.mem| && After(a, EffectHere(a, inst), b)
    ensures Gives(a, b, 0, 0)
    ensures b.pc == if Holds(inst.op, a.regs[inst.rs1], a.regs[inst.rs2]) then (a.pc + inst.imm) % 0x1_0000_0000 else Behind(a)
  {
    SumOfResidue(a.pc, inst.imm);
    BranchEffectIs(a, inst);
    AfterNothing(a, EffectHere(a, inst), b);
  }

  lemma BranchEffectIs(a: Arch, inst: Instruction)
    requires IsBranch(inst.op) && a.pc < |a.mem|
    ensures EffectHere(a, inst)
            == Branch(Holds(inst.op, a.regs[inst.rs1], a.regs[inst.rs2]), Add32(a.pc, Bits32(inst.imm)))
  {
  }

  /** JAL goes to pc plus its offset and leaves the address behind it in rd. */
  lemma {:induction false} JalGoes(decode: DecodeFn, a: Arch, raw: Word, inst: Instruction, b: Arch)
    requires Retires(decode, a, raw, inst, b) && inst.op == I(JAL)
    ensures a.pc < |a.mem| && b.pc == (a.pc + inst.imm) % 0x1_0000_0000 && Gives(a, b, inst.rd, Behind(a))
  {
    Parts(decode, a, raw, inst, b);
    AfterJal(a, inst, b);
  }

  /** JALR goes to rs1 plus its immediate with bit 0 cleared, and leaves the address behind
      it in rd, also when rd is rs1. */
  lemma {:induction false} JalrGoes(decode: DecodeFn, a: Arch, raw: Word, inst: Instruction, b: Arch)
    requires Retires(decode, a, raw, inst, b) && inst.op == I(JALR)
    ensures a.pc < |a.mem| && b.pc == Sum(a, inst) - Sum(a, inst) % 2 && Gives(a, b, inst.rd, Behind(a))
  {
    Parts(decode, a, raw, inst, b);
    AfterJalr(a, inst, b);
  }

  lemma {:induction false} AfterJal(a: Arch, inst: Instruction, b: Arch)
    requires inst.op == I(JAL) && a.pc < |a.mem| && After(a, EffectHere(a, inst), b)
    ensures b.pc == (a.pc + inst.imm) % 0x1_0000_0000 && Gives(a, b, inst.rd, Behind(a))
  {
    JumpEffectIs(a, inst);
    SumOfResidue(a.pc, inst.imm);
    AfterJumpEffect(a, inst.rd, Behind(a), Add32(a.pc, Bits32(inst.imm)), b);
  }

  lemma {:induction false} AfterJalr(a: Arch, inst: Instruction, b: Arch)
    requires inst.op == I(JALR) && a.pc < |a.mem| && After(a, EffectHere(a, inst), b)
    ensures b.pc == Sum(a, inst) - Sum(a, inst) % 2 && Gives(a, b, inst.rd, Behind(a))
  {
    JumpEffectIs(a, inst);
    SumOfResidue(a.regs[inst.rs1], inst.imm);
    AfterJumpEffect(a, inst.rd, Behind(a), Sum(a, inst) - Sum(a, inst) % 2, b);
  }

  lemma JumpEffectIs(a: Arch, inst: Instruction)
    requires inst.op in {I(JAL), I(JALR)} && a.pc < |a.mem|
    ensures var there := Add32(a.regs[inst.rs1], Bits32(inst.imm));
            EffectHere(a, inst)
            == Jump(inst.rd, Behind(a), if inst.op == I(JAL) then Add32(a.pc, Bits32(inst.imm)) else there - there % 2)
  {
  }

  /** ECALL and EBREAK say so and change nothing; a fence changes nothing either. */
  lemma {:induction false} StopsAndFences(decode: DecodeFn, a: Arch, raw: Word, inst: Instruction, b: Arch)
    requires Retires(decode, a, raw, inst, b)
    ensures Step(decode, a).result
            == if inst.op == I(ECALL) then Ok(Ecall) else if inst.op == I(EBREAK) then Ok(Ebreak) else Ok(Continue)
    ensures inst.op in {I(ECALL), I(EBREAK), I(FENCE), I(FENCE_I)} ==> Gives(a, b, 0, 0)
  {
    Parts(decode, a, raw, inst, b);
    OnlyStopsStop(a, inst);
    StopsAndFencesKeep(a, inst, b);
  }

  lemma OnlyStopsStop(a: Arch, inst: Instruction)
    requires a.pc < |a.mem|
    ensures var e := EffectHere(a, inst);
            if inst.op == I(ECALL) then e == Stop(Ecall) else if inst.op == I(EBREAK) then e == Stop(Ebreak) else !e.Stop?
  {
  }

  lemma StopsAndFencesKeep(a: Arch, inst: Instruction, b: Arch)
    requires a.pc < |a.mem| && After(a, EffectHere(a, inst), b)
    ensures inst.op in {I(ECALL), I(EBREAK), I(FENCE), I(FENCE_I)} ==> Gives(a, b, 0, 0)
  {
    if inst.op in {I(ECALL), I(EBREAK), I(FENCE), I(FENCE_I)} {
      QuietEffects(a, inst);
      AfterNothing(a, EffectHere(a, inst), b);
    }
  }

  lemma QuietEffects(a: Arch, inst: Instruction)
    requires a.pc < |a.mem| && inst.op in {I(ECALL), I(EBREAK), I(FENCE), I(FENCE_I)}
    ensures EffectHere(a, inst).Fence? || EffectHere(a, inst).Stop?
  {
  }

  // ----- Loads and stores -----

  /** The bytes that a load or store moves. */
  function AccessSize(op: Opcode): Width {
    if op in {I(LB), I(LBU), I(SB)} then 1 else if op in {I(LH), I(LHU), I(SH)} then 2 else 4
  }

  /** What a load reads: the bytes, least significant first, with the sign above them for LB
      and LH and zeros for LBU and LHU. */
  function Loaded(mem: seq<Byte>, p: nat, op: Opcode): Word
    requires p + AccessSize(op) <= |mem|
  {
    if op == I(LBU) then mem[p]
    else if op == I(LB) then mem[p] + (if mem[p] >= 0x80 then 0xFFFF_FF00 else 0)
    else if op == I(LHU) then HalfAt(mem, p)
    else if op == I(LH) then HalfAt(mem, p) + (if mem[p + 1] >= 0x80 then 0xFFFF_0000 else 0)
    else if AccessSize(op) == 4 then WordAt(mem, p)
    else 0
  }

  /** A load reads at rs1 plus the immediate. */
  lemma {:induction false} LoadGives(decode: DecodeFn, a: Arch, raw: Word, inst: Instruction, b: Arch)
    requires Retires(decode, a, raw, inst, b) && inst.op in {I(LB), I(LH), I(LW), I(LBU), I(LHU)}
    ensures var p, n := Sum(a, inst), AccessSize(inst.op);
            p % n == 0 && p + n <= |a.mem| && Gives(a, b, inst.rd, Loaded(a.mem, p, inst.op))
  {
    Parts(decode, a, raw, inst, b);
    AfterLoad(a, inst, b);
  }

  lemma {:induction false} AfterLoad(a: Arch, inst: Instruction, b: Arch)
    requires inst.op in {I(LB), I(LH), I(LW), I(LBU), I(LHU)} && a.pc < |a.mem| && After(a, EffectHere(a, inst), b)
    ensures var p, n := Sum(a, inst), AccessSize(inst.op);
            p % n == 0 && p + n <= |a.mem| && Gives(a, b, inst.rd, Loaded(a.mem, p, inst.op))
  {
    SumOfResidue(a.regs[inst.rs1], inst.imm);
    LoadEffectIs(a, inst);
    var p, n := Sum(a, inst), AccessSize(inst.op);
    AfterLoadEffect(a, inst.rd, p, n, inst.op in {I(LB), I(LH)}, b);
    LoadedBytes(a.mem, p, n, inst.op);
  }

  lemma LoadEffectIs(a: Arch, inst: Instruction)
    requires inst.op in {I(LB), I(LH), I(LW), I(LBU), I(LHU)} && a.pc < |a.mem|
    ensures EffectHere(a, inst)
            == Load(inst.rd, Add32(a.regs[inst.rs1], Bits32(inst.imm)), AccessSize(inst.op), inst.op in {I(LB), I(LH)})
  {
  }

  lemma {:induction false} LoadedBytes(mem: seq<Byte>, p: nat, w: Width, op: Opcode)
    requires op in {I(LB), I(LH), I(LW), I(LBU), I(LHU)} && w == AccessSize(op) && p + w <= |mem|
    ensures var v := LoadLe(mem, p, w);
            Loaded(mem, p, op) == if op == I(LB) then SextByte(v) else if op == I(LH) then SextHalf(v) else v
  {
    LoadedJoin(mem, p, w);
    if op == I(LB) {
      SignOfByte(mem[p]);
    } else if op == I(LH) {
      SignOfHalf(mem[p], mem[p + 1]);
    }
  }

  lemma SignOfByte(b: Byte)
    ensures SextByte(b) == b + if b >= 0x80 then 0xFFFF_FF00 else 0
  {
  }

  lemma SignOfHalf(b0: Byte, b1: Byte)
    ensures SextHalf(Join2(b0, b1)) == Join2(b0, b1) + if b1 >= 0x80 then 0xFFFF_0000 else 0
  {
  }

  /** A store writes the low bytes of rs2 at rs1 plus the immediate, least significant first,
      and touches no other byte and no register. */
  lemma {:induction false} StoreWrites(decode: DecodeFn, a: Arch, raw: Word, inst: Instruction, b: Arch)
    requires Retires(decode, a, raw, inst, b) && inst.op in {I(SB), I(SH), I(SW)}
    ensures Sum(a, inst) % AccessSize(inst.op) == 0 && OthersKept(a, b, 0) && b.mscratch == a.mscratch
    ensures Wrote(a.mem, b.mem, Sum(a, inst), AccessSize(inst.op), a.regs[inst.rs2])
  {
    Parts(decode, a, raw, inst, b);
    AfterStore(a, inst, b);
  }

  /** The low `n` bytes of `v` are at `p`, and every other byte is as before. */
  ghost predicate Wrote(was: seq<Byte>, now: seq<Byte>, p: nat, n: Width, v: Word) {
    && p + n <= |was| == |now|
    && now[p] == v % 0x100
    && (n >= 2 ==> now[p + 1] == v / 0x100 % 0x100)
    && (n == 4 ==> now[p + 2] == v / 0x1_0000 % 0x100 && now[p + 3] == v / 0x100_0000)
    && forall i :: 0 <= i < |was| && !(p <= i < p + n) ==> now[i] == was[i]
  }

  lemma {:induction false} AfterStore(a: Arch, inst: Instruction, b: Arch)
    requires inst.op in {I(SB), I(SH), I(SW)} && a.pc < |a.mem| && After(a, EffectHere(a, inst), b)
    ensures Sum(a, inst) % AccessSize(inst.op) == 0 && OthersKept(a, b, 0) && b.mscratch == a.mscratch
    ensures Wrote(a.mem, b.mem, Sum(a, inst), AccessSize(inst.op), a.regs[inst.rs2])
  {
    StoreEffectIs(a, inst);
    Stored(a, EffectHere(a, inst), Sum(a, inst), AccessSize(inst.op), a.regs[inst.rs2], b);
  }

  lemma {:induction false} Stored(a: Arch, e: Effect, p: Word, n: Width, v: Word, b: Arch)
    requires e == Store(p, n, v) && a.pc < |a.mem| && After(a, e, b)
    ensures p % n == 0 && OthersKept(a, b, 0) && b.mscratch == a.mscratch && Wrote(a.mem, b.mem, p, n, v)
  {
    AfterStoreEffect(a, p, n, v, b);
    SplicedBytes(a.mem, p, n, v);
  }

  lemma StoreEffectIs(a: Arch, inst: Instruction)
    requires inst.op in {I(SB), I(SH), I(SW)} && a.pc < |a.mem|
    ensures EffectHere(a, inst) == Store(Sum(a, inst), AccessSize(inst.op), a.regs[inst.rs2])
  {
    SumOfResidue(a.regs[inst.rs1], inst.imm);
  }

  lemma {:induction false} SplicedBytes(mem: seq<Byte>, p: nat, n: Width, v: Word)
    requires p + n <= |mem|
    ensures Wrote(mem, Splice(mem, p, ToLe(v, n)), p, n, v)
  {
    LeSingle(v);
    LeBytes(v);
  }

  // ----- Arithmetic -----

  /** LUI gives the immediate, AUIPC adds it to pc. */
  lemma {:induction false} UpperGives(decode: DecodeFn, a: Arch, raw: Word, inst: Instruction, b: Arch)
    requires Retires(decode, a, raw, inst, b) && inst.op in {I(LUI), I(AUIPC)}
    ensures Gives(a, b, inst.rd, ((if inst.op == I(LUI) then 0 else a.pc) + inst.imm) % 0x1_0000_0000)
  {
    Parts(decode, a, raw, inst, b);
    AfterUpper(a, inst, b);
  }

  lemma {:induction false} AfterUpper(a: Arch, inst: Instruction, b: Arch)
    requires inst.op in {I(LUI), I(AUIPC)} && a.pc < |a.mem| && After(a, EffectHere(a, inst), b)
    ensures Gives(a, b, inst.rd, ((if inst.op == I(LUI) then 0 else a.pc) + inst.imm) % 0x1_0000_0000)
  {
    SumOfResidue(a.pc, inst.imm);
    UpperEffectIs(a, inst);
    AfterCompute(a, inst.rd, EffectHere(a, inst).value, b);
  }

  lemma UpperEffectIs(a: Arch, inst: Instruction)
    requires inst.op in {I(LUI), I(AUIPC)} && a.pc < |a.mem|
    ensures EffectHere(a, inst)
            == Compute(inst.rd, if inst.op == I(LUI) then Bits32(inst.imm) else Add32(a.pc, Bits32(inst.imm)))
  {
  }

  /** Bit `i` of the result of a logical operation or shift. */
  predicate ResultBit(op: OpI, x: Word, y: Word, v: Word, i: nat) {
    var s := y % 32;
    match op
    case XOR => Bit(v, i) == (Bit(x, i) != Bit(y, i))
    case OR => Bit(v, i) == (Bit(x, i) || Bit(y, i))
    case AND => Bit(v, i) == (Bit(x, i) && Bit(y, i))
    case SLL => Bit(v, i) == (i >= s && Bit(x, i - s))
    case SRL => Bit(v, i) == (i + s < 32 && Bit(x, i + s))
    case SRA => Bit(v, i) == Bit(x, if i + s < 32 then i + s else 31)
    case _ => false
  }

  /** `v` is the result of a register operation on x and y. */
  ghost predicate IsResult(op: OpI, x: Word, y: Word, v: Word) {
    match op
    case ADD => v == x + y || v == x + y - 0x1_0000_0000
    case SUB => v == x - y || v == x - y + 0x1_0000_0000
    case SLT => v == if Signed(x) < Signed(y) then 1 else 0
    case SLTU => v == if x < y then 1 else 0
    case _ => forall i: nat :: i < 32 ==> ResultBit(op, x, y, v, i)
  }

  lemma {:induction false} RegisterResult(op: OpI, x: Word, y: Word, imm: Int32, pc: Word)
    requires op in {ADD, SUB, SLT, SLTU, XOR, OR, AND, SLL, SRL, SRA}
    ensures IsResult(op, x, y, ComputeI(op, x, y, imm, pc))
  {
    var v := ComputeI(op, x, y, imm, pc);
    if op in {XOR, OR, AND, SLL, SRL, SRA} {
      forall i: nat | i < 32 ensures ResultBit(op, x, y, v, i) {
        LogicBits(x, y, i);
        SllBit(x, y, y % 32, i);
        SrlBit(x, y, y % 32, i);
        SraBit(x, y, y % 32, i);
      }
    }
  }

  predicate IsRegisterOp(op: OpI) {
    op in {ADD, SUB, SLT, SLTU, XOR, OR, AND, SLL, SRL, SRA}
  }

  /** A register operation gives its result on rs1 and rs2, an immediate one on rs1 and the
      sign-extended immediate. */
  lemma {:induction false} ArithmeticGives(decode: DecodeFn, a: Arch, raw: Word, inst: Instruction, b: Arch) returns (v: Word)
    requires Retires(decode, a, raw, inst, b) && inst.op.I? && IsRegisterOp(RegisterForm(inst.op.i))
    ensures Gives(a, b, inst.rd, v)
    ensures IsResult(RegisterForm(inst.op.i), a.regs[inst.rs1],
                     if IsRegisterOp(inst.op.i) then a.regs[inst.rs2] else inst.imm % 0x1_0000_0000, v)
  {
    Parts(decode, a, raw, inst, b);
    v := AfterArithmetic(a, inst, b);
  }

  lemma {:induction false} AfterArithmetic(a: Arch, inst: Instruction, b: Arch) returns (v: Word)
    requires inst.op.I? && IsRegisterOp(RegisterForm(inst.op.i)) && a.pc < |a.mem| && After(a, EffectHere(a, inst), b)
    ensures Gives(a, b, inst.rd, v)
    ensures IsResult(RegisterForm(inst.op.i), a.regs[inst.rs1],
                     if IsRegisterOp(inst.op.i) then a.regs[inst.rs2] else inst.imm % 0x1_0000_0000, v)
  {
    var op, x := inst.op.i, a.regs[inst.rs1];
    var y := if IsRegisterOp(op) then a.regs[inst.rs2] else Bits32(inst.imm);
    v := ComputeI(RegisterForm(op), x, y, inst.imm, a.pc);
    RegisterResult(RegisterForm(op), x, y, inst.imm, a.pc);
    SameResult(op, x, a.regs[inst.rs2], y, inst.imm, a.pc);
    ComputeHere(a, inst);
    AfterCompute(a, inst.rd, v, b);
  }

  lemma ComputeHere(a: Arch, inst: Instruction)
    requires inst.op.I? && IsRegisterOp(RegisterForm(inst.op.i)) && a.pc < |a.mem|
    ensures EffectHere(a, inst)
            == Compute(inst.rd, ComputeI(inst.op.i, a.regs[inst.rs1], a.regs[inst.rs2], inst.imm, a.pc))
  {
  }

  lemma SameResult(op: OpI, x: Word, rs2: Word, y: Word, imm: Int32, pc: Word)
    requires IsRegisterOp(RegisterForm(op)) && y == if IsRegisterOp(op) then rs2 else Bits32(imm)
    ensures ComputeI(op, x, rs2, imm, pc) == ComputeI(RegisterForm(op), x, y, imm, pc)
  {
    SignedOfBits(imm);
  }

  // ----- Other extensions -----

  /** What an instruction of the M, Zba, Zbb or Zbs extension computes from rs1 and its second
      operand; `Alu`, `BitLaws` and `Laws` say what that is. */
  function Computed(op: Opcode, x: Word, y: Word): Word
    requires op.M? || op.Zba? || op.Zbb? || op.Zbs?
  {
    match op
    case M(m) => ComputeM(m, x, y)
    case Zba(z) => ComputeZba(z, x, y)
    case Zbb(z) => ComputeZbb(z, x, y)
    case Zbs(z) => ComputeZbs(z, x, y)
  }

  /** The second operand: the immediate of RORI and the Zbs immediate forms, else rs2. */
  function SecondOperand(a: Arch, inst: Instruction): Word {
    if inst.op in {Zbb(RORI), Zbs(BCLRI), Zbs(BEXTI), Zbs(BINVI), Zbs(BSETI)} then inst.imm % 0x1_0000_0000
    else a.regs[inst.rs2]
  }

  /** Instructions of one operand only. */
  predicate IsUnary(op: Opcode) {
    op in {Zbb(CLZ), Zbb(CTZ), Zbb(CPOP), Zbb(SEXT_B), Zbb(SEXT_H), Zbb(ZEXT_H), Zbb(ORC_B), Zbb(REV8)}
  }

  lemma {:induction false} ExtensionGives(decode: DecodeFn, a: Arch, raw: Word, inst: Instruction, b: Arch)
    requires Retires(decode, a, raw, inst, b) && (inst.op.M? || inst.op.Zba? || inst.op.Zbb? || inst.op.Zbs?)
    ensures Gives(a, b, inst.rd,
                  Computed(inst.op, a.regs[inst.rs1], if IsUnary(inst.op) then 0 else SecondOperand(a, inst)))
  {
    Parts(decode, a, raw, inst, b);
    ExtensionEffectIs(a, inst);
    AfterCompute(a, inst.rd, EffectHere(a, inst).value, b);
  }

  lemma ExtensionEffectIs(a: Arch, inst: Instruction)
    requires a.pc < |a.mem| && (inst.op.M? || inst.op.Zba? || inst.op.Zbb? || inst.op.Zbs?)
    ensures EffectHere(a, inst)
            == Compute(inst.rd, Computed(inst.op, a.regs[inst.rs1], if IsUnary(inst.op) then 0 else SecondOperand(a, inst)))
  {
  }

  // ----- Atomics -----

  /** `n` is what an AMO leaves in memory, given the word `w` that was there and the operand
      `y`. */
  ghost predicate AmoResult(op: OpA, w: Word, y: Word, n: Word) {
    match op
    case AMOSWAP_W => n == y
    case AMOADD_W => n == w + y || n == w + y - 0x1_0000_0000
    case AMOXOR_W => forall i: nat :: i < 32 ==> Bit(n, i) == (Bit(w, i) != Bit(y, i))
    case AMOAND_W => forall i: nat :: i < 32 ==> Bit(n, i) == (Bit(w, i) && Bit(y, i))
    case AMOOR_W => forall i: nat :: i < 32 ==> Bit(n, i) == (Bit(w, i) || Bit(y, i))
    case AMOMIN_W => (n == w || n == y) && Signed(n) <= Signed(w) && Signed(n) <= Signed(y)
    case AMOMAX_W => (n == w || n == y) && Signed(n) >= Signed(w) && Signed(n) >= Signed(y)
    case AMOMINU_W => (n == w || n == y) && n <= w && n <= y
    case AMOMAXU_W => (n == w || n == y) && n >= w && n >= y
    case _ => false
  }

  lemma {:induction false} AmoComputes(op: OpA, w: Word, y: Word)
    requires op != LR_W && op != SC_W
    ensures AmoResult(op, w, y, ComputeAmo(op, w, y))
  {
    if op in {AMOXOR_W, AMOAND_W, AMOOR_W} {
      forall i: nat | i < 32
        ensures Bit(Xor(w, y), i) == (Bit(w, i) != Bit(y, i))
        ensures Bit(And(w, y), i) == (Bit(w, i) && Bit(y, i))
        ensures Bit(Or(w, y), i) == (Bit(w, i) || Bit(y, i))
      {
        LogicBits(w, y, i);
      }
    }
  }

  /** An AMO gives the word at the address in rs1 to rd and leaves there what its operation
      makes of it and rs2; no other byte changes. */
  lemma {:induction false} AmoGives(decode: DecodeFn, a: Arch, raw: Word, inst: Instruction, b: Arch)
    requires Retires(decode, a, raw, inst, b) && inst.op.A? && inst.op.a != LR_W && inst.op.a != SC_W
    ensures var p := a.regs[inst.rs1];
            && p % 4 == 0 && p + 4 <= |a.mem| == |b.mem|
            && AmoResult(inst.op.a, WordAt(a.mem, p), a.regs[inst.rs2], WordAt(b.mem, p))
            && (inst.rd != 0 ==> b.regs[inst.rd] == WordAt(a.mem, p))
            && forall i :: 0 <= i < |a.mem| && !(p <= i < p + 4) ==> b.mem[i] == a.mem[i]
    ensures OthersKept(a, b, inst.rd) && b.mscratch == a.mscratch
  {
    Parts(decode, a, raw, inst, b);
    AfterAmo(a, inst, b);
  }

  lemma {:induction false} AfterAmo(a: Arch, inst: Instruction, b: Arch)
    requires inst.op.A? && inst.op.a != LR_W && inst.op.a != SC_W && a.pc < |a.mem| && After(a, EffectHere(a, inst), b)
    ensures var p := a.regs[inst.rs1];
            && p % 4 == 0 && p + 4 <= |a.mem| == |b.mem|
            && AmoResult(inst.op.a, WordAt(a.mem, p), a.regs[inst.rs2], WordAt(b.mem, p))
            && (inst.rd != 0 ==> b.regs[inst.rd] == WordAt(a.mem, p))
            && forall i :: 0 <= i < |a.mem| && !(p <= i < p + 4) ==> b.mem[i] == a.mem[i]
    ensures OthersKept(a, b, inst.rd) && b.mscratch == a.mscratch
  {
    AmoEffectIs(a, inst);
    AfterAmoEffect(a, inst.rd, a.regs[inst.rs1], inst.op.a, a.regs[inst.rs2], b);
    AmoOnBytes(a.mem, a.regs[inst.rs1], inst.op.a, a.regs[inst.rs2], b.mem);
  }

  lemma AmoEffectIs(a: Arch, inst: Instruction)
    requires inst.op.A? && inst.op.a != LR_W && inst.op.a != SC_W && a.pc < |a.mem|
    ensures EffectHere(a, inst) == Amo(inst.rd, a.regs[inst.rs1], inst.op.a, a.regs[inst.rs2])
  {
  }

  lemma {:induction false} AmoOnBytes(was: seq<Byte>, p: nat, op: OpA, y: Word, now: seq<Byte>)
    requires op != LR_W && op != SC_W && p + 4 <= |was|
    requires now == Splice(was, p, ToLe(ComputeAmo(op, LoadLe(was, p, 4), y), 4))
    ensures |now| == |was| && LoadLe(was, p, 4) == WordAt(was, p) && AmoResult(op, WordAt(was, p), y, WordAt(now, p))
    ensures forall i :: 0 <= i < |was| && !(p <= i < p + 4) ==> now[i] == was[i]
  {
    LoadedJoin(was, p, 4);
    AmoComputes(op, LoadLe(was, p, 4), y);
    SplicedWord(was, p, ComputeAmo(op, LoadLe(was, p, 4), y));
  }

  lemma {:induction false} SplicedWord(mem: seq<Byte>, p: nat, n: Word)
    requires p + 4 <= |mem|
    ensures WordAt(Splice(mem, p, ToLe(n, 4)), p) == n
  {
    SplicedBytes(mem, p, 4, n);
    BytesOf(n);
  }

  /** LR.W gives the word at the address in rs1 to rd and reserves it. */
  lemma {:induction false} LoadReservedGives(decode: DecodeFn, a: Arch, raw: Word, inst: Instruction, b: Arch)
    requires Retires(decode, a, raw, inst, b) && inst.op == A(LR_W)
    ensures var p := a.regs[inst.rs1];
            && p % 4 == 0 && p + 4 <= |a.mem| && b.res == Some(p) && b.mem == a.mem && b.mscratch == a.mscratch
            && OthersKept(a, b, inst.rd) && (inst.rd != 0 ==> b.regs[inst.rd] == WordAt(a.mem, p))
  {
    Parts(decode, a, raw, inst, b);
    LoadedJoin(a.mem, a.regs[inst.rs1], 4);
  }

  /** SC.W writes rs2 to the address in rs1 and gives 0 if that word is reserved, and gives 1
      and writes nothing if it is not; either way nothing is reserved any more. */
  lemma {:induction false} StoreConditionalGives(decode: DecodeFn, a: Arch, raw: Word, inst: Instruction, b: Arch)
    requires Retires(decode, a, raw, inst, b) && inst.op == A(SC_W)
    ensures var p := a.regs[inst.rs1];
            && p % 4 == 0 && p + 4 <= |a.mem| && b.res == None && b.mscratch == a.mscratch && OthersKept(a, b, inst.rd)
            && (if a.res == Some(p) then Wrote(a.mem, b.mem, p, 4, a.regs[inst.rs2]) else b.mem == a.mem)
            && (inst.rd != 0 ==> b.regs[inst.rd] == if a.res == Some(p) then 0 else 1)
  {
    Parts(decode, a, raw, inst, b);
    SplicedBytes(a.mem, a.regs[inst.rs1], 4, a.regs[inst.rs2]);
  }

  // ----- CSRs -----

  /** What a CSR reads as: the halves of the count of retired instructions for cycle and
      instret (0xC00, 0xC02 and 0xC80, 0xC82), and mscratch (0x340). */
  function CsrValue(a: Arch, number: int): Word {
    if number == 0x340 then a.mscratch
    else if number == 0xC00 || number == 0xC02 then a.cycles % 0x1_0000_0000
    else a.cycles / 0x1_0000_0000
  }

  /** The operand: rs1, or the five bits in its place. */
  function CsrOperand(a: Arch, inst: Instruction): Word {
    if inst.op in {Csr(CSRRW), Csr(CSRRS), Csr(CSRRC)} then a.regs[inst.rs1] else inst.rs1
  }

  predicate Swaps(op: Opcode) {
    op == Csr(CSRRW) || op == Csr(CSRRWI)
  }

  /** Bit `i` of mscratch after a write. */
  predicate WrittenBit(op: Opcode, was: Word, y: Word, now: Word, i: nat) {
    Bit(now, i) == if Swaps(op) then Bit(y, i)
                   else if op == Csr(CSRRS) || op == Csr(CSRRSI) then Bit(was, i) || Bit(y, i)
                   else Bit(was, i) && !Bit(y, i)
  }

  /** A CSR instruction gives the CSR's value to rd, and swaps, sets or clears bits of
      mscratch, the only one that can be written; a set or clear with operand field 0 writes
      nothing. */
  lemma {:induction false} CsrGives(decode: DecodeFn, a: Arch, raw: Word, inst: Instruction, b: Arch)
    requires Retires(decode, a, raw, inst, b) && inst.op.Csr?
    ensures var n, writes := inst.imm % 0x1000, Swaps(inst.op) || inst.rs1 != 0;
            && n in {0x340, 0xC00, 0xC02, 0xC80, 0xC82} && (writes ==> n == 0x340)
            && (inst.rd != 0 ==> b.regs[inst.rd] == CsrValue(a, n))
            && (if writes then forall i: nat :: i < 32 ==> WrittenBit(inst.op, a.mscratch, CsrOperand(a, inst), b.mscratch, i)
                else b.mscratch == a.mscratch)
    ensures OthersKept(a, b, inst.rd) && b.mem == a.mem && b.res == a.res
  {
    Parts(decode, a, raw, inst, b);
    AfterCsr(a, inst, b);
  }

  lemma {:induction false} AfterCsr(a: Arch, inst: Instruction, b: Arch)
    requires inst.op.Csr? && a.pc < |a.mem| && After(a, EffectHere(a, inst), b)
    ensures var n, writes := inst.imm % 0x1000, Swaps(inst.op) || inst.rs1 != 0;
            && n in {0x340, 0xC00, 0xC02, 0xC80, 0xC82} && (writes ==> n == 0x340)
            && (inst.rd != 0 ==> b.regs[inst.rd] == CsrValue(a, n))
            && (if writes then forall i: nat :: i < 32 ==> WrittenBit(inst.op, a.mscratch, CsrOperand(a, inst), b.mscratch, i)
                else b.mscratch == a.mscratch)
    ensures OthersKept(a, b, inst.rd) && b.mem == a.mem && b.res == a.res
  {
    var n, y := inst.imm % 0x1000, CsrOperand(a, inst);
    assert EffectHere(a, inst) == CsrAccess(inst.rd, inst.op.csr, n, y, inst.rs1 != 0);
    forall i: nat | i < 32 ensures WrittenBit(inst.op, a.mscratch, y, CsrWritten(inst.op.csr, a.mscratch, y), i) {
      LogicBits(a.mscratch, y, i);
      NotBit(y, i);
      LogicBits(a.mscratch, Not(y), i);
    }
  }

  /** A CSR instruction that may not do what it asks for is refused as illegal; every other
      one retires. */
  lemma {:induction false} CsrRefused(decode: DecodeFn, a: Arch, raw: Word, inst: Instruction)
    requires Fetch(a) == Ok(raw) && decode(raw) == Some(inst) && inst.op.Csr?
    ensures var n := inst.imm % 0x1000;
            var allowed := (n in {0x340, 0xC00, 0xC02, 0xC80, 0xC82} || (Swaps(inst.op) && inst.rd == 0))
                           && (Swaps(inst.op) || inst.rs1 != 0 ==> n == 0x340);
            Step(decode, a).result == if allowed then Ok(Continue) else Err(IllegalInstruction)
  {
    assert Step(decode, a) == Execute(a, inst, raw);
  }

  // ----- Traces -----

  /** The state after `n` steps. */
  function StateAfter(step: StepFn, a: Arch, n: nat): Arch
    decreases n
  {
    if n == 0 then a else StateAfter(step, step(a).arch, n - 1)
  }

  /** A line tells the count, the pc and the bytes at it, two or four of them. */
  ghost predicate Tells(line: TraceLine, b: Arch) {
    && line.cycle == b.cycles && line.pc == b.pc && b.pc + 2 <= |b.mem|
    && (b.mem[b.pc] % 4 != 3 ==> line.raw == HalfAt(b.mem, b.pc))
    && (b.mem[b.pc] % 4 == 3 ==>
          b.pc + 4 <= |b.mem| && line.raw == WordAt(b.mem, b.pc))
  }

  lemma LineTells(b: Arch)
    requires Fetch(b).Ok?
    ensures Tells(LineAt(b), b)
  {
    FetchedBytes(b, Fetch(b).value);
  }

  lemma {:induction false} LineOf(step: StepFn, a: Arch, n: nat, i: nat)
    requires i < |TraceLines(step, a, n)|
    ensures TraceLines(step, a, n)[i] == LineAt(StateAfter(step, a, i)) && step(StateAfter(step, a, i)).result.Ok?
    decreases n
  {
    if i > 0 {
      LineOf(step, step(a).arch, n - 1, i - 1);
    }
  }

  /** The i-th line of a VM's trace tells of the state before its i-th step. */
  lemma {:induction false} TraceTells(decode: DecodeFn, a: Arch, n: nat, i: nat)
    requires i < |TraceLines(Stepper(decode), a, n)|
    ensures Tells(TraceLines(Stepper(decode), a, n)[i], StateAfter(Stepper(decode), a, i))
  {
    LineOf(Stepper(decode), a, n, i);
    RetiringFetches(decode, StateAfter(Stepper(decode), a, i));
    LineTells(StateAfter(Stepper(decode), a, i));
  }

  lemma RetiringFetches(decode: DecodeFn, b: Arch)
    requires Stepper(decode)(b).result.Ok?
    ensures Fetch(b).Ok?
  {
  }
}
