/** What one instruction does, as a value: the architectural state, the effect an
    instruction asks for, and the state after performing it. The VM class is proved to
    compute exactly this, whatever its decode cache holds. */
module Machine {
  import opened Words
  import opened Isa
  import opened Alu

  datatype StepResult = Continue | Ecall | Ebreak

  datatype StepError =
    | IllegalInstruction
    | MisalignedPC
    | PCOutOfBounds
    | MisalignedAccess
    | AddressOutOfBounds

  datatype Result<+T> = Ok(value: T) | Err(error: StepError)

  /** At least 4 bytes, a multiple of 4, and addressable by a 32-bit word. */
  predicate ValidMemorySize(n: int) {
    4 <= n <= 0xFFFF_FFFF && n % 4 == 0
  }

  datatype ArchState = Arch(
    pc: Word,
    regs: seq<Word>,
    mem: seq<Byte>,
    cycles: DWord,
    res: Option<Word>,
    mscratch: Word)
  {
    /** The invariant every operation keeps. */
    predicate Valid() {
      && |regs| == 32
      && regs[0] == 0
      && ValidMemorySize(|mem|)
      && (res.Some? ==> res.value % 4 == 0 && res.value + 4 <= |mem|)
    }
  }

  /** An architectural state that satisfies the invariant. */
  type Arch = a: ArchState | a.Valid() witness Arch(0, seq(32, _ => 0), [0, 0, 0, 0], 0, None, 0)

  // ----- Memory -----

  /** Alignment is checked before bounds. */
  function CheckAccess(size: nat, addr: Word, width: Width): Option<StepError> {
    if addr % width != 0 then Some(MisalignedAccess)
    else if addr + width > size then Some(AddressOutOfBounds)
    else None
  }

  function LoadLe(mem: seq<Byte>, addr: nat, width: Width): (v: Word)
    requires addr + width <= |mem|
    ensures width == 1 ==> v < 0x100
    ensures width == 2 ==> v < 0x1_0000
  {
    FromLeBound(mem[addr..addr + width]);
    PowersOf256();
    FromLe(mem[addr..addr + width])
  }

  /** Memory with `bytes` written at `addr`. */
  function Splice(mem: seq<Byte>, addr: nat, bytes: seq<Byte>): (m: seq<Byte>)
    requires addr + |bytes| <= |mem|
    ensures |m| == |mem|
    ensures forall i :: 0 <= i < |mem| ==> m[i] == if addr <= i < addr + |bytes| then bytes[i - addr] else mem[i]
  {
    mem[..addr] + bytes + mem[addr + |bytes|..]
  }

  /** Whether [start, start + len) holds a byte of the word at `word`. */
  predicate Overlaps(start: nat, len: nat, word: Word) {
    len != 0 && start < word + 4 && word < start + len
  }

  /** The reservation after writing [start, start + len): lost if a byte of the reserved
      word was written. */
  function ResAfterWrite(res: Option<Word>, start: nat, len: nat): Option<Word> {
    if res.Some? && Overlaps(start, len, res.value) then None else res
  }

  function StoreBytes(a: Arch, addr: nat, bytes: seq<Byte>): Arch
    requires addr + |bytes| <= |a.mem|
  {
    a.(mem := Splice(a.mem, addr, bytes), res := ResAfterWrite(a.res, addr, |bytes|))
  }

  /** The state after filling [start, start + len) with zeros. */
  function Zeroed(a: Arch, start: nat, len: nat): (b: Arch)
    requires start + len <= |a.mem|
    ensures |b.mem| == |a.mem|
  {
    if len == 0 then a else a.(mem := Splice(a.mem, start, Zeros(len)), res := None)
  }

  function SetReg(a: Arch, rd: Reg, value: Word): Arch {
    a.(regs := a.regs[rd := value][0 := 0])
  }

  // ----- Fetch -----

  /** The instruction bits at pc: a halfword when its low bits say so, else a word. */
  function Fetch(a: Arch): Result<Word> {
    if a.pc % 2 != 0 then Err(MisalignedPC)
    else if a.pc + 2 > |a.mem| then Err(PCOutOfBounds)
    else
      var low := LoadLe(a.mem, a.pc, 2);
      if IsCompressed(low) then Ok(low)
      else if a.pc + 4 > |a.mem| then Err(PCOutOfBounds)
      else Ok(LoadLe(a.mem, a.pc, 4))
  }

  // ----- Effects -----

  datatype Effect =
    | Compute(rd: Reg, value: Word)
    | Load(rd: Reg, addr: Word, width: Width, signed: bool)
    | Store(addr: Word, width: Width, value: Word)
    | Branch(taken: bool, target: Word)
    | Jump(rd: Reg, link: Word, target: Word)
    | Fence
    | Stop(reason: StepResult)
    | LoadReserved(rd: Reg, addr: Word)
    | StoreConditional(rd: Reg, addr: Word, value: Word)
    | Amo(rd: Reg, addr: Word, op: OpA, operand: Word)
    | CsrAccess(rd: Reg, csr: OpCsr, number: int, operand: Word, hasOperand: bool)
  {
    predicate WellFormed() {
      && (Stop? ==> reason != Continue)
      && (Amo? ==> op != LR_W && op != SC_W)
    }
  }

  /** The effect of an instruction at `pc`, from its fields and source registers. */
  function EffectOf(inst: Instruction, pc: Word, next: Word, rs1: Word, rs2: Word): (e: Effect)
    ensures e.WellFormed()
  {
    var rd := inst.rd;
    var u := Bits32(inst.imm);
    match inst.op
    case I(op) => EffectOfI(op, rd, inst.imm, pc, next, rs1, rs2)
    case M(op) => Compute(rd, ComputeM(op, rs1, rs2))
    case A(op) => AtomicEffect(op, rd, rs1, rs2)
    case Csr(op) =>
      var immediate := op in {CSRRWI, CSRRSI, CSRRCI};
      CsrAccess(rd, op, CsrNumber(inst.imm), if immediate then inst.rs1 else rs1, inst.rs1 != 0)
    case Zba(op) => Compute(rd, ComputeZba(op, rs1, rs2))
    case Zbb(op) => Compute(rd, ComputeZbb(op, rs1, if FormatOf(inst.op) == FormatR then rs2 else u))
    case Zbs(op) => Compute(rd, ComputeZbs(op, rs1, if FormatOf(inst.op) == FormatR then rs2 else u))
  }

  function AtomicEffect(op: OpA, rd: Reg, addr: Word, rs2: Word): (e: Effect)
    ensures e.WellFormed()
  {
    if op == LR_W then LoadReserved(rd, addr)
    else if op == SC_W then StoreConditional(rd, addr, rs2)
    else Amo(rd, addr, op, rs2)
  }

  function EffectOfI(op: OpI, rd: Reg, imm: Int32, pc: Word, next: Word, rs1: Word, rs2: Word): (e: Effect)
    ensures e.WellFormed()
  {
    var u := Bits32(imm);
    var addr := Add32(rs1, u);
    match op
    case LB => Load(rd, addr, 1, true)
    case LH => Load(rd, addr, 2, true)
    case LW => Load(rd, addr, 4, false)
    case LBU => Load(rd, addr, 1, false)
    case LHU => Load(rd, addr, 2, false)
    case SB => Store(addr, 1, rs2)
    case SH => Store(addr, 2, rs2)
    case SW => Store(addr, 4, rs2)
    case BEQ | BNE | BLT | BGE | BLTU | BGEU => Branch(BranchTaken(op, rs1, rs2), Add32(pc, u))
    case JAL => Jump(rd, next, Add32(pc, u))
    case JALR => Jump(rd, next, addr - addr % 2)
    case FENCE | FENCE_I => Fence
    case ECALL => Stop(Ecall)
    case EBREAK => Stop(Ebreak)
    case _ => Compute(rd, ComputeI(op, rs1, rs2, imm, pc))
  }

  /** The bytes of memory an effect reads or writes, if any. */
  function AccessOf(e: Effect): Option<(Word, Width)> {
    match e
    case Load(_, addr, width, _) => Some((addr, width))
    case Store(addr, width, _) => Some((addr, width))
    case LoadReserved(_, addr) => Some((addr, 4))
    case StoreConditional(_, addr, _) => Some((addr, 4))
    case Amo(_, addr, _, _) => Some((addr, 4))
    case _ => None
  }

  // ----- CSRs -----

  const MSCRATCH: int := 0x340

  predicate Readable(number: int) {
    number in {0xC00, 0xC02, 0xC80, 0xC82, MSCRATCH}
  }

  function ReadCsr(a: Arch, number: int): Word {
    if number == 0xC00 || number == 0xC02 then a.cycles % 0x1_0000_0000
    else if number == 0xC80 || number == 0xC82 then a.cycles / 0x1_0000_0000
    else a.mscratch
  }

  predicate IsCsrSwap(op: OpCsr) {
    op == CSRRW || op == CSRRWI
  }

  /** A swap into x0 does not read the CSR; a set or clear with operand field 0 does not
      write it. Only mscratch is writable. */
  predicate CsrAllowed(op: OpCsr, number: int, rd: Reg, hasOperand: bool) {
    && ((IsCsrSwap(op) && rd == 0) || Readable(number))
    && (IsCsrSwap(op) || hasOperand ==> number == MSCRATCH)
  }

  function CsrWritten(op: OpCsr, was: Word, operand: Word): Word {
    match op
    case CSRRW | CSRRWI => operand
    case CSRRS | CSRRSI => Or(was, operand)
    case CSRRC | CSRRCI => And(was, Not(operand))
  }

  // ----- Performing an effect -----

  /** Why an effect cannot be performed, if it cannot. */
  function Refusal(a: Arch, e: Effect): Option<StepError> {
    if e.CsrAccess? then
      if CsrAllowed(e.csr, e.number, e.rd, e.hasOperand) then None else Some(IllegalInstruction)
    else
      match AccessOf(e)
      case None => None
      case Some((addr, width)) => CheckAccess(|a.mem|, addr, width)
  }

  function LoadedValue(a: Arch, addr: Word, width: Width, signed: bool): Word
    requires addr + width <= |a.mem|
  {
    var v := LoadLe(a.mem, addr, width);
    if !signed || width == 4 then v else if width == 1 then SextByte(v) else SextHalf(v)
  }

  /** The state after an effect that is not refused, before pc and the count move. */
  function Perform(a: Arch, e: Effect): (b: Arch)
    requires e.WellFormed() && Refusal(a, e) == None
    ensures |b.mem| == |a.mem| && b.pc == a.pc && b.cycles == a.cycles
  {
    match e
    case Compute(rd, value) => SetReg(a, rd, value)
    case Load(rd, addr, width, signed) => SetReg(a, rd, LoadedValue(a, addr, width, signed))
    case Store(addr, width, value) => StoreBytes(a, addr, ToLe(value, width))
    case Branch(_, _) => a
    case Jump(rd, link, _) => SetReg(a, rd, link)
    case Fence => a
    case Stop(_) => a
    case LoadReserved(rd, addr) => SetReg(a, rd, LoadLe(a.mem, addr, 4)).(res := Some(addr))
    case StoreConditional(rd, addr, value) =>
      if a.res == Some(addr) then SetReg(StoreBytes(a, addr, ToLe(value, 4)), rd, 0).(res := None)
      else SetReg(a, rd, 1).(res := None)
    case Amo(rd, addr, op, operand) =>
      var was := LoadLe(a.mem, addr, 4);
      SetReg(StoreBytes(a, addr, ToLe(ComputeAmo(op, was, operand), 4)), rd, was)
    case CsrAccess(rd, op, number, operand, hasOperand) =>
      var was := ReadCsr(a, number);
      var b := if IsCsrSwap(op) || hasOperand then a.(mscratch := CsrWritten(op, was, operand)) else a;
      SetReg(b, rd, was)
  }

  function TargetOf(e: Effect, next: Word): Word {
    match e
    case Branch(true, target) => target
    case Jump(_, _, target) => target
    case _ => next
  }

  /** The 64-bit count of retired instructions wraps. */
  function NextCount(cycles: DWord): DWord {
    if cycles == 0xFFFF_FFFF_FFFF_FFFF then 0 else cycles + 1
  }

  // ----- One step -----

  datatype Stepped = Stepped(arch: Arch, result: Result<StepResult>)

  /** The effect of the instruction that `raw` decoded to, at the current pc. */
  function EffectAt(a: Arch, inst: Instruction, raw: Word): (e: Effect)
    ensures e.WellFormed()
  {
    EffectOf(inst, a.pc, Add32(a.pc, SizeOf(raw)), a.regs[inst.rs1], a.regs[inst.rs2])
  }

  function Execute(a: Arch, inst: Instruction, raw: Word): (s: Stepped)
    ensures |s.arch.mem| == |a.mem|
  {
    var e := EffectAt(a, inst, raw);
    match Refusal(a, e)
    case Some(error) => Stepped(a, Err(error))
    case None =>
      var b := Perform(a, e);
      Stepped(b.(pc := TargetOf(e, Add32(a.pc, SizeOf(raw))), cycles := NextCount(a.cycles)),
              Ok(if e.Stop? then e.reason else Continue))
  }

  /** Fetch, decode and execute one instruction, with no cache. */
  function Step(decode: DecodeFn, a: Arch): (s: Stepped)
    ensures |s.arch.mem| == |a.mem|
  {
    match Fetch(a)
    case Err(error) => Stepped(a, Err(error))
    case Ok(raw) =>
      match decode(raw)
      case None => Stepped(a, Err(IllegalInstruction))
      case Some(inst) => Execute(a, inst, raw)
  }
}
