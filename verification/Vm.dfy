/** The virtual machine itself: an object whose methods update its registers, memory,
    reservation, CSR, counters and decode cache in place, in the order the source does. */
module VirtualMachine {
  import opened Words
  import opened Isa
  import opened Alu
  import opened Machine
  import opened History
  import opened Cache
  import opened Faults
  import opened Running

  class Vm {
    const decode: DecodeFn
    const regs: array<Word>
    const memory: array<Byte>
    const decodeCache: array<Instruction>
    var pc: Word
    var cycleCount: DWord
    var reservation: Option<Word>
    var mscratch: Word
    var stopPc: Word

    /** The object invariant: a decoder that keeps the bits it decoded, separate buffers, a
        valid memory size, x0 zero, an aligned reservation and a consistent cache. */
    ghost predicate Valid()
      reads this, regs, memory, decodeCache
    {
      && StoresRaw(decode)
      && (regs as object) != memory
      && ArchState.Arch(pc, regs[..], memory[..], cycleCount, reservation, mscratch).Valid()
      && Consistent(decode, decodeCache[..])
    }

    ghost function Arch(): Machine.Arch
      requires Valid()
      reads this, regs, memory, decodeCache
    {
      ArchState.Arch(pc, regs[..], memory[..], cycleCount, reservation, mscratch)
    }

    ghost function State(): VmState
      requires Valid()
      reads this, regs, memory, decodeCache
    {
      VmState(Arch(), decodeCache[..], stopPc)
    }

    /** A zeroed VM with `size` bytes of memory and `entries` cache slots. */
    constructor (decode: DecodeFn, size: nat, entries: nat)
      requires StoresRaw(decode) && ValidMemorySize(size)
      ensures Valid() && fresh(regs) && fresh(memory) && fresh(decodeCache)
      ensures this.decode == decode
      ensures State() == VmState(ResetState(size), EmptyCache(entries), 0)
    {
      this.decode := decode;
      regs := new Word[32](_ => 0);
      memory := new Byte[size](_ => 0);
      decodeCache := new Instruction[entries](_ => EMPTY_SLOT);
      pc, cycleCount, reservation, mscratch, stopPc := 0, 0, None, 0, 0;
      new;
      assert regs[..] == seq(32, _ => 0);
      assert memory[..] == Zeros(size);
      assert decodeCache[..] == EmptyCache(entries);
    }

    /** Back to the power-on state, keeping the buffers. */
    method Reset()
      requires Valid()
      modifies this, regs, memory, decodeCache
      ensures Valid()
      ensures State() == VmState(ResetState(memory.Length), EmptyCache(decodeCache.Length), 0)
    {
      forall i | 0 <= i < regs.Length { regs[i] := 0; }
      forall i | 0 <= i < memory.Length { memory[i] := 0; }
      forall i | 0 <= i < decodeCache.Length { decodeCache[i] := EMPTY_SLOT; }
      pc, cycleCount, reservation, mscratch, stopPc := 0, 0, None, 0, 0;
      assert regs[..] == seq(32, _ => 0);
      assert memory[..] == Zeros(memory.Length);
      assert decodeCache[..] == EmptyCache(decodeCache.Length);
    }

    // ----- Registers -----

    method ReadReg(reg: Reg) returns (v: Word)
      requires Valid()
      ensures v == Arch().regs[reg]
    {
      if reg == 0 { return 0; }
      v := regs[reg];
    }

    /** Write, then restore x0. */
    method WriteReg(reg: Reg, value: Word)
      requires Valid()
      modifies regs
      ensures Valid()
      ensures State() == old(State()).(arch := SetReg(old(Arch()), reg, value))
    {
      regs[reg] := value;
      regs[0] := 0;
      assert regs[..] == old(regs[..])[reg := value][0 := 0];
    }

    // ----- Memory -----

    method Fetch() returns (r: Result<Word>)
      requires Valid()
      ensures r == Machine.Fetch(Arch())
    {
      if pc % 2 != 0 { return Err(MisalignedPC); }
      if pc > memory.Length - 2 { return Err(PCOutOfBounds); }
      var low := Peek(pc, 2);
      if IsCompressed(low) { return Ok(low); }
      if pc > memory.Length - 4 { return Err(PCOutOfBounds); }
      var word := Peek(pc, 4);
      return Ok(word);
    }

    /** A little-endian integer, byte by byte. */
    method Peek(addr: nat, width: Width) returns (v: Word)
      requires Valid() && addr + width <= memory.Length
      ensures v == LoadLe(memory[..], addr, width)
    {
      ghost var bytes := memory[addr..addr + width];
      assert memory[..][addr..addr + width] == bytes;
      LeValues(bytes);
      if width == 1 {
        v := memory[addr];
      } else if width == 2 {
        v := Join2(memory[addr], memory[addr + 1]);
      } else {
        v := Join4(memory[addr], memory[addr + 1], memory[addr + 2], memory[addr + 3]);
      }
    }

    method ReadByte(addr: Word) returns (r: Result<Word>)
      requires Valid()
      ensures r == ReadResult(Arch(), addr, 1)
    {
      if addr >= memory.Length { return Err(AddressOutOfBounds); }
      var v := Peek(addr, 1);
      return Ok(v);
    }

    method ReadHalfword(addr: Word) returns (r: Result<Word>)
      requires Valid()
      ensures r == ReadResult(Arch(), addr, 2)
    {
      if addr % 2 != 0 { return Err(MisalignedAccess); }
      if addr > memory.Length - 2 { return Err(AddressOutOfBounds); }
      var v := Peek(addr, 2);
      return Ok(v);
    }

    method ReadWord(addr: Word) returns (r: Result<Word>)
      requires Valid()
      ensures r == ReadResult(Arch(), addr, 4)
    {
      var e := CheckWordAccess(addr);
      if e.Some? { return Err(e.value); }
      var v := Peek(addr, 4);
      return Ok(v);
    }

    method CheckWordAccess(addr: Word) returns (e: Option<StepError>)
      requires Valid()
      ensures e == CheckAccess(memory.Length, addr, 4)
    {
      if addr % 4 != 0 { return Some(MisalignedAccess); }
      if addr > memory.Length - 4 { return Some(AddressOutOfBounds); }
      return None;
    }

    method WriteByte(addr: Word, value: Word) returns (r: Result<StepResult>)
      requires Valid()
      modifies this`reservation, memory
      ensures Valid()
      ensures Wrote(old(State()), addr, 1, value, r)
    {
      if addr >= memory.Length { return Err(AddressOutOfBounds); }
      LeSingle(value);
      memory[addr] := value % 256;
      assert memory[..] == Splice(old(memory[..]), addr, ToLe(value, 1));
      InvalidateReservation(addr, 1);
      return Ok(Continue);
    }

    method WriteHalfword(addr: Word, value: Word) returns (r: Result<StepResult>)
      requires Valid()
      modifies this`reservation, memory
      ensures Valid()
      ensures Wrote(old(State()), addr, 2, value, r)
    {
      if addr % 2 != 0 { return Err(MisalignedAccess); }
      if addr > memory.Length - 2 { return Err(AddressOutOfBounds); }
      LeBytes(value);
      memory[addr] := value % 256;
      memory[addr + 1] := value / 0x100 % 256;
      assert memory[..] == Splice(old(memory[..]), addr, ToLe(value, 2));
      InvalidateReservation(addr, 2);
      return Ok(Continue);
    }

    method WriteWord(addr: Word, value: Word) returns (r: Result<StepResult>)
      requires Valid()
      modifies this`reservation, memory
      ensures Valid()
      ensures Wrote(old(State()), addr, 4, value, r)
    {
      var e := CheckWordAccess(addr);
      if e.Some? { return Err(e.value); }
      LeBytes(value);
      memory[addr] := value % 256;
      memory[addr + 1] := value / 0x100 % 256;
      memory[addr + 2] := value / 0x1_0000 % 256;
      memory[addr + 3] := value / 0x100_0000 % 256;
      assert memory[..] == Splice(old(memory[..]), addr, ToLe(value, 4));
      InvalidateReservation(addr, 4);
      return Ok(Continue);
    }

    /** The value was stored, or the access was refused and nothing changed. */
    ghost predicate Wrote(before: VmState, addr: Word, width: Width, value: Word, r: Result<StepResult>)
      requires Valid()
      reads this, regs, memory, decodeCache
    {
      match CheckAccess(|before.arch.mem|, addr, width)
      case Some(error) => r == Err(error) && State() == before
      case None => r == Ok(Continue) && State() == before.(arch := StoreBytes(before.arch, addr, ToLe(value, width)))
    }

    /** Compare the written word's address with the reserved one. An aligned store of at
        most four bytes lies inside one word, so this is the overlap test. */
    method InvalidateReservation(addr: Word, ghost width: Width)
      requires Valid() && addr % width == 0
      modifies this`reservation
      ensures Valid()
      ensures State() == old(State()).(arch := old(Arch()).(res := ResAfterWrite(old(reservation), addr, width)))
    {
      if reservation.Some? {
        WordOfAccess(addr, width, reservation.value);
        if addr - addr % 4 == reservation.value {
          reservation := None;
        }
      }
    }

    method InvalidateReservationRange(start: nat, len: nat)
      requires Valid()
      modifies this`reservation
      ensures Valid()
      ensures State() == old(State()).(arch := old(Arch()).(res := ResAfterWrite(old(reservation), start, len)))
    {
      if reservation.Some? {
        var res := reservation.value;
        if len != 0 && start < res + 4 && res < start + len {
          reservation := None;
        }
      }
    }

    /** Copy bytes into memory; drops a reservation on any word it overwrites. */
    method LoadProgram(program: seq<Byte>, offset: Word) returns (r: Result<StepResult>)
      requires Valid()
      modifies this`reservation, memory
      ensures Valid()
      ensures r == if offset + |program| > memory.Length then Err(AddressOutOfBounds) else Ok(Continue)
      ensures State() == if r.Err? then old(State()) else old(State()).(arch := StoreBytes(old(Arch()), offset, program))
    {
      if |program| > memory.Length || offset > memory.Length - |program| {
        return Err(AddressOutOfBounds);
      }
      forall i | 0 <= i < |program| { memory[offset + i] := program[i]; }
      assert memory[..] == Splice(old(memory[..]), offset, program);
      InvalidateReservationRange(offset, |program|);
      return Ok(Continue);
    }

    method ClearReservation()
      requires Valid()
      modifies this`reservation
      ensures Valid()
      ensures State() == old(State()).(arch := old(Arch()).(res := None))
    {
      reservation := None;
    }

    /** Zero [start, start + len): a direct memory write, so it drops the reservation. */
    method ZeroFill(start: nat, len: nat)
      requires Valid() && start + len <= memory.Length
      modifies this`reservation, memory
      ensures Valid()
      ensures State() == old(State()).(arch := Zeroed(old(Arch()), start, len))
    {
      if len > 0 {
        forall i | start <= i < start + len { memory[i] := 0; }
        assert memory[..] == Splice(old(memory[..]), start, Zeros(len));
        ClearReservation();
      }
    }

    // ----- Executing one instruction -----

    /** The effect was performed, or it was refused and nothing changed. */
    ghost predicate Performed(before: VmState, e: Effect, r: Result<StepResult>)
      requires Valid() && e.WellFormed()
      reads this, regs, memory, decodeCache
    {
      match Refusal(before.arch, e)
      case Some(error) => r == Err(error) && State() == before
      case None =>
        && r == Ok(if e.Stop? then e.reason else Continue)
        && State() == before.(arch := Perform(before.arch, e))
    }

    method ExecuteLoad(op: OpI, rd: Reg, addr: Word) returns (r: Result<StepResult>)
      requires Valid() && op in {LB, LH, LW, LBU, LHU}
      modifies regs
      ensures Valid()
      ensures Performed(old(State()), LoadEffect(op, rd, addr), r)
    {
      var read;
      match op {
        case LB | LBU => read := ReadByte(addr);
        case LH | LHU => read := ReadHalfword(addr);
        case LW => read := ReadWord(addr);
      }
      if read.Err? { return Err(read.error); }
      var v := read.value;
      match op {
        case LB => v := SextByte(v);
        case LH => v := SextHalf(v);
        case LBU | LHU | LW =>
      }
      WriteReg(rd, v);
      return Ok(Continue);
    }

    method ExecuteStore(op: OpI, addr: Word, value: Word) returns (r: Result<StepResult>)
      requires Valid() && op in {SB, SH, SW}
      modifies this`reservation, memory
      ensures Valid()
      ensures Performed(old(State()), Store(addr, StoreWidth(op), value), r)
    {
      match op {
        case SB => r := WriteByte(addr, value);
        case SH => r := WriteHalfword(addr, value);
        case SW => r := WriteWord(addr, value);
      }
    }

    /** JAL and JALR: the link goes to rd after the target was computed. */
    method ExecuteJump(rd: Reg, link: Word, target: Word) returns (r: Result<StepResult>)
      requires Valid()
      modifies regs
      ensures Valid()
      ensures Performed(old(State()), Jump(rd, link, target), r)
    {
      WriteReg(rd, link);
      r := Ok(Continue);
    }

    method ExecuteCompute(rd: Reg, value: Word) returns (r: Result<StepResult>)
      requires Valid()
      modifies regs
      ensures Valid()
      ensures Performed(old(State()), Compute(rd, value), r)
    {
      WriteReg(rd, value);
      r := Ok(Continue);
    }

    /** RV32I. `next` starts as the fall-through address and ends as the target. */
    method ExecuteI(op: OpI, rd: Reg, imm: Int32, rs1: Word, rs2: Word, size: Word)
      returns (r: Result<StepResult>, next: Word, ghost e: Effect)
      requires Valid()
      modifies this`reservation, regs, memory
      ensures Valid()
      ensures e == EffectOfI(op, rd, imm, old(pc), Add32(old(pc), size), rs1, rs2)
      ensures Performed(old(State()), e, r)
      ensures r.Ok? ==> next == TargetOf(e, Add32(old(pc), size))
    {
      var u := Bits32(imm);
      next := Add32(pc, size);
      EffectGroups(op, rd, imm, pc, next, rs1, rs2);
      if IsComputeI(op) {
        e := Compute(rd, ComputeI(op, rs1, rs2, imm, pc));
        r := ExecuteCompute(rd, ComputeI(op, rs1, rs2, imm, pc));
      } else if op in {LB, LH, LW, LBU, LHU} {
        e := LoadEffect(op, rd, Add32(rs1, u));
        r := ExecuteLoad(op, rd, Add32(rs1, u));
      } else if op in {SB, SH, SW} {
        e := Store(Add32(rs1, u), StoreWidth(op), rs2);
        r := ExecuteStore(op, Add32(rs1, u), rs2);
      } else {
        e := ControlEffect(op, rd, imm, pc, next, rs1, rs2);
        r, next := ExecuteControl(op, rd, imm, rs1, rs2, next);
      }
    }

    /** The instructions that only decide where to go on, if at all. */
    method ExecuteControl(op: OpI, rd: Reg, imm: Int32, rs1: Word, rs2: Word, link: Word)
      returns (r: Result<StepResult>, next: Word)
      requires Valid() && !IsComputeI(op) && op !in {LB, LH, LW, LBU, LHU, SB, SH, SW}
      modifies regs
      ensures Valid()
      ensures var e := ControlEffect(op, rd, imm, old(pc), link, rs1, rs2);
              Performed(old(State()), e, r) && (r.Ok? ==> next == TargetOf(e, link))
    {
      var u := Bits32(imm);
      if op == JAL {
        next := Add32(pc, u);
        r := ExecuteJump(rd, link, next);
      } else if op == JALR {
        next := Add32(rs1, u) - Add32(rs1, u) % 2;
        r := ExecuteJump(rd, link, next);
      } else {
        r, next := ExecuteNoChange(op, rd, imm, rs1, rs2, link);
      }
    }

    /** Branches, fences and stops change no register. */
    method ExecuteNoChange(op: OpI, ghost rd: Reg, imm: Int32, rs1: Word, rs2: Word, link: Word)
      returns (r: Result<StepResult>, next: Word)
      requires Valid() && op in {BEQ, BNE, BLT, BGE, BLTU, BGEU, FENCE, FENCE_I, ECALL, EBREAK}
      ensures var e := ControlEffect(op, rd, imm, pc, link, rs1, rs2);
              Performed(State(), e, r) && next == TargetOf(e, link)
    {
      next := link;
      r := Ok(Continue);
      if op == ECALL {
        r := Ok(Ecall);
      } else if op == EBREAK {
        r := Ok(Ebreak);
      } else if op != FENCE && op != FENCE_I && BranchTaken(op, rs1, rs2) {
        next := Add32(pc, Bits32(imm));
      }
      NothingToDo(Arch(), ControlEffect(op, rd, imm, pc, link, rs1, rs2));
    }

    method ExecuteLoadReserved(rd: Reg, addr: Word) returns (r: Result<StepResult>)
      requires Valid()
      modifies this`reservation, regs
      ensures Valid()
      ensures Performed(old(State()), LoadReserved(rd, addr), r)
    {
      var read := ReadWord(addr);
      if read.Err? { return Err(read.error); }
      WriteReg(rd, read.value);
      reservation := Some(addr);
      return Ok(Continue);
    }

    /** The address is checked first, so a bad one faults whether or not SC.W would have
        succeeded, and keeps the reservation. */
    method ExecuteStoreConditional(rd: Reg, addr: Word, value: Word) returns (r: Result<StepResult>)
      requires Valid()
      modifies this`reservation, regs, memory
      ensures Valid()
      ensures Performed(old(State()), StoreConditional(rd, addr, value), r)
    {
      var e := CheckWordAccess(addr);
      if e.Some? { return Err(e.value); }
      if reservation == Some(addr) {
        r := WriteWord(addr, value);
        WriteReg(rd, 0);
      } else {
        WriteReg(rd, 1);
      }
      reservation := None;
      return Ok(Continue);
    }

    method ExecuteAmo(op: OpA, rd: Reg, addr: Word, rs2: Word) returns (r: Result<StepResult>)
      requires Valid() && op != LR_W && op != SC_W
      modifies this`reservation, regs, memory
      ensures Valid()
      ensures Performed(old(State()), Amo(rd, addr, op, rs2), r)
    {
      var read := ReadWord(addr);
      if read.Err? { return Err(read.error); }
      r := WriteWord(addr, ComputeAmo(op, read.value, rs2));
      WriteReg(rd, read.value);
    }

    /** LR.W, SC.W and the AMOs. */
    method ExecuteA(op: OpA, rd: Reg, addr: Word, rs2: Word) returns (r: Result<StepResult>)
      requires Valid()
      modifies this`reservation, regs, memory
      ensures Valid()
      ensures Performed(old(State()), AtomicEffect(op, rd, addr, rs2), r)
    {
      match op {
        case LR_W => r := ExecuteLoadReserved(rd, addr);
        case SC_W => r := ExecuteStoreConditional(rd, addr, rs2);
        case _ => r := ExecuteAmo(op, rd, addr, rs2);
      }
    }

    method ReadCsr(number: int) returns (v: Option<Word>)
      requires Valid()
      ensures v == if Readable(number) then Some(Machine.ReadCsr(Arch(), number)) else None
    {
      if number == 0xC00 || number == 0xC02 { return Some(cycleCount % 0x1_0000_0000); }
      if number == 0xC80 || number == 0xC82 { return Some(cycleCount / 0x1_0000_0000); }
      if number == MSCRATCH { return Some(mscratch); }
      return None;
    }

    /** CSR numbers with bits 11 and 10 set are read-only, and only mscratch is writable. */
    method WriteCsr(number: int, value: Word) returns (ok: bool)
      requires Valid()
      modifies this`mscratch
      ensures Valid()
      ensures ok == (number == MSCRATCH)
      ensures State() == if ok then old(State()).(arch := old(Arch()).(mscratch := value)) else old(State())
    {
      if number / 0x400 % 4 == 3 { return false; }
      if number != MSCRATCH { return false; }
      mscratch := value;
      return true;
    }

    /** CSRRW and CSRRWI. With rd = x0 the CSR is not read. */
    method SwapCsr(rd: Reg, number: int, operand: Word) returns (r: Result<StepResult>, out: Option<Word>)
      requires Valid()
      modifies this`mscratch
      ensures Valid()
      ensures r == if number == MSCRATCH then Ok(Continue) else Err(IllegalInstruction)
      ensures State() == if r.Ok? then old(State()).(arch := old(Arch()).(mscratch := operand)) else old(State())
      ensures r.Ok? ==> out == if rd != 0 then Some(old(mscratch)) else None
    {
      out := None;
      if rd != 0 {
        out := ReadCsr(number);
        if out.None? { return Err(IllegalInstruction), None; }
      }
      var ok := WriteCsr(number, operand);
      if !ok { return Err(IllegalInstruction), None; }
      r := Ok(Continue);
    }

    /** CSRRS, CSRRC and their immediate forms. Without an operand the CSR is not written. */
    method UpdateCsr(op: OpCsr, number: int, operand: Word, hasOperand: bool)
      returns (r: Result<StepResult>, out: Word)
      requires Valid() && !IsCsrSwap(op)
      modifies this`mscratch
      ensures Valid()
      ensures r == if Readable(number) && (hasOperand ==> number == MSCRATCH) then Ok(Continue) else Err(IllegalInstruction)
      ensures r.Ok? ==> out == Machine.ReadCsr(old(Arch()), number)
      ensures State() == if r.Ok? && hasOperand
                         then old(State()).(arch := old(Arch()).(mscratch := CsrWritten(op, old(mscratch), operand)))
                         else old(State())
    {
      var read := ReadCsr(number);
      if read.None? { return Err(IllegalInstruction), 0; }
      out := read.value;
      if hasOperand {
        var value := if op == CSRRS || op == CSRRSI then Or(out, operand) else And(out, Not(operand));
        var ok := WriteCsr(number, value);
        if !ok { return Err(IllegalInstruction), 0; }
      }
      r := Ok(Continue);
    }

    method ExecuteCsr(op: OpCsr, rd: Reg, number: int, operand: Word, hasOperand: bool)
      returns (r: Result<StepResult>)
      requires Valid()
      modifies this`mscratch, regs
      ensures Valid()
      ensures Performed(old(State()), CsrAccess(rd, op, number, operand, hasOperand), r)
    {
      if IsCsrSwap(op) {
        var out;
        r, out := SwapCsr(rd, number, operand);
        if r.Ok? {
          if out.Some? {
            WriteReg(rd, out.value);
          } else {
            assert regs[..][0 := old(mscratch)][0 := 0] == regs[..];
          }
        }
      } else {
        var out;
        r, out := UpdateCsr(op, number, operand, hasOperand);
        if r.Ok? {
          WriteReg(rd, out);
        }
      }
    }

    /** Decode through the cache slot of pc. */
    method DecodeCached(raw: Word) returns (inst: Option<Instruction>)
      requires Valid() && raw != EMPTY_RAW
      modifies decodeCache
      ensures Valid()
      ensures var l := Cache.DecodeCached(decode, old(decodeCache[..]), pc, raw);
              inst == l.inst && State() == old(State()).(cache := l.cache)
      ensures inst == decode(raw)
    {
      CachedDecodeIsDecode(decode, decodeCache[..], pc, raw);
      if decodeCache.Length == 0 { return decode(raw); }
      var slot := SlotOf(pc, decodeCache.Length);
      if decodeCache[slot].raw != raw {
        inst := decode(raw);
        if inst.None? { return; }
        decodeCache[slot] := inst.value;
        assert decodeCache[..] == old(decodeCache[..])[slot := inst.value];
      }
      return Some(decodeCache[slot]);
    }

    /** Execute a decoded instruction, up to but not including the pc and the count. */
    method Dispatch(inst: Instruction, size: Word) returns (r: Result<StepResult>, next: Word, ghost e: Effect)
      requires Valid()
      modifies this`reservation, this`mscratch, regs, memory
      ensures Valid()
      ensures e == EffectOf(inst, old(pc), Add32(old(pc), size), old(regs[..])[inst.rs1], old(regs[..])[inst.rs2])
      ensures Performed(old(State()), e, r)
      ensures r.Ok? ==> next == TargetOf(e, Add32(old(pc), size))
    {
      var rs1, rs2, rd := regs[inst.rs1], regs[inst.rs2], inst.rd;
      var u := Bits32(inst.imm);
      next := Add32(pc, size);
      e := EffectOf(inst, pc, next, rs1, rs2);
      match inst.op {
        case I(op) => r, next, e := ExecuteI(op, rd, inst.imm, rs1, rs2, size);
        case M(op) => r := ExecuteCompute(rd, ComputeM(op, rs1, rs2));
        case A(op) => r := ExecuteA(op, rd, rs1, rs2);
        case Csr(op) =>
          var operand := if op in {CSRRWI, CSRRSI, CSRRCI} then inst.rs1 else rs1;
          r := ExecuteCsr(op, rd, CsrNumber(inst.imm), operand, inst.rs1 != 0);
        case Zba(op) => r := ExecuteCompute(rd, ComputeZba(op, rs1, rs2));
        case Zbb(op) => r := ExecuteCompute(rd, ComputeZbb(op, rs1, if FormatOf(inst.op) == FormatR then rs2 else u));
        case Zbs(op) => r := ExecuteCompute(rd, ComputeZbs(op, rs1, if FormatOf(inst.op) == FormatR then rs2 else u));
      }
    }

    /** Fetch, decode and execute one instruction. The new state, cache included, is
        exactly that of the cached machine; the architectural state and the reply are
        those of the machine with no cache; and a fault changes nothing architectural. */
    method Step() returns (r: Result<StepResult>)
      requires Valid()
      modifies this, regs, memory, decodeCache
      ensures Valid()
      ensures VmStepped(State(), r) == StepCached(decode, old(State()))
      ensures Stepped(Arch(), r) == Machine.Step(decode, old(Arch()))
      ensures r.Err? ==> Arch() == old(Arch()) && stopPc == old(stopPc)
    {
      CachedStepIsStep(decode, State());
      var f := Fetch();
      if f.Err? { return Err(f.error); }
      FetchIsNeverEmpty(Arch());
      var raw := f.value;
      var d := DecodeCached(raw);
      if d.None? { return Err(IllegalInstruction); }
      regs[0] := 0;
      assert regs[..] == old(regs[..]);
      var next;
      ghost var e;
      r, next, e := Dispatch(d.value, SizeOf(raw));
      if r.Ok? {
        if r.value != Continue { stopPc := pc; }
        pc := next;
        cycleCount := NextCount(cycleCount);
      }
    }

    /** `Step`, seen by a host that ignores the cache. */
    method StepUncached(ghost step: StepFn) returns (r: Result<StepResult>)
      requires Valid() && Follows(decode, step)
      modifies this, regs, memory, decodeCache
      ensures Valid()
      ensures step(old(Arch())) == Stepped(Arch(), r)
      ensures r.Ok? ==> cycleCount == NextCount(old(cycleCount))
      ensures stopPc == if r.Ok? && r.value != Continue then old(pc) else old(stopPc)
    {
      ghost var a := Arch();
      CachedStepIsStep(decode, State());
      r := Step();
      assert SameStep(decode, step, a);
    }

    /** What happened, for the host: fetches and decodes again, without the cache. */
    method DescribeFault(error: StepError) returns (f: Fault)
      requires Valid()
      ensures f == Faults.DescribeFault(decode, Arch(), error)
    {
      var raw := Fetch();
      if raw.Err? { return Fault(error, pc, None, Some(pc)); }
      var d := decode(raw.value);
      if d.None? { return Fault(error, pc, Some(raw.value), None); }
      var inst := d.value;
      var rs1 := ReadReg(inst.rs1);
      var addr: Option<Word> := None;
      match inst.op {
        case I(op) => if op in {LB, LH, LW, LBU, LHU, SB, SH, SW} { addr := Some(Add32(rs1, Bits32(inst.imm))); }
        case A(_) => addr := Some(rs1);
        case _ =>
      }
      return Fault(error, pc, Some(raw.value), addr);
    }

    // ----- Running -----

    /** Run until ECALL, EBREAK, a fault, or `cycleCount >= limit`. With no limit a run that
        never stops does not return; `enough` is a number of steps in which it does. */
    method Run(limit: Option<DWord>, ghost enough: nat) returns (r: Result<StepResult>)
      requires Valid()
      requires limit.None? ==> RunSteps(Stepper(decode), Arch(), enough).result != Ok(Continue)
      modifies this, regs, memory, decodeCache
      ensures Valid()
      ensures Ends(RunSteps(Stepper(decode), old(Arch()), Budget(limit, old(cycleCount), enough)), r, old(stopPc))
    {
      StepperFollows(decode);
      r := RunLoop(limit, enough, Stepper(decode));
    }

    method RunLoop(limit: Option<DWord>, ghost enough: nat, ghost step: StepFn) returns (r: Result<StepResult>)
      requires Valid() && Follows(decode, step)
      requires limit.None? ==> RunSteps(step, Arch(), enough).result != Ok(Continue)
      modifies this, regs, memory, decodeCache
      ensures Valid()
      ensures Ends(RunSteps(step, old(Arch()), Budget(limit, old(cycleCount), enough)), r, old(stopPc))
    {
      r := Ok(Continue);
      ghost var left := Budget(limit, cycleCount, enough);
      ghost var ran := RunSteps(step, Arch(), left);
      while r == Ok(Continue)
        invariant Valid()
        invariant r == Ok(Continue) ==> SameEnd(RunSteps(step, Arch(), left), ran) && stopPc == old(stopPc)
        invariant r == Ok(Continue) && limit.Some? ==> left == Budget(limit, cycleCount, enough)
        invariant limit.None? ==> ran.result != Ok(Continue)
        invariant r != Ok(Continue) ==> Ends(ran, r, old(stopPc))
        decreases r == Ok(Continue), left
      {
        if limit.Some? && cycleCount >= limit.value { return; }
        ghost var a := Arch();
        r := StepUncached(step);
        if r.Err? { return; }
        if r == Ok(Continue) {
          RunGoesOn(step, a, Arch(), left);
        }
        left := left - 1;
      }
    }

    /** Run at most `steps` more instructions. */
    method RunFor(steps: DWord) returns (r: Result<StepResult>)
      requires Valid()
      modifies this, regs, memory, decodeCache
      ensures Valid()
      ensures Ends(RunVm(decode, old(Arch()), LimitAfter(old(cycleCount), steps)), r, old(stopPc))
    {
      StepperCounts(decode);
      RunIsBudget(Stepper(decode), Arch(), LimitAfter(cycleCount, steps), 0);
      r := Run(Some(LimitAfter(cycleCount, steps)), 0);
    }

    /** One step and its trace line. The bits are fetched before the step, which may
        overwrite them. */
    method TraceStep(ghost step: StepFn) returns (r: Result<StepResult>, line: TraceLine)
      requires Valid() && Follows(decode, step)
      modifies this, regs, memory, decodeCache
      ensures Valid()
      ensures step(old(Arch())) == Stepped(Arch(), r)
      ensures r.Ok? ==> cycleCount == NextCount(old(cycleCount))
      ensures stopPc == if r.Ok? && r.value != Continue then old(pc) else old(stopPc)
      ensures r.Ok? ==> line == LineAt(old(Arch()))
    {
      line := TraceLine(cycleCount, pc, 0);
      assert SameStep(decode, step, Arch());
      var raw := Fetch();
      if raw.Err? { return Err(raw.error), line; }
      line := line.(raw := raw.value);
      r := StepUncached(step);
    }

    /** The same run, one step at a time, collecting a line for each instruction that
        retires. */
    method TraceRun(limit: Option<DWord>, ghost enough: nat) returns (r: Result<StepResult>, lines: seq<TraceLine>)
      requires Valid()
      requires limit.None? ==> RunSteps(Stepper(decode), Arch(), enough).result != Ok(Continue)
      modifies this, regs, memory, decodeCache
      ensures Valid()
      ensures Ends(RunSteps(Stepper(decode), old(Arch()), Budget(limit, old(cycleCount), enough)), r, old(stopPc))
      ensures lines == TraceLines(Stepper(decode), old(Arch()), Budget(limit, old(cycleCount), enough))
    {
      StepperFollows(decode);
      r, lines := TraceLoop(limit, enough, Stepper(decode));
    }

    method TraceLoop(limit: Option<DWord>, ghost enough: nat, ghost step: StepFn)
      returns (r: Result<StepResult>, lines: seq<TraceLine>)
      requires Valid() && Follows(decode, step)
      requires limit.None? ==> RunSteps(step, Arch(), enough).result != Ok(Continue)
      modifies this, regs, memory, decodeCache
      ensures Valid()
      ensures Ends(RunSteps(step, old(Arch()), Budget(limit, old(cycleCount), enough)), r, old(stopPc))
      ensures lines == TraceLines(step, old(Arch()), Budget(limit, old(cycleCount), enough))
    {
      ghost var left := Budget(limit, cycleCount, enough);
      TracingIsTransparent(step, Arch(), left, []);
      ghost var goal := RunTraced(step, Arch(), left, []);
      lines := [];
      while true
        invariant Valid() && stopPc == old(stopPc)
        invariant RunTraced(step, Arch(), left, lines) == goal
        invariant limit.Some? ==> left == Budget(limit, cycleCount, enough)
        invariant limit.None? ==> goal.result != Ok(Continue)
        decreases left
      {
        if limit.Some? && cycleCount >= limit.value { return Ok(Continue), lines; }
        var line;
        ghost var a := Arch();
        r, line := TraceStep(step);
        if r.Err? { return; }
        if r.value == Continue {
          TraceGoesOn(step, a, Arch(), left, lines);
        }
        lines := lines + [line];
        if r.value != Continue { return; }
        left := left - 1;
      }
    }

    /** The run ended like `ran`; stop_pc names its ECALL or EBREAK, or is what it was. */
    ghost predicate Ends(ran: Ran, r: Result<StepResult>, wasStop: Word)
      requires Valid()
      reads this, regs, memory, decodeCache
    {
      Arch() == ran.arch && r == ran.result
      && stopPc == match ran.stopped case Some(at) => at case None => wasStop
    }

    // ----- A host driving the VM -----

    /** Any action of a history, through the method that performs it. */
    method Do(act: Action) returns (r: Result<StepResult>)
      requires Valid()
      modifies this, regs, memory, decodeCache
      ensures Valid()
      ensures VmStepped(State(), r) == DoCached(decode, old(State()), act)
    {
      r := Ok(Continue);
      match act {
        case StepOnce => r := Step();
        case LoadProgram(program, offset) => r := LoadProgram(program, offset);
        case WriteMemory(addr, width, value) =>
          if width == 1 {
            r := WriteByte(addr, value);
          } else if width == 2 {
            r := WriteHalfword(addr, value);
          } else {
            r := WriteWord(addr, value);
          }
        case ZeroFill(start, len) =>
          if start + len > memory.Length { return Err(AddressOutOfBounds); }
          ZeroFill(start, len);
        case DropReservation => ClearReservation();
        case WriteRegister(reg, value) => WriteReg(reg, value);
        case PowerOn => Reset();
      }
    }

    /** A whole history. The replies and the final state are those of the cached machine,
        and its architectural part those of the machine with no cache. */
    method Drive(acts: seq<Action>) returns (replies: seq<Result<StepResult>>)
      requires Valid()
      modifies this, regs, memory, decodeCache
      ensures Valid()
      ensures VmRun(State(), replies) == RunCached(decode, old(State()), acts)
      ensures Arch() == Trace(decode, old(Arch()), acts)[|acts|]
      decreases |acts|
    {
      CachedRunIsTrace(decode, State(), acts);
      if acts == [] { return []; }
      var r := Do(acts[0]);
      replies := Drive(acts[1..]);
      replies := [r] + replies;
    }
  }

  /** A new VM, or nothing where its memory would have an invalid size. */
  method Init(decode: DecodeFn, size: nat, entries: nat) returns (vm: Option<Vm>)
    requires StoresRaw(decode)
    ensures vm.Some? <==> size >= 4 && size % 4 == 0 && size < 0x1_0000_0000
    ensures vm.Some? ==>
              && fresh(vm.value) && fresh(vm.value.regs) && fresh(vm.value.memory) && fresh(vm.value.decodeCache)
              && vm.value.Valid() && vm.value.decode == decode
              && vm.value.State() == VmState(ResetState(size), EmptyCache(entries), 0)
  {
    if !ValidMemorySize(size) { return None; }
    var v := new Vm(decode, size, entries);
    return Some(v);
  }

  /** What the read methods return. */
  function ReadResult(a: Machine.Arch, addr: Word, width: Width): Result<Word> {
    match CheckAccess(|a.mem|, addr, width)
    case Some(error) => Err(error)
    case None => Ok(LoadLe(a.mem, addr, width))
  }

  /** An aligned access of at most four bytes lies inside one word. */
  lemma WordOfAccess(addr: Word, width: Width, word: Word)
    requires addr % width == 0 && word % 4 == 0
    ensures addr - addr % 4 == word <==> Overlaps(addr, width, word)
  {
    InsideWord(addr, width);
    var p, q := word / 4, addr / 4;
    assert word == 4 * p && addr - addr % 4 == 4 * q;
    assert p < q ==> word + 4 <= 4 * q;
    assert q < p ==> 4 * q + 4 <= word;
  }

  lemma InsideWord(addr: Word, width: Width)
    requires addr % width == 0
    ensures addr % 4 + width <= 4
  {
    if width == 2 {
      assert addr % 4 % 2 == 0;
    }
  }

  /** The effect of an RV32I instruction, by the groups the source switches on. */
  lemma EffectGroups(op: OpI, rd: Reg, imm: Int32, pc: Word, next: Word, rs1: Word, rs2: Word)
    ensures var e := EffectOfI(op, rd, imm, pc, next, rs1, rs2);
            var addr := Add32(rs1, Bits32(imm));
            if IsComputeI(op) then e == Compute(rd, ComputeI(op, rs1, rs2, imm, pc))
            else if op in {LB, LH, LW, LBU, LHU} then e == LoadEffect(op, rd, addr)
            else if op in {SB, SH, SW} then e == Store(addr, StoreWidth(op), rs2)
            else e == ControlEffect(op, rd, imm, pc, next, rs1, rs2)
  {
    if IsComputeI(op) {
      ComputeEffects(op, rd, imm, pc, next, rs1, rs2);
    } else if op in {LB, LH, LW, LBU, LHU, SB, SH, SW} {
      MemoryEffects(op, rd, imm, pc, next, rs1, rs2);
    } else {
      ControlEffects(op, rd, imm, pc, next, rs1, rs2);
    }
  }

  lemma ComputeEffects(op: OpI, rd: Reg, imm: Int32, pc: Word, next: Word, rs1: Word, rs2: Word)
    requires IsComputeI(op)
    ensures EffectOfI(op, rd, imm, pc, next, rs1, rs2) == Compute(rd, ComputeI(op, rs1, rs2, imm, pc))
  {
  }

  lemma MemoryEffects(op: OpI, rd: Reg, imm: Int32, pc: Word, next: Word, rs1: Word, rs2: Word)
    requires op in {LB, LH, LW, LBU, LHU, SB, SH, SW}
    ensures var e, addr := EffectOfI(op, rd, imm, pc, next, rs1, rs2), Add32(rs1, Bits32(imm));
            e == if op in {SB, SH, SW} then Store(addr, StoreWidth(op), rs2) else LoadEffect(op, rd, addr)
  {
  }

  lemma ControlEffects(op: OpI, rd: Reg, imm: Int32, pc: Word, next: Word, rs1: Word, rs2: Word)
    requires !IsComputeI(op) && op !in {LB, LH, LW, LBU, LHU, SB, SH, SW}
    ensures EffectOfI(op, rd, imm, pc, next, rs1, rs2) == ControlEffect(op, rd, imm, pc, next, rs1, rs2)
  {
  }

  lemma NothingToDo(a: Arch, e: Effect)
    requires e.WellFormed() && (e.Branch? || e.Fence? || e.Stop?)
    ensures Refusal(a, e) == None && Perform(a, e) == a
  {
  }

  /** Branches, jumps, fences and stops. */
  function ControlEffect(op: OpI, rd: Reg, imm: Int32, pc: Word, next: Word, rs1: Word, rs2: Word): (e: Effect)
    requires !IsComputeI(op) && op !in {LB, LH, LW, LBU, LHU, SB, SH, SW}
    ensures e.WellFormed()
  {
    var u := Bits32(imm);
    if op in {BEQ, BNE, BLT, BGE, BLTU, BGEU} then Branch(BranchTaken(op, rs1, rs2), Add32(pc, u))
    else if op == JAL then Jump(rd, next, Add32(pc, u))
    else if op == JALR then Jump(rd, next, Add32(rs1, u) - Add32(rs1, u) % 2)
    else if op == ECALL then Stop(Ecall)
    else if op == EBREAK then Stop(Ebreak)
    else Fence
  }

  function LoadEffect(op: OpI, rd: Reg, addr: Word): Effect
    requires op in {LB, LH, LW, LBU, LHU}
  {
    Load(rd, addr, if op == LW then 4 else if op in {LB, LBU} then 1 else 2, op in {LB, LH})
  }

  function StoreWidth(op: OpI): Width
    requires op in {SB, SH, SW}
  {
    if op == SB then 1 else if op == SH then 2 else 4
  }
}
