/** Faults: every error a step can return, what it means, and what describeFault says
    about it afterwards. */
module Faults {
  import opened Words
  import opened Isa
  import opened Machine

  datatype Fault = Fault(error: StepError, pc: Word, raw: Option<Word>, addr: Option<Word>)

  /** What describeFault reports: it fetches and decodes again, without the cache. */
  function DescribeFault(decode: DecodeFn, a: Arch, error: StepError): Fault {
    match Fetch(a)
    case Err(_) => Fault(error, a.pc, None, Some(a.pc))
    case Ok(raw) =>
      match decode(raw)
      case None => Fault(error, a.pc, Some(raw), None)
      case Some(inst) =>
        var rs1 := a.regs[inst.rs1];
        match inst.op
        case I(op) =>
          if op in {LB, LH, LW, LBU, LHU, SB, SH, SW}
          then Fault(error, a.pc, Some(raw), Some(Add32(rs1, Bits32(inst.imm))))
          else Fault(error, a.pc, Some(raw), None)
        case A(_) => Fault(error, a.pc, Some(raw), Some(rs1))
        case _ => Fault(error, a.pc, Some(raw), None)
  }

  /** The instruction at pc, if its bits lie in memory and decode. */
  function InstructionAt(decode: DecodeFn, a: Arch): Option<(Word, Instruction)> {
    match Fetch(a)
    case Err(_) => None
    case Ok(raw) => if decode(raw).Some? then Some((raw, decode(raw).value)) else None
  }

  /** The bytes of the instruction at pc do not all lie in memory: not its first
      halfword, or not its second when the first says there is one. */
  predicate InstructionOutside(a: Arch) {
    || a.pc + 2 > |a.mem|
    || (a.pc + 4 > |a.mem| && !IsCompressed(LoadLe(a.mem, a.pc, 2)))
  }

  /** The CSR instruction at pc touches a CSR it may not. */
  predicate CsrRefused(e: Effect) {
    && e.CsrAccess?
    && ((!Readable(e.number) && !(IsCsrSwap(e.csr) && e.rd == 0)) ||
        (e.number != MSCRATCH && (IsCsrSwap(e.csr) || e.hasOperand)))
  }

  /** The instruction at pc accesses `width` bytes at `addr`. */
  predicate Accesses(decode: DecodeFn, a: Arch, addr: Word, width: Width) {
    var i := InstructionAt(decode, a);
    i.Some? && AccessOf(EffectAt(a, i.value.1, i.value.0)) == Some((addr, width))
  }

  /** `error` is what is wrong with the instruction at pc, and `addr` the address to
      blame: the failing data address, pc for a fetch, none otherwise. */
  ghost predicate Cause(decode: DecodeFn, a: Arch, error: StepError, addr: Option<Word>) {
    match error
    case MisalignedPC => a.pc % 2 == 1 && addr == Some(a.pc)
    case PCOutOfBounds => a.pc % 2 == 0 && InstructionOutside(a) && addr == Some(a.pc)
    case IllegalInstruction =>
      && a.pc % 2 == 0 && !InstructionOutside(a) && addr == None
      && (var i := InstructionAt(decode, a);
          i.None? || CsrRefused(EffectAt(a, i.value.1, i.value.0)))
    case MisalignedAccess =>
      addr.Some? && exists w: Width :: Accesses(decode, a, addr.value, w) && addr.value % w != 0
    case AddressOutOfBounds =>
      addr.Some? && exists w: Width ::
        Accesses(decode, a, addr.value, w) && addr.value % w == 0 && addr.value + w > |a.mem|
  }

  /** What describeFault says about an instruction's address is the address of the data
      access it makes, and nothing when it makes none. */
  lemma DescribedAddress(a: Arch, inst: Instruction, raw: Word)
    ensures var e := EffectAt(a, inst, raw);
            var described :=
              (match inst.op
               case I(op) => if op in {LB, LH, LW, LBU, LHU, SB, SH, SW}
                             then Some(Add32(a.regs[inst.rs1], Bits32(inst.imm))) else None
               case A(_) => Some(a.regs[inst.rs1])
               case _ => None);
            described == if AccessOf(e).Some? then Some(AccessOf(e).value.0) else None
  {
  }

  lemma FetchErrors(a: Arch)
    ensures Fetch(a) == Err(MisalignedPC) <==> a.pc % 2 == 1
    ensures Fetch(a) == Err(PCOutOfBounds) <==> a.pc % 2 == 0 && InstructionOutside(a)
    ensures Fetch(a).Err? ==> Fetch(a).error in {MisalignedPC, PCOutOfBounds}
  {
  }

  lemma RefusalErrors(a: Arch, e: Effect)
    ensures Refusal(a, e) == Some(IllegalInstruction) <==> CsrRefused(e)
    ensures Refusal(a, e).Some? ==> Refusal(a, e).value in {IllegalInstruction, MisalignedAccess, AddressOutOfBounds}
    ensures CsrRefused(e) ==> AccessOf(e) == None
    ensures Refusal(a, e) == Some(MisalignedAccess) <==>
              AccessOf(e).Some? && AccessOf(e).value.0 % AccessOf(e).value.1 != 0
    ensures Refusal(a, e) == Some(AddressOutOfBounds) <==>
              && AccessOf(e).Some?
              && AccessOf(e).value.0 % AccessOf(e).value.1 == 0
              && AccessOf(e).value.0 + AccessOf(e).value.1 > |a.mem|
  {
  }

  /** A step fails with `error` exactly when that is what is wrong with the instruction
      at pc, it then changes nothing, and describeFault names exactly the address to
      blame, the faulting pc, and the instruction's bits unless fetching them failed. */
  lemma FaultsAreExplained(decode: DecodeFn, a: Arch, error: StepError, addr: Option<Word>)
    ensures (Step(decode, a).result == Err(error) && DescribeFault(decode, a, error).addr == addr) <==>
              Cause(decode, a, error, addr)
    ensures Step(decode, a).result.Err? ==> Step(decode, a).arch == a
    ensures DescribeFault(decode, a, error).error == error && DescribeFault(decode, a, error).pc == a.pc
    ensures DescribeFault(decode, a, error).raw == if Fetch(a).Ok? then Some(Fetch(a).value) else None
  {
    FetchErrors(a);
    var i := InstructionAt(decode, a);
    if i.Some? {
      var (raw, inst) := i.value;
      var e := EffectAt(a, inst, raw);
      DescribedAddress(a, inst, raw);
      RefusalErrors(a, e);
      assert Step(decode, a) == Execute(a, inst, raw);
      if AccessOf(e).Some? {
        var (ad, w) := AccessOf(e).value;
        assert Accesses(decode, a, ad, w);
      }
    }
  }

  /** Two causes never hold together: the error and its address are determined. */
  lemma CauseUnique(decode: DecodeFn, a: Arch, e1: StepError, a1: Option<Word>, e2: StepError, a2: Option<Word>)
    requires Cause(decode, a, e1, a1) && Cause(decode, a, e2, a2)
    ensures e1 == e2 && a1 == a2
  {
    FaultsAreExplained(decode, a, e1, a1);
    FaultsAreExplained(decode, a, e2, a2);
  }
}
