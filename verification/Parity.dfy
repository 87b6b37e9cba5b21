/** The guest cannot make pc odd. */
module Parity {
  import opened Words
  import opened Isa
  import opened Machine
  import opened History

  /** What parity needs of a decoder: branch and JAL offsets are even. */
  ghost predicate EvenOffsets(decode: DecodeFn) {
    forall raw: Word :: decode(raw).Some? && IsRelativeJump(decode(raw).value.op) ==> decode(raw).value.imm % 2 == 0
  }

  lemma EvenResidue(x: int)
    requires x % 2 == 0
    ensures Bits32(x) % 2 == 0
  {
    var k, h := x / 0x1_0000_0000, x / 2;
    assert x == 2 * h;
    assert Bits32(x) == 2 * (h - 0x8000_0000 * k);
  }

  lemma EvenTarget(a: Arch, inst: Instruction, raw: Word)
    requires a.pc % 2 == 0 && (IsRelativeJump(inst.op) ==> inst.imm % 2 == 0)
    ensures TargetOf(EffectAt(a, inst, raw), Add32(a.pc, SizeOf(raw))) % 2 == 0
  {
    EvenResidue(a.pc + SizeOf(raw));
    if IsRelativeJump(inst.op) {
      EvenResidue(inst.imm);
      EvenResidue(a.pc + Bits32(inst.imm));
      RelativeTarget(a, inst, raw);
    } else {
      OtherTarget(a, inst, raw);
    }
  }

  /** Branches and JAL go on behind the instruction or to pc plus the offset. */
  lemma RelativeTarget(a: Arch, inst: Instruction, raw: Word)
    requires IsRelativeJump(inst.op)
    ensures var t, next := TargetOf(EffectAt(a, inst, raw), Add32(a.pc, SizeOf(raw))), Add32(a.pc, SizeOf(raw));
            t == next || t == Add32(a.pc, Bits32(inst.imm))
  {
  }

  /** The others go on behind it or, for JALR, to an even address. */
  lemma OtherTarget(a: Arch, inst: Instruction, raw: Word)
    requires !IsRelativeJump(inst.op)
    ensures var t, next := TargetOf(EffectAt(a, inst, raw), Add32(a.pc, SizeOf(raw))), Add32(a.pc, SizeOf(raw));
            t == next || t % 2 == 0
  {
    EvenBelow(Add32(a.regs[inst.rs1], Bits32(inst.imm)));
  }

  lemma EvenBelow(x: Word)
    ensures (x - x % 2) % 2 == 0
  {
  }

  lemma StepKeepsEven(decode: DecodeFn, a: Arch)
    requires EvenOffsets(decode) && a.pc % 2 == 0
    ensures Step(decode, a).arch.pc % 2 == 0
    ensures Step(decode, a).result != Err(MisalignedPC)
  {
    if Fetch(a).Ok? && decode(Fetch(a).value).Some? {
      var raw := Fetch(a).value;
      EvenTarget(a, decode(raw).value, raw);
    }
  }

  lemma ActionKeepsEven(decode: DecodeFn, a: Arch, act: Action)
    requires EvenOffsets(decode) && a.pc % 2 == 0
    ensures Do(decode, a, act).arch.pc % 2 == 0
    ensures Do(decode, a, act).result != Err(MisalignedPC)
  {
    if act == StepOnce {
      StepKeepsEven(decode, a);
    }
  }

  /** From an even pc, whatever the guest executes and the host writes, pc stays even and
      no step ever returns MisalignedPC. */
  lemma {:induction false} PcStaysEven(decode: DecodeFn, a: Arch, acts: seq<Action>, k: nat)
    requires EvenOffsets(decode) && a.pc % 2 == 0 && k <= |acts|
    ensures Trace(decode, a, acts)[k].pc % 2 == 0
    ensures k < |acts| ==> Do(decode, Trace(decode, a, acts)[k], acts[k]).result != Err(MisalignedPC)
  {
    var st := Trace(decode, a, acts);
    var even := (s: Arch) => s.pc % 2 == 0;
    forall i | 0 <= i < |acts| && even(st[i])
      ensures even(st[i + 1])
    {
      ActionKeepsEven(decode, st[i], acts[i]);
    }
    Throughout(st, even, k);
    if k < |acts| {
      ActionKeepsEven(decode, st[k], acts[k]);
    }
  }
}
