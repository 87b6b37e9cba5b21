/** The decode cache: one slot per halfword of code, indexed by pc and validated by the
    fetched bits. It is not architectural state, and this module proves that it cannot be
    observed. */
module Cache {
  import opened Words
  import opened Isa
  import opened Machine
  import opened History

  /** A value that fetch cannot return marks an empty slot. */
  const EMPTY_RAW: Word := 0xFFFF_FFFC
  const EMPTY_SLOT: Instruction := Instruction(I(ECALL), raw := EMPTY_RAW)

  /** The VM's whole state: the architectural state, the cache, and where the last
      ECALL or EBREAK was. */
  datatype VmState = VmState(arch: Arch, cache: seq<Instruction>, stopPc: Word)

  /** The decoder stores the bits it decoded. */
  ghost predicate StoresRaw(decode: DecodeFn) {
    forall raw: Word :: decode(raw).Some? ==> decode(raw).value.raw == raw
  }

  /** Every slot is empty or holds exactly what its bits decode to. */
  ghost predicate Consistent(decode: DecodeFn, cache: seq<Instruction>) {
    forall i | 0 <= i < |cache| :: cache[i] == EMPTY_SLOT || decode(cache[i].raw) == Some(cache[i])
  }

  /** The slot of a pc; the number of slots is a power of two, so the source masks. */
  function SlotOf(pc: Word, entries: nat): (i: nat)
    requires entries != 0
    ensures i < entries
  {
    pc / 2 % entries
  }

  function EmptyCache(entries: nat): seq<Instruction> {
    seq(entries, _ => EMPTY_SLOT)
  }

  datatype Lookup = Lookup(cache: seq<Instruction>, inst: Option<Instruction>)

  /** Decode through the cache. A slot with other bits is refilled; a failed decode
      leaves it as it was. */
  function DecodeCached(decode: DecodeFn, cache: seq<Instruction>, pc: Word, raw: Word): Lookup {
    if cache == [] then Lookup(cache, decode(raw))
    else
      var i := SlotOf(pc, |cache|);
      if cache[i].raw == raw then Lookup(cache, Some(cache[i]))
      else
        match decode(raw)
        case None => Lookup(cache, None)
        case Some(inst) => Lookup(cache[i := inst], Some(inst))
  }

  datatype VmStepped = VmStepped(vm: VmState, result: Result<StepResult>)

  /** One step of a VM with a cache. */
  function StepCached(decode: DecodeFn, v: VmState): VmStepped {
    match Fetch(v.arch)
    case Err(error) => VmStepped(v, Err(error))
    case Ok(raw) =>
      var l := DecodeCached(decode, v.cache, v.arch.pc, raw);
      match l.inst
      case None => VmStepped(v.(cache := l.cache), Err(IllegalInstruction))
      case Some(inst) =>
        var s := Execute(v.arch, inst, raw);
        var stops := s.result.Ok? && s.result.value != Continue;
        VmStepped(VmState(s.arch, l.cache, if stops then v.arch.pc else v.stopPc), s.result)
  }

  /** Host actions do not touch the cache, so its slots go stale; a reset empties it. */
  function DoCached(decode: DecodeFn, v: VmState, act: Action): VmStepped {
    match act
    case StepOnce => StepCached(decode, v)
    case PowerOn => VmStepped(VmState(Do(decode, v.arch, act).arch, EmptyCache(|v.cache|), 0), Ok(Continue))
    case _ => var s := Do(decode, v.arch, act); VmStepped(v.(arch := s.arch), s.result)
  }

  datatype VmRun = VmRun(vm: VmState, replies: seq<Result<StepResult>>)

  function RunCached(decode: DecodeFn, v: VmState, acts: seq<Action>): VmRun
    decreases acts
  {
    if acts == [] then VmRun(v, [])
    else
      var s := DoCached(decode, v, acts[0]);
      var r := RunCached(decode, s.vm, acts[1..]);
      VmRun(r.vm, [s.result] + r.replies)
  }

  lemma SameLowBits(s: seq<Byte>)
    requires |s| == 4
    ensures FromLe(s) % 4 == FromLe(s[..2]) % 4
  {
    LeValues(s);
    LeValues(s[..2]);
  }

  /** fetch never returns the bits that mark an empty slot. */
  lemma FetchIsNeverEmpty(a: Arch)
    ensures Fetch(a) != Ok(EMPTY_RAW)
  {
    if a.pc % 2 == 0 && a.pc + 4 <= |a.mem| {
      SameLowBits(a.mem[a.pc..a.pc + 4]);
      assert a.mem[a.pc..a.pc + 4][..2] == a.mem[a.pc..a.pc + 2];
    }
  }

  /** A hit, a refill and a failed decode all give exactly what decoding would, and keep
      every slot consistent. */
  lemma CachedDecodeIsDecode(decode: DecodeFn, cache: seq<Instruction>, pc: Word, raw: Word)
    requires StoresRaw(decode) && Consistent(decode, cache) && raw != EMPTY_RAW
    ensures DecodeCached(decode, cache, pc, raw).inst == decode(raw)
    ensures Consistent(decode, DecodeCached(decode, cache, pc, raw).cache)
    ensures |DecodeCached(decode, cache, pc, raw).cache| == |cache|
  {
  }

  lemma CachedStepIsStep(decode: DecodeFn, v: VmState)
    requires StoresRaw(decode) && Consistent(decode, v.cache)
    ensures var s, t := StepCached(decode, v), Step(decode, v.arch);
            && s.result == t.result
            && s.vm.arch == t.arch
            && Consistent(decode, s.vm.cache)
            && |s.vm.cache| == |v.cache|
            && s.vm.stopPc == if t.result in {Ok(Ecall), Ok(Ebreak)} then v.arch.pc else v.stopPc
  {
    FetchIsNeverEmpty(v.arch);
    if Fetch(v.arch).Ok? {
      CachedDecodeIsDecode(decode, v.cache, v.arch.pc, Fetch(v.arch).value);
    }
  }

  lemma CachedActionIsAction(decode: DecodeFn, v: VmState, act: Action)
    requires StoresRaw(decode) && Consistent(decode, v.cache)
    ensures var s, t := DoCached(decode, v, act), Do(decode, v.arch, act);
            && s.result == t.result
            && s.vm.arch == t.arch
            && Consistent(decode, s.vm.cache)
            && s.vm.stopPc == (if act == PowerOn then 0
                               else if act == StepOnce && t.result in {Ok(Ecall), Ok(Ebreak)} then v.arch.pc
                               else v.stopPc)
  {
    if act == StepOnce {
      CachedStepIsStep(decode, v);
    }
  }

  /** The cache cannot be observed: two VMs with the same architectural state, whose caches
      may have different sizes (or none) and hold different consistent contents, give the
      same replies to every interleaving of steps, self-modifying stores and host writes,
      and have the same architectural state afterwards; stop_pc stays equal if it was. */
  lemma {:induction false} CacheIsInvisible(decode: DecodeFn, v: VmState, w: VmState, acts: seq<Action>)
    requires StoresRaw(decode) && Consistent(decode, v.cache) && Consistent(decode, w.cache)
    requires v.arch == w.arch
    ensures var r, s := RunCached(decode, v, acts), RunCached(decode, w, acts);
            && r.replies == s.replies
            && r.vm.arch == s.vm.arch
            && (v.stopPc == w.stopPc ==> r.vm.stopPc == s.vm.stopPc)
            && Consistent(decode, r.vm.cache)
            && Consistent(decode, s.vm.cache)
    decreases acts
  {
    if acts != [] {
      CachedActionIsAction(decode, v, acts[0]);
      CachedActionIsAction(decode, w, acts[0]);
      CacheIsInvisible(decode, DoCached(decode, v, acts[0]).vm, DoCached(decode, w, acts[0]).vm, acts[1..]);
    }
  }

  /** Whatever the cache, the VM passes through the states of the plain machine. */
  lemma {:induction false} CachedRunIsTrace(decode: DecodeFn, v: VmState, acts: seq<Action>)
    requires StoresRaw(decode) && Consistent(decode, v.cache)
    ensures RunCached(decode, v, acts).vm.arch == Trace(decode, v.arch, acts)[|acts|]
    decreases acts
  {
    if acts != [] {
      CachedActionIsAction(decode, v, acts[0]);
      CachedRunIsTrace(decode, DoCached(decode, v, acts[0]).vm, acts[1..]);
      TraceTail(decode, v.arch, acts, |acts|);
    }
  }

  lemma {:induction false} TraceTail(decode: DecodeFn, a: Arch, acts: seq<Action>, k: nat)
    requires 0 < k <= |acts|
    ensures Trace(decode, a, acts)[k] == Trace(decode, Do(decode, a, acts[0]).arch, acts[1..])[k - 1]
  {
    var st := Trace(decode, a, acts);
    var tl := Trace(decode, Do(decode, a, acts[0]).arch, acts[1..]);
    assert st[0 + 1] == Do(decode, st[0], acts[0]).arch;
    if k > 1 {
      TraceTail(decode, a, acts, k - 1);
      assert st[(k - 1) + 1] == Do(decode, st[k - 1], acts[k - 1]).arch;
      assert tl[(k - 2) + 1] == Do(decode, tl[k - 2], acts[1..][k - 2]).arch;
    }
  }

  /** The last state of a history. */
  function Final(decode: DecodeFn, a: Arch, acts: seq<Action>): Arch {
    Trace(decode, a, acts)[|acts|]
  }

  lemma {:induction false} FinalOfLast(decode: DecodeFn, a: Arch, acts: seq<Action>, before: seq<Action>)
    requires acts != [] && before == acts[..|acts| - 1]
    ensures Final(decode, a, acts) == Do(decode, Final(decode, a, before), acts[|acts| - 1]).arch
  {
  }

  /** A history followed by another is one history. */
  lemma {:induction false} FinalOfConcat(decode: DecodeFn, a: Arch, xs: seq<Action>, ys: seq<Action>, both: seq<Action>)
    requires both == xs + ys
    ensures Final(decode, a, both) == Final(decode, Final(decode, a, xs), ys)
    decreases |ys|
  {
    if ys == [] {
      assert both == xs;
    } else {
      var m := |ys| - 1;
      var before := xs + ys[..m];
      assert before == both[..|both| - 1];
      FinalOfLast(decode, a, both, before);
      FinalOfLast(decode, Final(decode, a, xs), ys, ys[..m]);
      FinalOfConcat(decode, a, xs, ys[..m], before);
    }
  }

  lemma FinalOfCons(decode: DecodeFn, a: Arch, act: Action, acts: seq<Action>)
    ensures Final(decode, a, [act] + acts) == Final(decode, Do(decode, a, act).arch, acts)
  {
    TraceTail(decode, a, [act] + acts, |acts| + 1);
  }
}
