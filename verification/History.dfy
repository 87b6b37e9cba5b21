/** Histories: guest steps interleaved with everything a host may do to the VM through
    its methods, and the states they pass through. */
module History {
  import opened Words
  import opened Isa
  import opened Machine

  datatype Action =
    | StepOnce
    | LoadProgram(program: seq<Byte>, offset: Word)
    | WriteMemory(addr: Word, width: Width, value: Word)
    | ZeroFill(start: nat, len: nat)
    | DropReservation
    | WriteRegister(reg: Reg, value: Word)
    | PowerOn

  /** The power-on state with `size` bytes of memory. */
  function ResetState(size: nat): Arch
    requires ValidMemorySize(size)
  {
    Arch(0, seq(32, _ => 0), Zeros(size), 0, None, 0)
  }

  /** One action and its reply. A host action that does not fit memory changes nothing. */
  function Do(decode: DecodeFn, a: Arch, act: Action): (s: Stepped)
    ensures |s.arch.mem| == |a.mem|
  {
    match act
    case StepOnce => Step(decode, a)
    case LoadProgram(program, offset) =>
      if offset + |program| > |a.mem| then Stepped(a, Err(AddressOutOfBounds))
      else Stepped(StoreBytes(a, offset, program), Ok(Continue))
    case WriteMemory(addr, width, value) =>
      (match CheckAccess(|a.mem|, addr, width)
       case Some(error) => Stepped(a, Err(error))
       case None => Stepped(StoreBytes(a, addr, ToLe(value, width)), Ok(Continue)))
    case ZeroFill(start, len) =>
      if start + len > |a.mem| then Stepped(a, Err(AddressOutOfBounds))
      else Stepped(Zeroed(a, start, len), Ok(Continue))
    case DropReservation => Stepped(a.(res := None), Ok(Continue))
    case WriteRegister(reg, value) => Stepped(SetReg(a, reg, value), Ok(Continue))
    case PowerOn => Stepped(ResetState(|a.mem|), Ok(Continue))
  }

  /** The states that events lead through. */
  function Scan<S, E>(f: (S, E) -> S, s: S, events: seq<E>): (st: seq<S>)
    ensures |st| == |events| + 1 && st[0] == s
    ensures forall i | 0 <= i < |events| :: st[i + 1] == f(st[i], events[i])
  {
    if events == [] then [s]
    else
      var n := |events| - 1;
      var st := Scan(f, s, events[..n]);
      st + [f(st[n], events[n])]
  }

  lemma {:induction false} ScanOfPrefix<S, E>(f: (S, E) -> S, s: S, events: seq<E>, k: nat)
    requires k <= |events|
    ensures Scan(f, s, events[..k])[k] == Scan(f, s, events)[k]
  {
    if k == |events| {
      assert events[..k] == events;
    } else {
      var n := |events| - 1;
      ScanOfPrefix(f, s, events[..n], k);
      assert events[..n][..k] == events[..k];
    }
  }

  function DoFn(decode: DecodeFn): (Arch, Action) -> Arch {
    (a: Arch, act: Action) => Do(decode, a, act).arch
  }

  /** The states a history passes through, from the initial one to the final one. */
  function Trace(decode: DecodeFn, a: Arch, acts: seq<Action>): (st: seq<Arch>)
    ensures |st| == |acts| + 1 && st[0] == a
    ensures forall i | 0 <= i < |acts| :: st[i + 1] == Do(decode, st[i], acts[i]).arch
  {
    Scan(DoFn(decode), a, acts)
  }

  /** What holds at the start and is kept by every transition holds throughout. */
  lemma {:induction false} Throughout<S>(st: seq<S>, inv: S -> bool, k: nat)
    requires k < |st| && inv(st[0])
    requires forall i | 0 <= i < |st| - 1 && inv(st[i]) :: inv(st[i + 1])
    ensures inv(st[k])
  {
    if k != 0 {
      Throughout(st, inv, k - 1);
      assert inv(st[(k - 1) + 1]);
    }
  }

  /** The effect that a step at `a` retires with, or None if it faults. */
  function RetiredEffect(decode: DecodeFn, a: Arch): (e: Option<Effect>)
    ensures e.Some? ==> e.value.WellFormed() && Refusal(a, e.value) == None
    ensures e.Some? <==> Step(decode, a).result.Ok?
  {
    match Fetch(a)
    case Err(_) => None
    case Ok(raw) =>
      match decode(raw)
      case None => None
      case Some(inst) =>
        var e := EffectAt(a, inst, raw);
        if Refusal(a, e) == None then Some(e) else None
  }
}
