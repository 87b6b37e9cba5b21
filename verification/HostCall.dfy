/** The host-call ABI: read, write and exit, with Linux RISC-V numbers in a7. */
module HostCall {
  import opened Words
  import opened Isa
  import opened Machine
  import opened History
  import opened Cache
  import opened VirtualMachine

  const READ: Word := 63
  const WRITE: Word := 64
  const EXIT: Word := 93
  const EXIT_GROUP: Word := 94
  /** -9 and -14 as 32-bit patterns. */
  const EBADF: Word := 0xFFFF_FFF7
  const EFAULT: Word := 0xFFFF_FFF2

  const A0: Reg := 10
  const A1: Reg := 11
  const A2: Reg := 12
  const A7: Reg := 17

  /** The host side: the input fixed before the run, how much of it was read, and what
      was written. */
  datatype EnvState = Env(input: seq<Byte>, pos: nat, stdout: seq<Byte>, stderr: seq<Byte>)

  /** No more was read than there is. */
  type Env = e: EnvState | e.pos <= |e.input| witness Env([], 0, [], [])

  datatype Outcome = Resumed | Exit(status: Word) | Unknown(number: Word)

  /** The guest bytes [addr, addr + len), or None if they do not lie inside memory. */
  function GuestBytes(a: Arch, addr: Word, len: Word): Option<seq<Byte>> {
    if addr + len > |a.mem| then None else Some(a.mem[addr..addr + len])
  }

  /** A write that succeeds on the given descriptor. */
  predicate Writes(a: Arch, fd: Word) {
    a.regs[A7] == WRITE && a.regs[A0] == fd && GuestBytes(a, a.regs[A1], a.regs[A2]).Some?
  }

  /** A read that succeeds. */
  predicate Reads(a: Arch) {
    a.regs[A7] == READ && a.regs[A0] == 0 && GuestBytes(a, a.regs[A1], a.regs[A2]).Some?
  }

  function Min(x: nat, y: nat): nat { if x <= y then x else y }

  /** The bytes a call delivers to the guest. */
  function Delivered(a: Arch, env: Env): seq<Byte>
  {
    if Reads(a) then env.input[env.pos..env.pos + Min(a.regs[A2], |env.input| - env.pos)] else []
  }

  /** The bytes a call sends to a descriptor. */
  function Sent(a: Arch, fd: Word): seq<Byte> {
    if Writes(a, fd) then GuestBytes(a, a.regs[A1], a.regs[A2]).value else []
  }

  /** What the guest finds in a0, or None when the call leaves it alone. */
  function Result(a: Arch, env: Env): Option<Word>
  {
    var n := a.regs[A7];
    if n == WRITE then
      if a.regs[A0] != 1 && a.regs[A0] != 2 then Some(EBADF)
      else if GuestBytes(a, a.regs[A1], a.regs[A2]).None? then Some(EFAULT)
      else Some(a.regs[A2])
    else if n == READ then
      if a.regs[A0] != 0 then Some(EBADF)
      else if GuestBytes(a, a.regs[A1], a.regs[A2]).None? then Some(EFAULT)
      else Some(|Delivered(a, env)|)
    else None
  }

  function OutcomeOf(a: Arch): Outcome {
    var n := a.regs[A7];
    if n == EXIT || n == EXIT_GROUP then Exit(a.regs[A0])
    else if n == READ || n == WRITE then Resumed
    else Unknown(n)
  }

  function EnvAfter(a: Arch, env: Env): (e: Env)
    ensures e.input == env.input
  {
    env.(pos := env.pos + |Delivered(a, env)|, stdout := env.stdout + Sent(a, 1), stderr := env.stderr + Sent(a, 2))
  }

  /** The guest's state afterwards: the delivered bytes at a1, and the result in a0. */
  function ArchAfter(a: Arch, env: Env): (b: Arch)
  {
    var bytes := Delivered(a, env);
    var b := if Reads(a) then StoreBytes(a, a.regs[A1], bytes) else a;
    match Result(a, env) case None => b case Some(v) => SetReg(b, A0, v)
  }

  /** What a successful read prescribes. */
  lemma ReadPrescribed(a: Arch, env: Env, n: nat, bytes: seq<Byte>)
    requires Reads(a) && n == Min(a.regs[A2], |env.input| - env.pos) && bytes == env.input[env.pos..env.pos + n]
    ensures a.regs[A1] + n <= |a.mem| && EnvAfter(a, env) == env.(pos := env.pos + n)
    ensures ArchAfter(a, env) == SetReg(StoreBytes(a, a.regs[A1], bytes), A0, n)
  {
    assert env.stdout + [] == env.stdout && env.stderr + [] == env.stderr;
  }

  /** The host's own record of the call, updated in place. */
  class Host {
    const input: seq<Byte>
    var pos: nat
    var stdout: seq<Byte>
    var stderr: seq<Byte>

    constructor (input: seq<Byte>)
      ensures Valid() && View() == Env(input, 0, [], [])
    {
      this.input, pos, stdout, stderr := input, 0, [], [];
    }

    ghost predicate Valid()
      reads this
    {
      pos <= |input|
    }

    function View(): Env
      requires Valid()
      reads this
    {
      Env(input, pos, stdout, stderr)
    }

    /** The new states are those the call prescribes. */
    ghost predicate Handled(vm: Vm, before: VmState, env: Env)
      requires vm.Valid() && Valid()
      reads this, vm, vm.regs, vm.memory, vm.decodeCache
    {
      View() == EnvAfter(before.arch, env) && vm.State() == before.(arch := ArchAfter(before.arch, env))
    }

    method HandleWrite(vm: Vm, a0: Word, a1: Word, a2: Word)
      requires vm.Valid() && Valid() && vm.regs[A7] == WRITE
      requires vm.regs[A0] == a0 && vm.regs[A1] == a1 && vm.regs[A2] == a2
      modifies this, vm.regs
      ensures vm.Valid() && Valid() && Handled(vm, old(vm.State()), old(View()))
    {
      if a0 != 1 && a0 != 2 {
        vm.WriteReg(A0, EBADF);
      } else if a2 > vm.memory.Length || a1 > vm.memory.Length - a2 {
        vm.WriteReg(A0, EFAULT);
      } else {
        var bytes := vm.memory[a1..a1 + a2];
        if a0 == 1 {
          stdout := stdout + bytes;
        } else {
          stderr := stderr + bytes;
        }
        vm.WriteReg(A0, a2);
      }
    }

    /** A read that succeeds. */
    method Deliver(vm: Vm, a1: Word, a2: Word)
      requires vm.Valid() && Valid() && Reads(vm.Arch()) && vm.regs[A1] == a1 && vm.regs[A2] == a2
      modifies this, vm`reservation, vm.regs, vm.memory
      ensures vm.Valid() && Valid() && Handled(vm, old(vm.State()), old(View()))
    {
      var n := Min(a2, |input| - pos);
      ReadPrescribed(vm.Arch(), View(), n, input[pos..pos + n]);
      var loaded := vm.LoadProgram(input[pos..pos + n], a1);
      assert loaded.Ok?;
      pos := pos + n;
      vm.WriteReg(A0, n);
    }

    method HandleRead(vm: Vm, a0: Word, a1: Word, a2: Word)
      requires vm.Valid() && Valid() && vm.regs[A7] == READ
      requires vm.regs[A0] == a0 && vm.regs[A1] == a1 && vm.regs[A2] == a2
      modifies this, vm`reservation, vm.regs, vm.memory
      ensures vm.Valid() && Valid() && Handled(vm, old(vm.State()), old(View()))
    {
      if a0 != 0 {
        vm.WriteReg(A0, EBADF);
      } else if a2 > vm.memory.Length || a1 > vm.memory.Length - a2 {
        vm.WriteReg(A0, EFAULT);
      } else {
        Deliver(vm, a1, a2);
      }
    }

    /** Handle the ECALL that stopped the VM. */
    method Handle(vm: Vm) returns (r: Outcome)
      requires vm.Valid() && Valid()
      modifies this, vm`reservation, vm.regs, vm.memory
      ensures vm.Valid() && Valid()
      ensures r == OutcomeOf(old(vm.Arch()))
      ensures Handled(vm, old(vm.State()), old(View()))
    {
      var number := vm.ReadReg(A7);
      var a0 := vm.ReadReg(A0);
      var a1 := vm.ReadReg(A1);
      var a2 := vm.ReadReg(A2);
      if number == EXIT || number == EXIT_GROUP {
        return Exit(a0);
      } else if number == WRITE {
        HandleWrite(vm, a0, a1, a2);
        return Resumed;
      } else if number == READ {
        HandleRead(vm, a0, a1, a2);
        return Resumed;
      } else {
        return Unknown(number);
      }
    }
  }

  // ----- What a call changes -----

  /** A call that neither reads nor writes successfully changes at most a0; an exit or an
      unknown call changes nothing at all. */
  lemma OtherCallsChangeNothing(a: Arch, env: Env)
    requires !Reads(a) && !Writes(a, 1) && !Writes(a, 2)
    ensures EnvAfter(a, env) == env
    ensures OutcomeOf(a) != Resumed ==> ArchAfter(a, env) == a
    ensures OutcomeOf(a) == Resumed ==>
              ArchAfter(a, env) == SetReg(a, A0, EBADF) || ArchAfter(a, env) == SetReg(a, A0, EFAULT)
  {
    assert env.stdout + [] == env.stdout && env.stderr + [] == env.stderr;
  }

  /** A successful read puts exactly the next input bytes at a1, as many as asked for and
      left, says how many in a0, and writes nowhere else. */
  lemma ReadDelivers(a: Arch, env: Env)
    requires Reads(a)
    ensures var b, n, p := ArchAfter(a, env), |Delivered(a, env)|, a.regs[A1];
            && n == Min(a.regs[A2], |env.input| - env.pos)
            && p + n <= |a.mem| && |b.mem| == |a.mem|
            && b.mem[p..p + n] == env.input[env.pos..env.pos + n]
            && (forall i | 0 <= i < |a.mem| && !(p <= i < p + n) :: b.mem[i] == a.mem[i])
            && b.regs == a.regs[A0 := n]
            && EnvAfter(a, env) == env.(pos := env.pos + n)
  {
    assert env.stdout + [] == env.stdout && env.stderr + [] == env.stderr;
  }

  /** The call numbers: 63 is read, 64 write, 93 and 94 exit with the status in a0 (x10), and
      anything else is reported with its number in a7 (x17). */
  lemma OutcomesByNumber(a: Arch)
    ensures OutcomeOf(a)
            == if a.regs[17] == 63 || a.regs[17] == 64 then Resumed
               else if a.regs[17] == 93 || a.regs[17] == 94 then Exit(a.regs[10])
               else Unknown(a.regs[17])
  {
  }

  /** A write of a buffer inside memory to descriptor 1 or 2 appends exactly that buffer to
      the stream, leaves the number of its bytes in a0, and changes nothing else: not the
      other stream or the input, not memory, and no other register. */
  lemma WriteSends(a: Arch, env: Env)
    requires a.regs[17] == 64 && (a.regs[10] == 1 || a.regs[10] == 2) && a.regs[11] + a.regs[12] <= |a.mem|
    ensures var b, after, bytes := ArchAfter(a, env), EnvAfter(a, env), a.mem[a.regs[11]..a.regs[11] + a.regs[12]];
            && b == a.(regs := a.regs[10 := |bytes|])
            && after == (if a.regs[10] == 1 then env.(stdout := env.stdout + bytes) else env.(stderr := env.stderr + bytes))
  {
    assert env.stdout + [] == env.stdout && env.stderr + [] == env.stderr;
  }

  /** A write to another descriptor, or a read of another one than 0, leaves -9 in a0; a
      buffer that does not lie inside memory leaves -14. Nothing else changes. */
  lemma FailedCalls(a: Arch, env: Env)
    requires a.regs[17] == 63 || a.regs[17] == 64
    ensures var good := if a.regs[17] == 63 then a.regs[10] == 0 else a.regs[10] == 1 || a.regs[10] == 2;
            var inside := a.regs[11] + a.regs[12] <= |a.mem|;
            !good || !inside ==>
              ArchAfter(a, env) == a.(regs := a.regs[10 := (if good then -14 else -9) % 0x1_0000_0000]) && EnvAfter(a, env) == env
  {
    assert env.stdout + [] == env.stdout && env.stderr + [] == env.stderr;
  }

  /** A call is a short history of host writes. */
  lemma CallIsHistory(decode: DecodeFn, a: Arch, env: Env) returns (acts: seq<Action>)
    ensures ArchAfter(a, env) == Final(decode, a, acts)
    ensures forall act | act in acts :: act.LoadProgram? || act.WriteRegister?
  {
    var v := Result(a, env);
    if v.None? {
      acts := [];
    } else {
      var put := WriteRegister(A0, v.value);
      var b := if Reads(a) then StoreBytes(a, a.regs[A1], Delivered(a, env)) else a;
      FinalOfCons(decode, b, put, []);
      if Reads(a) {
        var load := LoadProgram(Delivered(a, env), a.regs[A1]);
        acts := [load] + ([put] + []);
        FinalOfCons(decode, a, load, [put] + []);
      } else {
        acts := [put] + [];
      }
    }
  }

  // ----- Whole sessions -----

  /** The environments a session passes through, given the guest's state at each call. What
      the guest does between calls is arbitrary. */
  function Envs(env: Env, calls: seq<Arch>): (es: seq<Env>)
    ensures |es| == |calls| + 1 && es[0] == env
    ensures forall i | 0 <= i < |calls| :: es[i + 1] == EnvAfter(calls[i], es[i])
  {
    if calls == [] then [env]
    else
      var n := |calls| - 1;
      var es := Envs(env, calls[..n]);
      es + [EnvAfter(calls[n], es[n])]
  }

  function Deliveries(env: Env, calls: seq<Arch>): seq<seq<Byte>> {
    seq(|calls|, i requires 0 <= i < |calls| => Delivered(calls[i], Envs(env, calls)[i]))
  }

  function Sendings(calls: seq<Arch>, fd: Word): seq<seq<Byte>> {
    seq(|calls|, i requires 0 <= i < |calls| => Sent(calls[i], fd))
  }

  lemma DeliveredSlice(a: Arch, env: Env)
    ensures env.pos <= EnvAfter(a, env).pos
    ensures Delivered(a, env) == env.input[env.pos..EnvAfter(a, env).pos]
  {
  }

  /** Adjacent slices join to the slice from the first to the last. */
  lemma {:induction false} JoinSlices(s: seq<Byte>, at: seq<nat>, pieces: seq<seq<Byte>>)
    requires |at| == |pieces| + 1
    requires forall i | 0 <= i < |at| :: at[i] <= |s|
    requires forall i | 0 <= i < |pieces| :: at[i] <= at[i + 1] && pieces[i] == s[at[i]..at[i + 1]]
    ensures at[0] <= at[|pieces|] && Joined(pieces) == s[at[0]..at[|pieces|]]
  {
    if pieces != [] {
      var n := |pieces| - 1;
      JoinSlices(s, at[..n + 1], pieces[..n]);
      assert at[n] <= at[n + 1] && pieces[n] == s[at[n]..at[n + 1]];
      assert s[at[0]..at[n + 1]] == s[at[0]..at[n]] + s[at[n]..at[n + 1]];
    }
  }

  /** Appending each piece in turn appends them joined. */
  lemma {:induction false} JoinAppends(streams: seq<seq<Byte>>, pieces: seq<seq<Byte>>)
    requires |streams| == |pieces| + 1
    requires forall i | 0 <= i < |pieces| :: streams[i + 1] == streams[i] + pieces[i]
    ensures streams[|pieces|] == streams[0] + Joined(pieces)
  {
    if pieces != [] {
      var n := |pieces| - 1;
      JoinAppends(streams[..n + 1], pieces[..n]);
      assert streams[n + 1] == streams[n] + pieces[n];
    }
  }

  lemma {:induction false} SameInput(env: Env, calls: seq<Arch>, k: nat)
    requires k <= |calls|
    ensures Envs(env, calls)[k].input == env.input
  {
    Throughout(Envs(env, calls), (e: Env) => e.input == env.input, k);
  }

  /** Over any session, the bytes delivered by successful reads are exactly the input from
      where it stood to where it stands now: none lost, repeated or reordered. */
  lemma InputIsDeliveredInOrder(env: Env, calls: seq<Arch>)
    ensures var end := Envs(env, calls)[|calls|].pos;
            env.pos <= end <= |env.input| && Joined(Deliveries(env, calls)) == env.input[env.pos..end]
  {
    var es := Envs(env, calls);
    var at := seq(|es|, i requires 0 <= i < |es| => es[i].pos);
    var pieces := Deliveries(env, calls);
    forall i | 0 <= i < |es|
      ensures at[i] <= |env.input|
    {
      SameInput(env, calls, i);
    }
    forall i | 0 <= i < |pieces|
      ensures at[i] <= at[i + 1] && pieces[i] == env.input[at[i]..at[i + 1]]
    {
      SameInput(env, calls, i);
      DeliveredSlice(calls[i], es[i]);
    }
    JoinSlices(env.input, at, pieces);
  }

  /** ... and each output stream holds exactly the guest buffers of the successful writes to
      it, in order. */
  lemma OutputIsWhatWasWritten(env: Env, calls: seq<Arch>)
    ensures Envs(env, calls)[|calls|].stdout == env.stdout + Joined(Sendings(calls, 1))
    ensures Envs(env, calls)[|calls|].stderr == env.stderr + Joined(Sendings(calls, 2))
  {
    var es := Envs(env, calls);
    JoinAppends(seq(|es|, i requires 0 <= i < |es| => es[i].stdout), Sendings(calls, 1));
    JoinAppends(seq(|es|, i requires 0 <= i < |es| => es[i].stderr), Sendings(calls, 2));
  }
}
