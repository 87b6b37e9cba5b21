/** The LR/SC reservation over whole histories (section 8.2 of the RISC-V Unprivileged
    ISA, version 20191213). */
module Reservation {
  import opened Words
  import opened Isa
  import opened Machine
  import opened History

  /** A range of bytes: `len` of them from `start` on. */
  datatype Range = Range(start: nat, len: nat) {
    predicate Contains(i: nat) { start <= i < start + len }

    /** Whether the range holds a byte of the word at `word`. */
    predicate Meets(word: Word) { Overlaps(start, len, word) }
  }

  /** The bytes an effect that retires at `a` writes. */
  function StoreRange(a: Arch, e: Effect): Range {
    match e
    case Store(addr, width, _) => Range(addr, width)
    case Amo(_, addr, _, _) => Range(addr, 4)
    case StoreConditional(_, addr, _) => if a.res == Some(addr) then Range(addr, 4) else Range(0, 0)
    case _ => Range(0, 0)
  }

  /** The bytes an action writes. */
  function Written(decode: DecodeFn, a: Arch, act: Action): Range
  {
    match act
    case StepOnce =>
      var e := RetiredEffect(decode, a);
      if e.Some? then StoreRange(a, e.value) else Range(0, 0)
    case LoadProgram(program, offset) =>
      if offset + |program| <= |a.mem| then Range(offset, |program|) else Range(0, 0)
    case WriteMemory(addr, width, _) =>
      if CheckAccess(|a.mem|, addr, width) == None then Range(addr, width) else Range(0, 0)
    case ZeroFill(start, len) => if start + len <= |a.mem| then Range(start, len) else Range(0, 0)
    case PowerOn => Range(0, |a.mem|)
    case _ => Range(0, 0)
  }

  predicate RetiresLoadReserved(decode: DecodeFn, a: Arch, act: Action, word: Word)
  {
    act.StepOnce? &&
    var e := RetiredEffect(decode, a);
    e.Some? && e.value.LoadReserved? && e.value.addr == word
  }

  /** Actions that give up a reservation wherever it is: another LR.W or SC.W that
      retires, a non-empty zero fill, and the host's explicit clear and reset. */
  predicate Releases(decode: DecodeFn, a: Arch, act: Action)
  {
    match act
    case StepOnce =>
      var e := RetiredEffect(decode, a);
      e.Some? && (e.value.LoadReserved? || e.value.StoreConditional?)
    case ZeroFill(start, len) => start + len <= |a.mem| && len != 0
    case DropReservation => true
    case PowerOn => true
    case _ => false
  }

  /** `Written` is exact: every other byte keeps its value. */
  lemma OtherBytesKept(decode: DecodeFn, a: Arch, act: Action, i: nat)
    requires i < |a.mem| && !Written(decode, a, act).Contains(i)
    ensures Do(decode, a, act).arch.mem[i] == a.mem[i]
  {
    if act.StepOnce? {
      var e := RetiredEffect(decode, a);
      if e.Some? {
        assert Step(decode, a).arch.mem == Perform(a, e.value).mem;
      }
    }
  }

  /** Releases the reservation, or writes a byte of the word. */
  predicate Disturbs(decode: DecodeFn, a: Arch, act: Action, word: Word)
  {
    Releases(decode, a, act) || Written(decode, a, act).Meets(word)
  }

  lemma ReservationAfterEffect(a: Arch, e: Effect, word: Word)
    requires e.WellFormed() && Refusal(a, e) == None
    ensures Perform(a, e).res == Some(word) <==>
              || (e.LoadReserved? && e.addr == word)
              || (a.res == Some(word) && !e.LoadReserved? && !e.StoreConditional? && !StoreRange(a, e).Meets(word))
  {
  }

  /** One action: a word is reserved afterwards exactly when the action is an LR.W of it
      that retires, or it was reserved before and nothing released it or wrote into it. */
  lemma ReservationStep(decode: DecodeFn, a: Arch, act: Action, word: Word)
    ensures Do(decode, a, act).arch.res == Some(word) <==>
              || RetiresLoadReserved(decode, a, act, word)
              || (a.res == Some(word) && !Disturbs(decode, a, act, word))
  {
    if act.StepOnce? {
      var e := RetiredEffect(decode, a);
      if e.Some? {
        ReservationAfterEffect(a, e.value, word);
        assert Step(decode, a).arch.res == Perform(a, e.value).res;
      }
    }
  }

  // ----- A latch over a trace -----

  /** Event `j` sets a latch and no event after it and before `k` clears it. */
  predicate SetAndKept<S, E>(st: seq<S>, events: seq<E>, sets: (S, E) -> bool, clears: (S, E) -> bool, j: nat, k: nat)
    requires j < k <= |events| == |st| - 1
  {
    sets(st[j], events[j]) && forall m | j < m < k :: !clears(st[m], events[m])
  }

  /** A latch that events set and clear is on exactly when some event set it and none
      cleared it since. */
  lemma {:induction false} Latch<S, E>(
      st: seq<S>, events: seq<E>, on: S -> bool, sets: (S, E) -> bool, clears: (S, E) -> bool, k: nat)
    requires k <= |events| == |st| - 1 && !on(st[0])
    requires forall i | 0 <= i < |events| ::
               on(st[i + 1]) <==> sets(st[i], events[i]) || (on(st[i]) && !clears(st[i], events[i]))
    ensures on(st[k]) <==> exists j: nat | j < k :: SetAndKept(st, events, sets, clears, j, k)
  {
    if k != 0 {
      Latch(st, events, on, sets, clears, k - 1);
      assert on(st[(k - 1) + 1]) <==> sets(st[k - 1], events[k - 1]) || (on(st[k - 1]) && !clears(st[k - 1], events[k - 1]));
      if sets(st[k - 1], events[k - 1]) {
        assert SetAndKept(st, events, sets, clears, k - 1, k);
      } else if on(st[k]) {
        var j: nat :| j < k - 1 && SetAndKept(st, events, sets, clears, j, k - 1);
        assert SetAndKept(st, events, sets, clears, j, k);
      }
      forall j: nat | j < k && SetAndKept(st, events, sets, clears, j, k)
        ensures on(st[k])
      {
        assert j < k - 1 ==> SetAndKept(st, events, sets, clears, j, k - 1);
      }
    }
  }

  /** What every non-clearing event preserves is preserved while the latch is kept. */
  lemma {:induction false} KeptView<S, E, V>(
      st: seq<S>, events: seq<E>, clears: (S, E) -> bool, view: S -> V, j: nat, k: nat)
    requires j <= k <= |events| == |st| - 1
    requires forall i | 0 <= i < |events| && !clears(st[i], events[i]) :: view(st[i + 1]) == view(st[i])
    requires forall m | j <= m < k :: !clears(st[m], events[m])
    ensures view(st[k]) == view(st[j])
    decreases k
  {
    if j < k {
      KeptView(st, events, clears, view, j, k - 1);
      assert view(st[(k - 1) + 1]) == view(st[k - 1]);
    }
  }

  // ----- The reservation as a latch -----

  function Reserving(decode: DecodeFn, word: Word): (Arch, Action) -> bool {
    (a: Arch, act: Action) => RetiresLoadReserved(decode, a, act, word)
  }

  function Disturbing(decode: DecodeFn, word: Word): (Arch, Action) -> bool {
    (a: Arch, act: Action) => Disturbs(decode, a, act, word)
  }

  /** Action `j` is an LR.W of `word` that retires, and no action after it and before `k`
      releases the reservation or writes a byte of the word. */
  predicate HeldSince(decode: DecodeFn, a: Arch, acts: seq<Action>, word: Word, j: nat, k: nat)
    requires j < k <= |acts|
  {
    SetAndKept(Trace(decode, a, acts), acts, Reserving(decode, word), Disturbing(decode, word), j, k)
  }

  /** Over every history that starts with no reservation, a word is reserved exactly when
      some LR.W of it retired and nothing has disturbed it since. */
  lemma {:induction false} ReservationHistory(decode: DecodeFn, a: Arch, acts: seq<Action>, k: nat, word: Word)
    requires a.res == None && k <= |acts|
    ensures Trace(decode, a, acts)[k].res == Some(word) <==>
              exists j: nat | j < k :: HeldSince(decode, a, acts, word, j, k)
  {
    var st := Trace(decode, a, acts);
    var on := (s: Arch) => s.res == Some(word);
    var sets, clears := Reserving(decode, word), Disturbing(decode, word);
    forall i | 0 <= i < |acts|
      ensures on(st[i + 1]) <==> sets(st[i], acts[i]) || (on(st[i]) && !clears(st[i], acts[i]))
    {
      ReservationStep(decode, st[i], acts[i], word);
    }
    Latch(st, acts, on, sets, clears, k);
    assert forall j: nat | j < k :: HeldSince(decode, a, acts, word, j, k) <==> SetAndKept(st, acts, sets, clears, j, k);
  }

  /** An action that does not write into a word leaves its value alone. */
  lemma OtherWordsKept(decode: DecodeFn, a: Arch, act: Action, word: Word)
    requires word + 4 <= |a.mem| && !Written(decode, a, act).Meets(word)
    ensures Do(decode, a, act).arch.mem[word..word + 4] == a.mem[word..word + 4]
  {
    var b := Do(decode, a, act).arch;
    forall i: nat | word <= i < word + 4
      ensures b.mem[i] == a.mem[i]
    {
      OtherBytesKept(decode, a, act, i);
    }
  }

  /** An LR.W that retires reserves an aligned word inside memory and writes nothing. */
  lemma LoadReservedInside(decode: DecodeFn, a: Arch, act: Action, word: Word)
    requires RetiresLoadReserved(decode, a, act, word)
    ensures word % 4 == 0 && word + 4 <= |a.mem| && !Written(decode, a, act).Meets(word)
  {
  }

  lemma {:induction false} SameSize(decode: DecodeFn, a: Arch, acts: seq<Action>, k: nat)
    requires k <= |acts|
    ensures |Trace(decode, a, acts)[k].mem| == |a.mem|
  {
    var st := Trace(decode, a, acts);
    Throughout(st, (s: Arch) => |s.mem| == |a.mem|, k);
  }

  function WordBytes(word: Word): Arch -> seq<Byte> {
    (s: Arch) => if word + 4 <= |s.mem| then s.mem[word..word + 4] else []
  }

  /** While a reservation is held, its word keeps the bytes LR.W loaded. */
  lemma {:induction false} HeldWordUnchanged(
      decode: DecodeFn, a: Arch, acts: seq<Action>, word: Word, j: nat, k: nat)
    requires j < k <= |acts| && HeldSince(decode, a, acts, word, j, k)
    ensures word % 4 == 0 && word + 4 <= |a.mem|
    ensures WordBytes(word)(Trace(decode, a, acts)[k]) == WordBytes(word)(Trace(decode, a, acts)[j])
  {
    var st := Trace(decode, a, acts);
    LoadReservedInside(decode, st[j], acts[j], word);
    SameSize(decode, a, acts, j);
    forall i | 0 <= i < |acts| && !Written(decode, st[i], acts[i]).Meets(word)
      ensures WordBytes(word)(st[i + 1]) == WordBytes(word)(st[i])
    {
      SameSize(decode, a, acts, i);
      SameSize(decode, a, acts, i + 1);
      OtherWordsKept(decode, st[i], acts[i], word);
    }
    KeptView(st, acts, Disturbing(decode, word), WordBytes(word), j + 1, k);
  }

  /** The main theorem. Take any history from a state with no reservation whose action
      `k` is an SC.W that retires. It stores its operand and returns 0 if an LR.W of the
      same word retired before it and since then no LR.W or SC.W retired, no byte of the
      word was written and the host cleared nothing; the word then still holds the bytes
      that LR.W loaded. Otherwise it stores nothing and returns 1. Either way no word is
      reserved afterwards. */
  lemma {:induction false} StoreConditionalHistory(
      decode: DecodeFn, a: Arch, acts: seq<Action>, k: nat, rd: Reg, addr: Word, value: Word)
    requires a.res == None && k < |acts| && acts[k] == StepOnce
    requires RetiredEffect(decode, Trace(decode, a, acts)[k]) == Some(StoreConditional(rd, addr, value))
    ensures addr % 4 == 0 && addr + 4 <= |a.mem|
    ensures var st := Trace(decode, a, acts);
            var held := exists j: nat | j < k :: HeldSince(decode, a, acts, addr, j, k);
            && |st[k].mem| == |a.mem|
            && st[k + 1].res == None
            && st[k + 1].mem == (if held then Splice(st[k].mem, addr, ToLe(value, 4)) else st[k].mem)
            && (rd != 0 ==> st[k + 1].regs[rd] == if held then 0 else 1)
    ensures forall j: nat | j < k && HeldSince(decode, a, acts, addr, j, k) ::
              WordBytes(addr)(Trace(decode, a, acts)[k]) == WordBytes(addr)(Trace(decode, a, acts)[j])
  {
    SameSize(decode, a, acts, k);
    ReservationHistory(decode, a, acts, k, addr);
    StoreConditionalStep(decode, Trace(decode, a, acts)[k], rd, addr, value);
    forall j: nat | j < k && HeldSince(decode, a, acts, addr, j, k)
      ensures WordBytes(addr)(Trace(decode, a, acts)[k]) == WordBytes(addr)(Trace(decode, a, acts)[j])
    {
      HeldWordUnchanged(decode, a, acts, addr, j, k);
    }
  }

  lemma StoreConditionalStep(decode: DecodeFn, a: Arch, rd: Reg, addr: Word, value: Word)
    requires RetiredEffect(decode, a) == Some(StoreConditional(rd, addr, value))
    ensures addr % 4 == 0 && addr + 4 <= |a.mem|
    ensures var b := Do(decode, a, StepOnce).arch;
            && b.res == None
            && b.mem == (if a.res == Some(addr) then Splice(a.mem, addr, ToLe(value, 4)) else a.mem)
            && (rd != 0 ==> b.regs[rd] == if a.res == Some(addr) then 0 else 1)
  {
    var c := Perform(a, StoreConditional(rd, addr, value));
    assert Step(decode, a).arch == c.(pc := Step(decode, a).arch.pc, cycles := Step(decode, a).arch.cycles);
  }
}
