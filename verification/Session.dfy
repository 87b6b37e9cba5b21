/** Whole sessions: guest steps, host actions, ELF loads and host calls in any order. What
    holds over every history holds over them, the LR/SC theorem included. */
module Session {
  import opened Words
  import opened Isa
  import opened Machine
  import opened History
  import opened Reservation
  import opened Cache
  import opened Loader
  import opened HostCall
  import opened Parity

  /** An action of a history, the load of an image, or the handling of a host call. */
  datatype Event = Act(act: Action) | LoadImage(image: seq<Byte>) | Call

  datatype SessionState = Session(arch: Arch, env: Env)

  function Step(decode: DecodeFn, s: SessionState, e: Event): SessionState {
    match e
    case Act(act) => s.(arch := Do(decode, s.arch, act).arch)
    case LoadImage(image) => s.(arch := LoadElfSpec(s.arch, image).0)
    case Call => Session(ArchAfter(s.arch, s.env), EnvAfter(s.arch, s.env))
  }

  function StepFn(decode: DecodeFn): (SessionState, Event) -> SessionState {
    (s: SessionState, e: Event) => Step(decode, s, e)
  }

  /** The states a session passes through. */
  function Course(decode: DecodeFn, s: SessionState, events: seq<Event>): (st: seq<SessionState>)
    ensures |st| == |events| + 1 && st[0] == s
  {
    Scan(StepFn(decode), s, events)
  }

  lemma {:induction false} CourseStep(decode: DecodeFn, s: SessionState, events: seq<Event>, i: nat)
    requires i < |events|
    ensures Course(decode, s, events)[i + 1] == Step(decode, Course(decode, s, events)[i], events[i])
  {
  }

  // ----- A session is a history -----

  lemma {:induction false} EventIsHistory(decode: DecodeFn, s: SessionState, e: Event) returns (acts: seq<Action>)
    ensures Step(decode, s, e).arch == Final(decode, s.arch, acts)
  {
    match e {
      case Act(act) =>
        acts := [act] + [];
        FinalOfCons(decode, s.arch, act, []);
      case LoadImage(image) =>
        acts := [];
        if LoadElfSpec(s.arch, image).1.Loaded? {
          acts := LoadActions(image, SegmentsOf(image));
          LoadIsHistory(decode, s.arch, image, SegmentsOf(image));
        }
      case Call =>
        acts := CallIsHistory(decode, s.arch, s.env);
    }
  }

  /** The machine goes through a session as through some history of its own actions, so
      invariants of histories, such as the parity of pc, hold across loads and calls. */
  lemma {:induction false} SessionIsHistory(decode: DecodeFn, s: SessionState, events: seq<Event>, k: nat)
    returns (acts: seq<Action>)
    requires k <= |events|
    ensures Course(decode, s, events)[k].arch == Final(decode, s.arch, acts)
  {
    var st := Course(decode, s, events);
    acts := [];
    for i := 0 to k
      invariant st[i].arch == Final(decode, s.arch, acts)
    {
      var more := EventIsHistory(decode, st[i], events[i]);
      FinalOfConcat(decode, s.arch, acts, more, acts + more);
      CourseStep(decode, s, events, i);
      acts := acts + more;
    }
  }

  lemma {:induction false} SessionPcEven(decode: DecodeFn, s: SessionState, events: seq<Event>, k: nat)
    requires EvenOffsets(decode) && s.arch.pc % 2 == 0 && k <= |events|
    ensures Course(decode, s, events)[k].arch.pc % 2 == 0
  {
    var acts := SessionIsHistory(decode, s, events, k);
    PcStaysEven(decode, s.arch, acts, |acts|);
  }

  // ----- Input and output over sessions -----

  lemma {:induction false} CourseOfPrefix(decode: DecodeFn, s: SessionState, events: seq<Event>, k: nat)
    requires k <= |events|
    ensures Course(decode, s, events[..k])[k] == Course(decode, s, events)[k]
  {
    ScanOfPrefix(StepFn(decode), s, events, k);
  }

  /** The guest's state at each host call of a session. */
  function CallsOf(decode: DecodeFn, s: SessionState, events: seq<Event>): seq<Arch> {
    if events == [] then []
    else
      var n := |events| - 1;
      CallsOf(decode, s, events[..n]) + if events[n] == Call then [Course(decode, s, events)[n].arch] else []
  }

  /** The environment at the end of a session is what its calls made of it. */
  lemma {:induction false} EnvOfCalls(decode: DecodeFn, s: SessionState, events: seq<Event>)
    ensures var calls := CallsOf(decode, s, events);
            Course(decode, s, events)[|events|].env == Envs(s.env, calls)[|calls|]
  {
    if events != [] {
      var n := |events| - 1;
      var calls, before := CallsOf(decode, s, events[..n]), Course(decode, s, events)[n];
      CourseStep(decode, s, events, n);
      CourseOfPrefix(decode, s, events, n);
      EnvOfCalls(decode, s, events[..n]);
      if events[n] == Call {
        EnvsAppend(s.env, calls, before.arch);
      } else {
        assert calls + [] == calls;
      }
    }
  }

  lemma EnvsAppend(env: Env, calls: seq<Arch>, a: Arch)
    ensures Envs(env, calls + [a])[|calls| + 1] == EnvAfter(a, Envs(env, calls)[|calls|])
  {
    assert (calls + [a])[..|calls|] == calls;
  }

  /** At every point of every session, the input from where it stood to where it stands is
      what the session's calls delivered so far, none of it lost, repeated or reordered, and
      each output stream is what they sent to it. */
  lemma {:induction false} SessionStreams(decode: DecodeFn, s: SessionState, events: seq<Event>, k: nat)
    requires k <= |events|
    ensures var env, calls := Course(decode, s, events)[k].env, CallsOf(decode, s, events[..k]);
            && env.input == s.env.input && s.env.pos <= env.pos
            && s.env.input[s.env.pos..env.pos] == Joined(Deliveries(s.env, calls))
            && env.stdout == s.env.stdout + Joined(Sendings(calls, 1))
            && env.stderr == s.env.stderr + Joined(Sendings(calls, 2))
  {
    var calls := CallsOf(decode, s, events[..k]);
    CourseOfPrefix(decode, s, events, k);
    EnvOfCalls(decode, s, events[..k]);
    SameInput(s.env, calls, |calls|);
    InputIsDeliveredInOrder(s.env, calls);
    OutputIsWhatWasWritten(s.env, calls);
  }

  // ----- LR/SC over sessions -----

  predicate Loads(a: Arch, image: seq<Byte>) {
    LoadElfSpec(a, image).1.Loaded?
  }

  /** A segment that writes file bytes into the word, or fills anything with zeros. */
  predicate SegmentDisturbs(s: Segment, word: Word) {
    Overlaps(s.vaddr, s.filesz, word) || s.memsz != s.filesz
  }

  /** An event that gives up a reservation of the word or writes into it. */
  predicate Upsets(decode: DecodeFn, s: SessionState, e: Event, word: Word) {
    match e
    case Act(act) => Disturbs(decode, s.arch, act, word)
    case LoadImage(image) => Loads(s.arch, image) && exists seg | seg in SegmentsOf(image) :: SegmentDisturbs(seg, word)
    case Call => Overlaps(s.arch.regs[A1], |Delivered(s.arch, s.env)|, word)
  }

  predicate Reserves(decode: DecodeFn, s: SessionState, e: Event, word: Word) {
    e.Act? && RetiresLoadReserved(decode, s.arch, e.act, word)
  }

  lemma SegmentStep(a: Arch, image: seq<Byte>, s: Segment, word: Word)
    requires s.FitsFile(image) && s.FitsMemory(|a.mem|)
    ensures LoadSegment(a, image, s).res == Some(word) <==> a.res == Some(word) && !SegmentDisturbs(s, word)
    ensures !SegmentDisturbs(s, word) && word + 4 <= |a.mem| ==>
              LoadSegment(a, image, s).mem[word..word + 4] == a.mem[word..word + 4]
  {
  }

  lemma {:induction false} SegmentsStep(a: Arch, image: seq<Byte>, segs: seq<Segment>, word: Word)
    requires forall s | s in segs :: s.FitsFile(image) && s.FitsMemory(|a.mem|)
    ensures LoadSegments(a, image, segs).res == Some(word)
            <==> a.res == Some(word) && forall s | s in segs :: !SegmentDisturbs(s, word)
    ensures (forall s | s in segs :: !SegmentDisturbs(s, word)) && word + 4 <= |a.mem| ==>
              LoadSegments(a, image, segs).mem[word..word + 4] == a.mem[word..word + 4]
    decreases segs
  {
    if segs != [] {
      assert segs == [segs[0]] + segs[1..];
      SegmentStep(a, image, segs[0], word);
      SegmentsStep(LoadSegment(a, image, segs[0]), image, segs[1..], word);
    }
  }

  /** One event: a word is reserved afterwards exactly when the event is an LR.W of it that
      retires, or it was reserved before and the event does not upset it. */
  lemma {:induction false} EventStep(decode: DecodeFn, s: SessionState, e: Event, word: Word)
    ensures Step(decode, s, e).arch.res == Some(word)
            <==> Reserves(decode, s, e, word) || (s.arch.res == Some(word) && !Upsets(decode, s, e, word))
  {
    match e {
      case Act(act) => ReservationStep(decode, s.arch, act, word);
      case LoadImage(image) =>
        if Loads(s.arch, image) {
          SegmentsStep(s.arch, image, SegmentsOf(image), word);
        }
      case Call =>
    }
  }

  /** An event that does not upset a word leaves its value alone. */
  lemma {:induction false} EventKeepsWord(decode: DecodeFn, s: SessionState, e: Event, word: Word)
    requires word + 4 <= |s.arch.mem| && !Upsets(decode, s, e, word)
    ensures Step(decode, s, e).arch.mem[word..word + 4] == s.arch.mem[word..word + 4]
  {
    match e {
      case Act(act) => OtherWordsKept(decode, s.arch, act, word);
      case LoadImage(image) =>
        if Loads(s.arch, image) {
          SegmentsStep(s.arch, image, SegmentsOf(image), word);
        }
      case Call =>
    }
  }

  function ReservesFn(decode: DecodeFn, word: Word): (SessionState, Event) -> bool {
    (s: SessionState, e: Event) => Reserves(decode, s, e, word)
  }

  function UpsetsFn(decode: DecodeFn, word: Word): (SessionState, Event) -> bool {
    (s: SessionState, e: Event) => Upsets(decode, s, e, word)
  }

  /** Event `j` is an LR.W of `word` that retires, and no event after it and before `k`
      upsets the word. */
  predicate KeptSince(decode: DecodeFn, s: SessionState, events: seq<Event>, word: Word, j: nat, k: nat)
    requires j < k <= |events|
  {
    SetAndKept(Course(decode, s, events), events, ReservesFn(decode, word), UpsetsFn(decode, word), j, k)
  }

  lemma {:induction false} SameMemorySize(decode: DecodeFn, s: SessionState, events: seq<Event>, k: nat)
    requires k <= |events|
    ensures |Course(decode, s, events)[k].arch.mem| == |s.arch.mem|
  {
    forall i | 0 <= i < |events|
      ensures |Course(decode, s, events)[i + 1].arch.mem| == |Course(decode, s, events)[i].arch.mem|
    {
      CourseStep(decode, s, events, i);
    }
    Throughout(Course(decode, s, events), (t: SessionState) => |t.arch.mem| == |s.arch.mem|, k);
  }

  lemma {:induction false} SessionReservation(decode: DecodeFn, s: SessionState, events: seq<Event>, k: nat, word: Word)
    requires s.arch.res == None && k <= |events|
    ensures Course(decode, s, events)[k].arch.res == Some(word)
            <==> exists j: nat | j < k :: KeptSince(decode, s, events, word, j, k)
  {
    var st := Course(decode, s, events);
    var on := (t: SessionState) => t.arch.res == Some(word);
    var sets, clears := ReservesFn(decode, word), UpsetsFn(decode, word);
    forall i | 0 <= i < |events|
      ensures on(st[i + 1]) <==> sets(st[i], events[i]) || (on(st[i]) && !clears(st[i], events[i]))
    {
      CourseStep(decode, s, events, i);
      EventStep(decode, st[i], events[i], word);
    }
    Latch(st, events, on, sets, clears, k);
    assert forall j: nat | j < k :: KeptSince(decode, s, events, word, j, k) <==> SetAndKept(st, events, sets, clears, j, k);
  }

  function SessionWord(word: Word): SessionState -> seq<Byte> {
    (s: SessionState) => if word + 4 <= |s.arch.mem| then s.arch.mem[word..word + 4] else []
  }

  lemma {:induction false} ReservingKeepsWord(decode: DecodeFn, s: SessionState, e: Event, word: Word)
    requires Reserves(decode, s, e, word)
    ensures word + 4 <= |s.arch.mem| == |Step(decode, s, e).arch.mem|
    ensures Step(decode, s, e).arch.mem[word..word + 4] == s.arch.mem[word..word + 4]
  {
    LoadReservedInside(decode, s.arch, e.act, word);
    OtherWordsKept(decode, s.arch, e.act, word);
    assert Step(decode, s, e).arch == Do(decode, s.arch, e.act).arch;
  }

  lemma ViewOfWord(s: SessionState, t: SessionState, word: Word)
    requires word + 4 <= |s.arch.mem| == |t.arch.mem| && t.arch.mem[word..word + 4] == s.arch.mem[word..word + 4]
    ensures SessionWord(word)(t) == SessionWord(word)(s)
  {
  }

  lemma {:induction false} WordStep(decode: DecodeFn, s: SessionState, e: Event, t: SessionState, word: Word)
    requires t == Step(decode, s, e) && word + 4 <= |s.arch.mem| == |t.arch.mem|
    requires !Upsets(decode, s, e, word) || Reserves(decode, s, e, word)
    ensures SessionWord(word)(t) == SessionWord(word)(s)
  {
    if Reserves(decode, s, e, word) {
      ReservingKeepsWord(decode, s, e, word);
    } else {
      EventKeepsWord(decode, s, e, word);
    }
    ViewOfWord(s, t, word);
  }

  lemma {:induction false} CourseKeepsWord(decode: DecodeFn, s: SessionState, events: seq<Event>, word: Word, i: nat)
    requires i < |events| && word + 4 <= |s.arch.mem|
    requires var t := Course(decode, s, events)[i]; !Upsets(decode, t, events[i], word) || Reserves(decode, t, events[i], word)
    ensures SessionWord(word)(Course(decode, s, events)[i + 1]) == SessionWord(word)(Course(decode, s, events)[i])
  {
    SameMemorySize(decode, s, events, i);
    SameMemorySize(decode, s, events, i + 1);
    CourseStep(decode, s, events, i);
    WordStep(decode, Course(decode, s, events)[i], events[i], Course(decode, s, events)[i + 1], word);
  }

  lemma ReservesInside(decode: DecodeFn, s: SessionState, e: Event, word: Word)
    requires Reserves(decode, s, e, word)
    ensures word % 4 == 0 && word + 4 <= |s.arch.mem|
  {
    LoadReservedInside(decode, s.arch, e.act, word);
  }

  /** While a reservation is held, its word keeps the bytes LR.W loaded. */
  lemma {:induction false} SessionWordUnchanged(
      decode: DecodeFn, s: SessionState, events: seq<Event>, word: Word, j: nat, k: nat)
    requires j < k <= |events| && KeptSince(decode, s, events, word, j, k)
    ensures word % 4 == 0 && word + 4 <= |s.arch.mem|
    ensures SessionWord(word)(Course(decode, s, events)[k]) == SessionWord(word)(Course(decode, s, events)[j])
  {
    var st := Course(decode, s, events);
    ReservesInside(decode, st[j], events[j], word);
    SameMemorySize(decode, s, events, j);
    CourseKeepsWord(decode, s, events, word, j);
    forall i | 0 <= i < |events| && !UpsetsFn(decode, word)(st[i], events[i])
      ensures SessionWord(word)(st[i + 1]) == SessionWord(word)(st[i])
    {
      CourseKeepsWord(decode, s, events, word, i);
    }
    KeptView(st, events, UpsetsFn(decode, word), SessionWord(word), j + 1, k);
  }

  /** The LR/SC theorem for sessions: an SC.W that retires at event `k` stores and returns 0
      exactly when its word was held since an LR.W, with ELF loads and host calls among the
      events that may upset it; the word then still holds the bytes LR.W loaded. Otherwise
      it stores nothing and returns 1, and either way no reservation is left. */
  lemma {:induction false} StoreConditionalSession(
      decode: DecodeFn, s: SessionState, events: seq<Event>, k: nat, rd: Reg, addr: Word, value: Word)
    requires s.arch.res == None && k < |events| && events[k] == Act(StepOnce)
    requires RetiredEffect(decode, Course(decode, s, events)[k].arch) == Some(StoreConditional(rd, addr, value))
    ensures addr % 4 == 0 && addr + 4 <= |Course(decode, s, events)[k].arch.mem|
    ensures var st := Course(decode, s, events);
            var held := exists j: nat | j < k :: KeptSince(decode, s, events, addr, j, k);
            && st[k + 1].arch.res == None
            && st[k + 1].arch.mem == (if held then Splice(st[k].arch.mem, addr, ToLe(value, 4)) else st[k].arch.mem)
            && (rd != 0 ==> st[k + 1].arch.regs[rd] == if held then 0 else 1)
    ensures forall j: nat | j < k && KeptSince(decode, s, events, addr, j, k) ::
              SessionWord(addr)(Course(decode, s, events)[k]) == SessionWord(addr)(Course(decode, s, events)[j])
  {
    var st := Course(decode, s, events);
    SessionReservation(decode, s, events, k, addr);
    StoreConditionalStep(decode, st[k].arch, rd, addr, value);
    CourseStep(decode, s, events, k);
    forall j: nat | j < k && KeptSince(decode, s, events, addr, j, k)
      ensures SessionWord(addr)(st[k]) == SessionWord(addr)(st[j])
    {
      SessionWordUnchanged(decode, s, events, addr, j, k);
    }
  }
}
