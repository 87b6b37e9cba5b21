/** run, runFor and the traced run: repeating steps up to an absolute cycle limit. */
module Running {
  import opened Words
  import opened Isa
  import opened Machine

  /** How a run ended: the state, the result, how many instructions retired, and where the
      ECALL or EBREAK was that stopped it, if one did. */
  datatype Ran = Ran(arch: Arch, result: Result<StepResult>, retired: nat, stopped: Option<Word>)

  /** Everything here holds of any step function that counts retired instructions and
      leaves the state alone when it fails. */
  type StepFn = Arch -> Stepped

  ghost predicate Counts(step: StepFn) {
    forall a: Arch ::
      && (step(a).result.Ok? ==> step(a).arch.cycles == NextCount(a.cycles))
      && (step(a).result.Err? ==> step(a).arch == a)
      && |step(a).arch.mem| == |a.mem|
  }

  /** The VM's step, with the decoder it was built with. */
  function Stepper(decode: DecodeFn): StepFn {
    (a: Arch) => Step(decode, a)
  }

  /** `step` is the VM's step. */
  ghost predicate SameStep(decode: DecodeFn, step: StepFn, a: Arch) {
    step(a) == Step(decode, a)
  }

  ghost predicate Follows(decode: DecodeFn, step: StepFn) {
    forall a: Arch :: SameStep(decode, step, a)
  }

  lemma StepperFollows(decode: DecodeFn)
    ensures Follows(decode, Stepper(decode))
  {
    forall a: Arch ensures SameStep(decode, Stepper(decode), a) {
    }
  }

  lemma StepperCounts(decode: DecodeFn)
    ensures Counts(Stepper(decode))
  {
    forall a: Arch
      ensures Step(decode, a).result.Ok? ==> Step(decode, a).arch.cycles == NextCount(a.cycles)
      ensures Step(decode, a).result.Err? ==> Step(decode, a).arch == a
      ensures |Step(decode, a).arch.mem| == |a.mem|
    {
    }
  }

  /** The end of a run whose last step, from `a`, stopped or failed. */
  function Ended(a: Arch, s: Stepped): Ran {
    if s.result.Ok? then Ran(s.arch, s.result, 1, Some(a.pc)) else Ran(s.arch, s.result, 0, None)
  }

  /** Run until ECALL, EBREAK, a fault, or `cycles >= limit`. */
  function Run(step: StepFn, a: Arch, limit: DWord): Ran
    requires Counts(step)
    decreases limit - a.cycles
  {
    if a.cycles >= limit then Ran(a, Ok(Continue), 0, None)
    else
      var s := step(a);
      if s.result == Ok(Continue) then
        var r := Run(step, s.arch, limit);
        r.(retired := r.retired + 1)
      else Ended(a, s)
  }

  /** At most `n` steps, counting steps instead of reading the cycle counter. This is
      also what a run with no limit does in its first `n` steps. */
  function RunSteps(step: StepFn, a: Arch, n: nat): Ran
    decreases n
  {
    if n == 0 then Ran(a, Ok(Continue), 0, None)
    else
      var s := step(a);
      if s.result == Ok(Continue) then
        var r := RunSteps(step, s.arch, n - 1);
        r.(retired := r.retired + 1)
      else Ended(a, s)
  }

  const MAX_CYCLES: DWord := 0xFFFF_FFFF_FFFF_FFFF

  /** The limit runFor uses: relative to now, saturating. */
  function LimitAfter(cycles: DWord, steps: DWord): DWord {
    if cycles + steps > MAX_CYCLES then MAX_CYCLES else cycles + steps
  }

  function RunFor(step: StepFn, a: Arch, steps: DWord): Ran
    requires Counts(step)
  {
    Run(step, a, LimitAfter(a.cycles, steps))
  }

  /** The VM's run, and its trace, with the decoder it was built with. */
  function RunVm(decode: DecodeFn, a: Arch, limit: DWord): Ran {
    StepperCounts(decode);
    Run(Stepper(decode), a, limit)
  }

  /** A limit is a number of steps: a limited run is exactly the first
      `limit - cycles` steps of an unlimited one, so the counter never wraps on the way. */
  lemma {:induction false} RunIsRunSteps(step: StepFn, a: Arch, limit: DWord)
    requires Counts(step) && a.cycles <= limit
    ensures Run(step, a, limit) == RunSteps(step, a, limit - a.cycles)
    decreases limit - a.cycles
  {
    if a.cycles < limit && step(a).result == Ok(Continue) {
      RunIsRunSteps(step, step(a).arch, limit);
    }
  }

  /** The cycle counter grows by exactly the retired instructions and does not wrap. A run
      that reports no stop and no fault executed up to the limit exactly. */
  lemma {:induction false} RunCounts(step: StepFn, a: Arch, limit: DWord)
    requires Counts(step)
    ensures var r := Run(step, a, limit);
            && r.arch.cycles == a.cycles + r.retired
            && (r.retired != 0 ==> r.arch.cycles <= limit)
            && (r.result == Ok(Continue) ==> r.arch.cycles == if a.cycles > limit then a.cycles else limit)
            && |r.arch.mem| == |a.mem|
    decreases limit - a.cycles
  {
    if a.cycles < limit && step(a).result == Ok(Continue) {
      RunCounts(step, step(a).arch, limit);
    }
  }

  /** Pausing at a lower limit and running on to a higher one is the same as running to
      the higher limit at once; a run that stopped earlier is not affected by the limit. */
  lemma {:induction false} RunSplits(step: StepFn, a: Arch, first: DWord, limit: DWord)
    requires Counts(step) && first <= limit
    ensures var r, s := Run(step, a, first), Run(step, a, limit);
            if r.result == Ok(Continue) then
              var t := Run(step, r.arch, limit);
              s == t.(retired := r.retired + t.retired)
            else s == r
    decreases limit - a.cycles
  {
    if a.cycles < first && step(a).result == Ok(Continue) {
      RunSplits(step, step(a).arch, first, limit);
    }
  }

  /** runFor takes exactly `steps` steps of an unlimited run, or those up to a count of
      2^64 - 1 where that is fewer: so it retires at most `steps` instructions, and exactly
      that many when it reports neither a stop nor a fault below saturation. */
  lemma RunForBudget(step: StepFn, a: Arch, steps: DWord)
    requires Counts(step)
    ensures var r := RunFor(step, a, steps);
            && r.retired <= steps
            && r.arch.cycles == a.cycles + r.retired
            && (r.result == Ok(Continue) && a.cycles + steps <= MAX_CYCLES ==> r.retired == steps)
    ensures var room := 0xFFFF_FFFF_FFFF_FFFF - a.cycles;
            RunFor(step, a, steps) == RunSteps(step, a, if steps <= room then steps else room)
  {
    RunCounts(step, a, LimitAfter(a.cycles, steps));
    RunIsRunSteps(step, a, LimitAfter(a.cycles, steps));
  }

  /** How many steps a run from `cycles` may take: up to its limit or, with no limit, any
      number that is `enough` for it to end. */
  function Budget(limit: Option<DWord>, cycles: DWord, enough: nat): nat {
    match limit
    case None => enough
    case Some(l) => if cycles < l then l - cycles else 0
  }

  /** A run with a limit is the run of that many steps ... */
  lemma RunIsBudget(step: StepFn, a: Arch, limit: DWord, enough: nat)
    requires Counts(step)
    ensures Run(step, a, limit) == RunSteps(step, a, Budget(Some(limit), a.cycles, enough))
  {
    if a.cycles <= limit {
      RunIsRunSteps(step, a, limit);
    }
  }

  /** ... and once a number of steps is enough for a run to end, more change nothing. */
  lemma {:induction false} EnoughIsEnough(step: StepFn, a: Arch, n: nat, m: nat)
    requires RunSteps(step, a, n).result != Ok(Continue) && n <= m
    ensures RunSteps(step, a, m) == RunSteps(step, a, n)
    decreases n
  {
    if step(a).result == Ok(Continue) {
      EnoughIsEnough(step, step(a).arch, n - 1, m - 1);
    }
  }

  /** Runs that end alike, however many instructions each retired. */
  ghost predicate SameEnd(x: Ran, y: Ran) {
    x.arch == y.arch && x.result == y.result && x.stopped == y.stopped
  }

  /** One step of a run that goes on. */
  lemma RunGoesOn(step: StepFn, a: Arch, b: Arch, n: nat)
    requires n > 0 && step(a) == Stepped(b, Ok(Continue))
    ensures SameEnd(RunSteps(step, a, n), RunSteps(step, b, n - 1))
  {
  }

  /** One line of the trace of a run: the count and pc before the step, and its bits. */
  datatype TraceLine = TraceLine(cycle: DWord, pc: Word, raw: Word)

  function FetchedBits(a: Arch): Word {
    match Fetch(a) case Ok(raw) => raw case Err(_) => 0
  }

  function LineAt(a: Arch): TraceLine {
    TraceLine(a.cycles, a.pc, FetchedBits(a))
  }

  /** The lines a traced run of at most `n` steps prints: one for each instruction that
      retires, in order. */
  function TraceLines(step: StepFn, a: Arch, n: nat): seq<TraceLine>
    decreases n
  {
    if n == 0 || step(a).result.Err? then []
    else [LineAt(a)] + if step(a).result == Ok(Continue) then TraceLines(step, step(a).arch, n - 1) else []
  }

  datatype Traced = Traced(arch: Arch, result: Result<StepResult>, stopped: Option<Word>, lines: seq<TraceLine>)

  /** A run that appends a line for each instruction it retires. */
  function RunTraced(step: StepFn, a: Arch, n: nat, lines: seq<TraceLine>): Traced
    decreases n
  {
    if n == 0 then Traced(a, Ok(Continue), None, lines)
    else
      var s := step(a);
      if s.result.Err? then Traced(s.arch, s.result, None, lines)
      else if s.result == Ok(Continue) then RunTraced(step, s.arch, n - 1, lines + [LineAt(a)])
      else Traced(s.arch, s.result, Some(a.pc), lines + [LineAt(a)])
  }

  lemma TraceGoesOn(step: StepFn, a: Arch, b: Arch, n: nat, lines: seq<TraceLine>)
    requires n > 0 && step(a) == Stepped(b, Ok(Continue))
    ensures RunTraced(step, a, n, lines) == RunTraced(step, b, n - 1, lines + [LineAt(a)])
  {
  }

  /** Tracing changes neither the result nor the state of a run. */
  lemma {:induction false} TracingIsTransparent(step: StepFn, a: Arch, n: nat, lines: seq<TraceLine>)
    ensures var r := RunSteps(step, a, n);
            RunTraced(step, a, n, lines) == Traced(r.arch, r.result, r.stopped, lines + TraceLines(step, a, n))
    decreases n
  {
    if n > 0 && step(a).result.Ok? {
      var rest := if step(a).result == Ok(Continue) then TraceLines(step, step(a).arch, n - 1) else [];
      assert lines + ([LineAt(a)] + rest) == (lines + [LineAt(a)]) + rest;
      if step(a).result == Ok(Continue) {
        TracingIsTransparent(step, step(a).arch, n - 1, lines + [LineAt(a)]);
      }
    }
  }

  /** Line `i` is numbered with the count before instruction `i` of the run. */
  ghost predicate Numbered(lines: seq<TraceLine>, first: nat) {
    forall i | 0 <= i < |lines| :: lines[i].cycle == first + i
  }

  lemma NumberedCons(line: TraceLine, lines: seq<TraceLine>)
    requires Numbered(lines, line.cycle + 1)
    ensures Numbered([line] + lines, line.cycle)
  {
  }

  /** The traced run prints one line for each instruction that retires, numbered by the
      cycle count as long as that does not wrap. */
  lemma {:induction false} OneLinePerInstruction(step: StepFn, a: Arch, n: nat)
    requires Counts(step)
    ensures |TraceLines(step, a, n)| == RunSteps(step, a, n).retired
    ensures a.cycles + n <= MAX_CYCLES ==> Numbered(TraceLines(step, a, n), a.cycles)
    decreases n
  {
    if n > 0 && step(a).result == Ok(Continue) {
      OneLinePerInstruction(step, step(a).arch, n - 1);
      if a.cycles + n <= MAX_CYCLES {
        NumberedCons(LineAt(a), TraceLines(step, step(a).arch, n - 1));
      }
    }
  }
}
