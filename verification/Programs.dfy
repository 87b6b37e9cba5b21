/** Whole generated programs: the prologue that gives every register a value, and the block
    behind it. What holds of the block alone holds behind the prologue, where BASE is set. */
module Programs {
  import opened Words
  import opened Isa
  import opened Alu
  import opened Assembly
  import opened Flow
  import opened Labels
  import opened Blocks
  import opened Reach

  /** x1 to x31 get the given values and mscratch that of a register; then BASE gets the
      address of the middle of the data region. */
  function Prologue(values: seq<Word>, source: Reg, base: Reg, addr: Word): (lines: seq<Line>)
    requires |values| == 31
    ensures |lines| == 34
  {
    Constants(values) + [Code({source}, {}), Set(base, 0), Set(base, addr)]
  }

  function Constants(values: seq<Word>): (lines: seq<Line>)
    requires |values| <= 31
    ensures |lines| == |values| && forall i :: 0 <= i < |lines| ==> lines[i] == Set(i + 1, values[i])
  {
    seq(|values|, i requires 0 <= i < |values| => Set(i + 1, values[i]))
  }

  // ----- Lines behind other lines -----

  lemma {:induction false} FindBehind(front: seq<Line>, lines: seq<Line>, l: nat)
    requires Plain(front)
    ensures Find(front + lines, l) == |front| + Find(lines, l)
  {
    if front == [] {
      assert front + lines == lines;
    } else {
      assert (front + lines)[1..] == front[1..] + lines;
      FindBehind(front[1..], lines, l);
    }
  }

  function Behind(s: State, d: nat): State {
    s.(at := s.at + d)
  }

  lemma SameRegs(s: State, d: nat, l: Line, w: World)
    ensures RegsAfter(Behind(s, d), l, w) == RegsAfter(s, l, w)
  {
    forall r: Reg ensures Written(Behind(s, d), WritesOf(l), w, r) == Written(s, WritesOf(l), w, r) {
    }
    assert Scramble(Behind(s, d), WritesOf(l), w) == Scramble(s, WritesOf(l), w);
  }

  lemma {:induction false} TargetBehind(front: seq<Line>, lines: seq<Line>, s: State, l: Line, w: World)
    requires Plain(front) && s.at < |lines|
    ensures Target(front + lines, Behind(s, |front|), l, w) == |front| + Target(lines, s, l, w)
    ensures Target(lines, s, l, w) <= |lines|
  {
    if Leaves(l) && LabelOf(l).Some? {
      FindBehind(front, lines, LabelOf(l).value);
    }
  }

  /** A line does behind others what it does alone. */
  lemma {:induction false} NextBehind(front: seq<Line>, lines: seq<Line>, s: State, w: World)
    requires Plain(front) && s.at < |lines|
    ensures Next(front + lines, Behind(s, |front|), w) == Behind(Next(lines, s, w), |front|)
    ensures Next(lines, s, w).at <= |lines|
  {
    var l := lines[s.at];
    assert (front + lines)[s.at + |front|] == l;
    SameRegs(s, |front|, l, w);
    TargetBehind(front, lines, s, l, w);
  }

  lemma {:induction false} RunBehind(next: NextFn, alone: NextFn, front: seq<Line>, lines: seq<Line>, s: State, w: World, n: nat)
    requires Plain(front) && Runs(next, front + lines, w) && Runs(alone, lines, w) && s.at <= |lines|
    ensures Run(next, Behind(s, |front|), n) == Behind(Run(alone, s, n), |front|)
    decreases n
  {
    if n > 0 {
      assert NextIs(next, front + lines, w, Behind(s, |front|)) && NextIs(alone, lines, w, s);
      if s.at < |lines| {
        NextBehind(front, lines, s, w);
      }
      RunBehind(next, alone, front, lines, alone(s), w, n - 1);
    }
  }

  // ----- The prologue -----

  /** Before the first line: any registers, nothing open. */
  ghost predicate Boots(s: State) {
    s.at == 0 && s.taint == {} && !s.pending
  }

  /** After `k` lines of the prologue, registers 1 to `k` hold their values. */
  ghost predicate Loaded(t: State, values: seq<Word>, k: nat)
    requires k <= |values| <= 31
  {
    t.at == k && t.taint == {} && !t.pending && forall r: Reg :: 1 <= r <= k ==> t.regs[r] == values[r - 1]
  }

  lemma {:induction false} LastStep(next: NextFn, s: State, n: nat)
    ensures Run(next, s, n + 1) == next(Run(next, s, n))
  {
    RunSplits(next, s, n, 1);
    assert Run(next, next(Run(next, s, n)), 0) == next(Run(next, s, n));
  }

  lemma {:induction false} ConstantsRun(next: NextFn, lines: seq<Line>, values: seq<Word>, s: State, w: World, k: nat)
    requires |values| == 31 && Runs(next, lines, w) && At(lines, 0, Constants(values)) && Boots(s) && k <= 31
    ensures Loaded(Run(next, s, k), values, k)
    decreases k
  {
    if k > 0 {
      ConstantsRun(next, lines, values, s, w, k - 1);
      LastStep(next, s, k - 1);
      var t := Run(next, s, k - 1);
      assert NextIs(next, lines, w, t);
      assert lines[0 + (k - 1)] == Set(k, values[k - 1]);
    }
  }

  /** What the registers hold behind the prologue. */
  ghost predicate Initialised(t: State, values: seq<Word>, base: Reg, addr: Word)
    requires |values| == 31
  {
    t.at == 34 && t.taint == {} && !t.pending
    && forall r: Reg :: r != 0 ==> t.regs[r] == if r == base then addr else values[r - 1]
  }

  lemma {:induction false} PrologueRuns(next: NextFn, lines: seq<Line>, values: seq<Word>, source: Reg, addr: Word, s: State, w: World)
    requires |values| == 31 && w.base != 0 && Runs(next, lines, w) && At(lines, 0, Prologue(values, source, w.base, addr)) && Boots(s)
    ensures forall m: nat :: m < 34 ==> InPrologue(Run(next, s, m), m)
    ensures Initialised(Run(next, s, |Constants(values)| + 3), values, w.base, addr)
  {
    var head, tail := Constants(values), [Code({source}, {}), Set(w.base, 0), Set(w.base, addr)];
    AtSplits(lines, 0, head, tail);
    forall m: nat | m <= 31 ensures Loaded(Run(next, s, m), values, m) {
      ConstantsRun(next, lines, values, s, w, m);
    }
    assert lines[31 + 0] == tail[0] && lines[31 + 1] == tail[1] && lines[31 + 2] == tail[2];
    TailOfPrologue(next, lines, values, source, addr, Run(next, s, 31), w);
    LastStep(next, s, 31);
    LastStep(next, s, 32);
    LastStep(next, s, 33);
  }

  ghost predicate InPrologue(t: State, m: nat) {
    t.at == m && t.taint == {} && !t.pending
  }

  lemma {:induction false} TailOfPrologue(next: NextFn, lines: seq<Line>, values: seq<Word>, source: Reg, addr: Word, t: State, w: World)
    requires |values| == 31 && w.base != 0 && Runs(next, lines, w) && Loaded(t, values, 31) && |lines| >= 34
    requires lines[31] == Code({source}, {}) && lines[32] == Set(w.base, 0) && lines[33] == Set(w.base, addr)
    ensures InPrologue(next(t), 32) && InPrologue(next(next(t)), 33)
    ensures Initialised(next(next(next(t))), values, w.base, addr)
  {
    assert NextIs(next, lines, w, t) && NextIs(next, lines, w, next(t)) && NextIs(next, lines, w, next(next(t)));
    LineFrame(lines, t, w);
    assert next(t).regs == t.regs;
  }

  // ----- Offsets behind other lines -----

  lemma {:induction false} PositionBehind(d: Count, front: seq<Line>, lines: seq<Line>, k: nat)
    requires Measures(d) && k <= |lines|
    ensures Position(d, front + lines, |front| + k) == d(front) + Position(d, lines, k)
  {
    assert (front + lines)[..|front| + k] == front + lines[..k];
    Sum(d, front, lines[..k]);
  }

  lemma {:induction false} FitsBehind(d: Count, front: seq<Line>, lines: seq<Line>, k: nat)
    requires Measures(d) && Plain(front) && k < |lines| && FitsAt(d, lines, k)
    ensures FitsAt(d, front + lines, |front| + k)
  {
    var l := lines[k];
    assert (front + lines)[|front| + k] == l;
    if Leaves(l) {
      var j := Find(lines, LabelOf(l).value);
      FindBehind(front, lines, LabelOf(l).value);
      PositionBehind(d, front, lines, k);
      PositionBehind(d, front, lines, j);
    }
  }

  lemma FitsInFront(d: Count, front: seq<Line>, lines: seq<Line>, k: nat)
    requires Plain(front) && k < |front|
    ensures FitsAt(d, front + lines, k)
  {
    assert (front + lines)[k] == front[k];
  }

  lemma PrologueIsPlain(values: seq<Word>, source: Reg, base: Reg, addr: Word)
    requires |values| == 31
    ensures Plain(Prologue(values, source, base, addr))
  {
  }

  /** In a whole program every jump and branch can be encoded. */
  lemma {:induction false} ProgramEncodable(front: seq<Line>, b: Block, lines: seq<Line>, k: nat)
    requires Plain(front) && lines == front + BlockLines(b, None) && k < |lines|
    requires FormedBlock(b, None) && Unique(BlockLines(b, None))
    ensures FitsAt(Bytes(), lines, k)
  {
    if k >= |front| {
      BytesMeasure();
      JumpsEncodable(b, k - |front|);
      FitsBehind(Bytes(), front, BlockLines(b, None), k - |front|);
    } else {
      FitsInFront(Bytes(), front, BlockLines(b, None), k);
    }
  }

  // ----- Whole programs -----

  /** The block alone, run from where BASE is set. */
  lemma {:induction false} BlockAlone(next: NextFn, lines: seq<Line>, b: Block, s: State, w: World, base: Word) returns (n: nat)
    requires FormedBlock(b, None) && lines == BlockLines(b, None) && Unique(lines)
    requires Lawful(lines, w.base) && Passes(lines)
    requires Runs(next, lines, w) && Starts(s, w, base) && Region(base)
    ensures n <= StepsFrom(b, 0) && Run(next, s, n).at == |lines| && Quiet(Run(next, s, n), w, base)
    ensures forall m: nat :: ObeysNext(lines, Run(next, s, m), base)
  {
    n := ProgramEnds(next, b, s, w);
    StartHolds(lines, s, w, base);
    RunKeeps(next, lines, s, w, base, n);
    assert lines[..|lines|] == lines;
    forall m: nat ensures ObeysNext(lines, Run(next, s, m), base) {
      LawfulRuns(next, lines, s, w, base, m);
    }
  }

  /** The run is at the end, or at a line that obeys the rules. */
  ghost predicate ObeysNext(lines: seq<Line>, t: State, base: Word) {
    t.at <= |lines| && (t.at < |lines| ==> Obeys(t, lines[t.at], base))
  }

  lemma ObeysBehind(front: seq<Line>, lines: seq<Line>, t: State, base: Word)
    requires ObeysNext(lines, t, base)
    ensures ObeysNext(front + lines, Behind(t, |front|), base)
  {
    if t.at < |lines| {
      assert (front + lines)[|front| + t.at] == lines[t.at];
    }
  }

  lemma PrologueObeys(front: seq<Line>, lines: seq<Line>, t: State, base: Word)
    requires Plain(front) && InPrologue(t, t.at) && t.at < |front| && !front[t.at].Access?
    ensures ObeysNext(front + lines, t, base)
  {
    assert (front + lines)[t.at] == front[t.at];
  }

  /** A program: a prologue and a formed block whose lines are lawful. */
  ghost predicate WellMade(lines: seq<Line>, values: seq<Word>, source: Reg, base: Reg, addr: Word, b: Block) {
    |values| == 31 && base != 0 && lines == Prologue(values, source, base, addr) + BlockLines(b, None)
    && FormedBlock(b, None) && Unique(BlockLines(b, None)) && Lawful(BlockLines(b, None), base) && Passes(BlockLines(b, None))
  }

  /** The rules that every generated program keeps, for any register contents at the start
      and any branch outcomes: the prologue gives every register its value and BASE the
      address of the data region; the run reaches the end of the lines within the number of
      steps of its block; until then each access is aligned and inside the data region,
      absolute counter values only enter differences, and nothing comes between an LR.W and
      its SC.W but computation and loads; and at the end no LR.W is left without its SC.W
      and BASE is unchanged. */
  lemma {:induction false} GeneratedPrograms(
      next: NextFn, lines: seq<Line>, values: seq<Word>, source: Reg, addr: Word, b: Block, s: State, w: World)
    returns (n: nat)
    requires WellMade(lines, values, source, w.base, addr, b) && Runs(next, lines, w) && Boots(s) && Region(addr)
    ensures n <= |Prologue(values, source, w.base, addr)| + StepsFrom(b, 0) && Run(next, s, n).at == |lines| && Quiet(Run(next, s, n), w, addr)
    ensures Initialised(Run(next, s, |Prologue(values, source, w.base, addr)|), values, w.base, addr)
    ensures forall m: nat :: ObeysNext(lines, Run(next, s, m), addr)
  {
    var front, body := Prologue(values, source, w.base, addr), BlockLines(b, None);
    StartOfProgram(next, lines, front, body, values, source, addr, s, w);
    var t := Run(next, s, |front|);
    var rest := BehindPrologue(next, front, body, b, t, w, addr);
    n := |front| + rest;
    RunSplits(next, s, |front|, rest);
    AllObey(next, front, body, s, addr);
  }

  lemma {:induction false} AllObey(next: NextFn, front: seq<Line>, body: seq<Line>, s: State, addr: Word)
    requires Plain(front) && forall i :: 0 <= i < |front| ==> !front[i].Access?
    requires forall m: nat :: m < |front| ==> InPrologue(Run(next, s, m), m)
    requires forall k: nat :: ObeysNext(front + body, Run(next, Run(next, s, |front|), k), addr)
    ensures forall m: nat :: ObeysNext(front + body, Run(next, s, m), addr)
  {
    forall m: nat ensures ObeysNext(front + body, Run(next, s, m), addr) {
      assert m < |front| ==> InPrologue(Run(next, s, m), m);
      WholeObeys(next, front, body, s, m, addr);
    }
  }

  lemma {:induction false} StartOfProgram(
      next: NextFn, lines: seq<Line>, front: seq<Line>, body: seq<Line>, values: seq<Word>, source: Reg, addr: Word, s: State, w: World)
    requires |values| == 31 && w.base != 0 && front == Prologue(values, source, w.base, addr) && lines == front + body
    requires Runs(next, lines, w) && Boots(s)
    ensures Plain(front) && forall i :: 0 <= i < |front| ==> !front[i].Access?
    ensures Initialised(Run(next, s, |front|), values, w.base, addr)
    ensures forall m: nat :: m < |front| ==> InPrologue(Run(next, s, m), m)
  {
    PrologueIsPlain(values, source, w.base, addr);
    assert At(lines, 0, front);
    PrologueRuns(next, lines, values, source, addr, s, w);
  }

  lemma {:induction false} WholeObeys(next: NextFn, front: seq<Line>, body: seq<Line>, s: State, m: nat, addr: Word)
    requires Plain(front) && forall i :: 0 <= i < |front| ==> !front[i].Access?
    requires m < |front| ==> InPrologue(Run(next, s, m), m)
    requires forall k: nat :: ObeysNext(front + body, Run(next, Run(next, s, |front|), k), addr)
    ensures ObeysNext(front + body, Run(next, s, m), addr)
  {
    if m < |front| {
      PrologueObeys(front, body, Run(next, s, m), addr);
    } else {
      RunSplits(next, s, |front|, m - |front|);
    }
  }

  lemma {:induction false} BehindPrologue(next: NextFn, front: seq<Line>, body: seq<Line>, b: Block, t: State, w: World, addr: Word)
    returns (n: nat)
    requires Plain(front) && body == BlockLines(b, None) && Runs(next, front + body, w)
    requires FormedBlock(b, None) && Unique(body) && Lawful(body, w.base) && Passes(body) && Region(addr)
    requires t.at == |front| && t.taint == {} && !t.pending && t.regs[w.base] == addr
    ensures n <= StepsFrom(b, 0) && Run(next, t, n).at == |front + body| && Quiet(Run(next, t, n), w, addr)
    ensures forall m: nat :: ObeysNext(front + body, Run(next, t, m), addr)
  {
    var s, alone := t.(at := 0), Runner(body, w);
    RunnerRuns(body, w);
    n := BlockAlone(alone, body, b, s, w, addr);
    assert Behind(s, |front|) == t;
    RunBehind(next, alone, front, body, s, w, n);
    forall m: nat ensures ObeysNext(front + body, Run(next, t, m), addr) {
      RunBehind(next, alone, front, body, s, w, m);
      assert ObeysNext(body, Run(alone, s, m), addr);
      ObeysBehind(front, body, Run(alone, s, m), addr);
    }
  }

  /** However the outcomes fall, the run ends within `most` lines and obeys the rules. */
  ghost predicate RunsWell(lines: seq<Line>, most: nat, s: State, w: World, addr: Word) {
    (exists n: nat :: n <= most && EndsQuietly(lines, Run(Runner(lines, w), s, n), w, addr))
    && forall m: nat :: ObeysNext(lines, Run(Runner(lines, w), s, m), addr)
  }

  ghost predicate EndsQuietly(lines: seq<Line>, t: State, w: World, addr: Word) {
    t.at == |lines| && Quiet(t, w, addr)
  }

  /** From any registers, under any outcomes. */
  ghost predicate AlwaysRunsWell(lines: seq<Line>, most: nat, base: Reg, addr: Word) {
    forall s, w: World :: Boots(s) && w.base == base ==> RunsWell(lines, most, s, w, addr)
  }

  /** Every jump and branch can be encoded. */
  ghost predicate AllEncodable(lines: seq<Line>) {
    forall k :: 0 <= k < |lines| ==> FitsAt(Bytes(), lines, k)
  }

  lemma {:induction false} WellMadeRunsWell(
      lines: seq<Line>, values: seq<Word>, source: Reg, addr: Word, b: Block, s: State, w: World)
    requires WellMade(lines, values, source, w.base, addr, b) && Boots(s) && Region(addr)
    ensures RunsWell(lines, 34 + StepsFrom(b, 0), s, w, addr)
  {
    RunnerRuns(lines, w);
    var n := GeneratedPrograms(Runner(lines, w), lines, values, source, addr, b, s, w);
    assert EndsQuietly(lines, Run(Runner(lines, w), s, n), w, addr);
  }
}
