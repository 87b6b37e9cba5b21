/** Assembly text as the test generator writes it, one line at a time, and how it runs.
    Whatever the generator leaves to chance is arbitrary: the values that instructions
    compute and the outcomes of branches. */
module Assembly {
  import opened Words
  import opened Bits
  import opened Isa
  import opened Alu

  datatype Kind = LoadKind | StoreKind | LrKind | ScKind | AmoKind

  /** How a jump encodes where it goes: a branch, jal, or a register holding an address,
      each with a compressed variant. */
  datatype Form = BranchForm | ShortBranchForm | JumpForm | ShortJumpForm | RegisterForm | ShortRegisterForm

  /** The size of one or two instructions. */
  type Size = n: nat | n <= 8 && n % 2 == 0

  datatype Line =
    | Label(name: nat)
      /** Any computation, and the registers it reads and writes. */
    | Code(ins: set<Reg>, outs: set<Reg>, bytes: Size := 4)
      /** t := BASE + (r & mask), for a register r in `ins`. */
    | Address(t: Reg, ins: set<Reg>, mask: Word)
      /** t := t - 2048. */
    | Bias(t: Reg)
      /** A memory access of `width` bytes at t + imm. */
    | Access(kind: Kind, t: Reg, imm: int, width: Width, ins: set<Reg>, outs: set<Reg>, bytes: Size := 4)
      /** r := the absolute value of a cycle or instret counter. */
    | Counter(r: Reg)
      /** b := b - a. */
    | Delta(b: Reg, a: Reg)
      /** c := n, c := c - 1, and a jump back to a label while c is not zero. */
    | Set(c: Reg, n: Word)
    | Decrement(c: Reg)
    | Back(c: Reg, target: nat, form: Form)
      /** A branch or jump whose outcome is not known, perhaps to a label still open. */
    | Jump(ins: set<Reg>, outs: set<Reg>, form: Form, open: Option<nat>)

  function WritesOf(l: Line): set<Reg> {
    match l
    case Label(_) => {}
    case Code(_, w, _) => w
    case Address(t, _, _) => {t}
    case Bias(t) => {t}
    case Access(_, _, _, _, _, w, _) => w
    case Counter(r) => {r}
    case Delta(b, _) => {b}
    case Set(c, _) => {c}
    case Decrement(c) => {c}
    case Back(_, _, _) => {}
    case Jump(_, w, _, _) => w
  }

  function ReadsOf(l: Line): set<Reg> {
    match l
    case Label(_) => {}
    case Code(r, _, _) => r
    case Address(_, r, _) => r
    case Bias(t) => {t}
    case Access(_, t, _, _, r, _, _) => r + {t}
    case Counter(_) => {}
    case Delta(b, a) => {b, a}
    case Set(_, _) => {}
    case Decrement(c) => {c}
    case Back(c, _, _) => {c}
    case Jump(r, _, _, _) => r
  }

  /** Lines that may go elsewhere, and the label they go to. */
  predicate Leaves(l: Line) {
    l.Jump? || l.Back?
  }

  /** Lines with no label that run one after the other. */
  ghost predicate Plain(lines: seq<Line>) {
    forall i :: 0 <= i < |lines| ==> !lines[i].Label? && !Leaves(lines[i])
  }

  function LabelOf(l: Line): Option<nat> {
    match l
    case Jump(_, _, _, open) => open
    case Back(_, target, _) => Some(target)
    case _ => None
  }

  function AllWrites(lines: seq<Line>): set<Reg> {
    set i, r | 0 <= i < |lines| && r in WritesOf(lines[i]) :: r
  }

  function FormBytes(f: Form): Size {
    if f in {BranchForm, JumpForm, RegisterForm} then 4 else 2
  }

  /** The bytes that a line assembles to; an address is masked and then added, a constant
      is built from two halves. */
  function BytesOf(l: Line): Size {
    match l
    case Label(_) => 0
    case Code(_, _, bytes) => bytes
    case Address(_, _, _) => 8
    case Bias(_) => 4
    case Access(_, _, _, _, _, _, bytes) => bytes
    case Counter(_) => 4
    case Delta(_, _) => 4
    case Set(_, _) => 8
    case Decrement(_) => 4
    case Back(_, _, form) => FormBytes(form)
    case Jump(_, _, form, _) => FormBytes(form)
  }

  function ByteLen(lines: seq<Line>): nat {
    if lines == [] then 0 else BytesOf(lines[0]) + ByteLen(lines[1..])
  }

  lemma {:induction false} ByteLenAppend(a: seq<Line>, b: seq<Line>)
    ensures ByteLen(a + b) == ByteLen(a) + ByteLen(b)
  {
    if a == [] {
      assert a + b == b;
    } else {
      assert (a + b)[1..] == a[1..] + b;
      ByteLenAppend(a[1..], b);
    }
  }

  /** How often a label is defined. */
  function Defs(lines: seq<Line>, l: nat): nat {
    if lines == [] then 0 else (if lines[0] == Label(l) then 1 else 0) + Defs(lines[1..], l)
  }

  /** The first definition of a label, or the end. */
  function Find(lines: seq<Line>, l: nat): (k: nat)
    ensures k <= |lines| && (k < |lines| ==> lines[k] == Label(l))
  {
    if lines == [] || lines[0] == Label(l) then 0 else 1 + Find(lines[1..], l)
  }

  lemma {:induction false} DefsAppend(a: seq<Line>, b: seq<Line>, l: nat)
    ensures Defs(a + b, l) == Defs(a, l) + Defs(b, l)
  {
    if a == [] {
      assert a + b == b;
    } else {
      assert (a + b)[1..] == a[1..] + b;
      DefsAppend(a[1..], b, l);
    }
  }

  lemma {:induction false} DefinedSomewhere(lines: seq<Line>, l: nat)
    ensures Find(lines, l) < |lines| <==> Defs(lines, l) > 0
  {
    if lines != [] && lines[0] != Label(l) {
      DefinedSomewhere(lines[1..], l);
    }
  }

  /** A label that is defined once is found where it stands. */
  lemma {:induction false} FoundWhereDefined(lines: seq<Line>, l: nat, k: nat)
    requires k < |lines| && lines[k] == Label(l) && Defs(lines, l) <= 1
    ensures Find(lines, l) == k
  {
    if k == 0 {
    } else if lines[0] == Label(l) {
      DefinedSomewhere(lines[1..], l);
      FoundNoLater(lines[1..], l, k - 1);
      assert false;
    } else {
      FoundWhereDefined(lines[1..], l, k - 1);
    }
  }

  lemma {:induction false} FoundNoLater(lines: seq<Line>, l: nat, k: nat)
    requires k < |lines| && lines[k] == Label(l)
    ensures Find(lines, l) <= k
  {
    if k > 0 && lines[0] != Label(l) {
      FoundNoLater(lines[1..], l, k - 1);
    }
  }

  /** `part` stands in `lines` from line `lo` on. */
  ghost predicate At(lines: seq<Line>, lo: nat, part: seq<Line>) {
    lo + |part| <= |lines| && forall i :: 0 <= i < |part| ==> lines[lo + i] == part[i]
  }

  lemma AtSplits(lines: seq<Line>, lo: nat, a: seq<Line>, b: seq<Line>)
    ensures At(lines, lo, a + b) <==> At(lines, lo, a) && At(lines, lo + |a|, b)
  {
    if At(lines, lo, a) && At(lines, lo + |a|, b) {
      forall i | 0 <= i < |a + b| ensures lines[lo + i] == (a + b)[i] {
        if i >= |a| {
          assert lines[lo + |a| + (i - |a|)] == b[i - |a|];
        }
      }
    } else if At(lines, lo, a + b) {
      forall i | 0 <= i < |b| ensures lines[lo + |a| + i] == b[i] {
        assert lines[lo + (|a| + i)] == (a + b)[|a| + i];
      }
      forall i | 0 <= i < |a| ensures lines[lo + i] == a[i] {
        assert lines[lo + i] == (a + b)[i];
      }
    }
  }

  // ----- Running -----

  type Regs = s: seq<Word> | |s| == 32 witness seq(32, i => 0)

  /** The register that holds BASE, every value computed, and every branch outcome. */
  datatype World = World(base: Reg, value: (nat, Reg) -> Word, taken: nat -> bool)

  /** The next line, the registers, which registers hold absolute counter values, whether
      an LR.W waits for its SC.W, and how many lines ran. */
  datatype State = State(at: nat, regs: Regs, taint: set<Reg>, pending: bool, clock: nat)

  function Written(s: State, outs: set<Reg>, w: World, r: Reg): Word {
    if r in outs then w.value(s.clock, r) else s.regs[r]
  }

  function Scramble(s: State, outs: set<Reg>, w: World): (t: Regs)
    ensures forall r: Reg :: t[r] == Written(s, outs, w, r)
  {
    seq(32, r requires 0 <= r < 32 => Written(s, outs, w, r))
  }

  function RegsAfter(s: State, l: Line, w: World): Regs {
    match l
    case Address(t, _, mask) => s.regs[t := Add32(s.regs[w.base], And(w.value(s.clock, t), mask))]
    case Bias(t) => s.regs[t := Add32(s.regs[t], -2048)]
    case Set(c, n) => s.regs[c := n]
    case Decrement(c) => s.regs[c := Add32(s.regs[c], -1)]
    case _ => Scramble(s, WritesOf(l), w)
  }

  /** Where the line goes next. */
  function Target(lines: seq<Line>, s: State, l: Line, w: World): nat {
    match l
    case Jump(_, _, _, Some(target)) => if w.taken(s.clock) then Find(lines, target) else s.at + 1
    case Back(c, target, _) => if s.regs[c] != 0 then Find(lines, target) else s.at + 1
    case _ => s.at + 1
  }

  function TaintAfter(taint: set<Reg>, l: Line): set<Reg> {
    match l
    case Counter(r) => taint + {r}
    case Delta(b, _) => taint - {b}
    case _ => if ReadsOf(l) !! taint then taint - WritesOf(l) else taint + WritesOf(l)
  }

  function PendingAfter(pending: bool, l: Line): bool {
    if l.Access? && l.kind == LrKind then true
    else if l.Access? && l.kind == ScKind then false
    else pending
  }

  function Next(lines: seq<Line>, s: State, w: World): State
    requires s.at < |lines|
  {
    var l := lines[s.at];
    State(Target(lines, s, l, w), RegsAfter(s, l, w), TaintAfter(s.taint, l), PendingAfter(s.pending, l), s.clock + 1)
  }

  /** What a run repeats: the next line, or nothing at the end. */
  type NextFn = State -> State

  function Runner(lines: seq<Line>, w: World): NextFn {
    (s: State) => if s.at < |lines| then Next(lines, s, w) else s
  }

  /** `next` runs these lines. */
  ghost predicate NextIs(next: NextFn, lines: seq<Line>, w: World, s: State) {
    next(s) == if s.at < |lines| then Next(lines, s, w) else s
  }

  ghost predicate Runs(next: NextFn, lines: seq<Line>, w: World) {
    forall s :: NextIs(next, lines, w, s)
  }

  lemma RunnerRuns(lines: seq<Line>, w: World)
    ensures Runs(Runner(lines, w), lines, w)
  {
    forall s ensures NextIs(Runner(lines, w), lines, w, s) {
    }
  }

  function Run(next: NextFn, s: State, n: nat): State
    decreases n
  {
    if n == 0 then s else Run(next, next(s), n - 1)
  }

  lemma {:induction false} RunSplits(next: NextFn, s: State, n: nat, m: nat)
    ensures Run(next, s, n + m) == Run(next, Run(next, s, n), m)
    decreases n
  {
    if n > 0 {
      RunSplits(next, next(s), n - 1, m);
    }
  }

  ghost predicate SameOutside(s: Regs, t: Regs, written: set<Reg>) {
    forall r: Reg :: r !in written ==> s[r] == t[r]
  }

  /** A line changes only the registers it writes. */
  lemma LineFrame(lines: seq<Line>, s: State, w: World)
    requires s.at < |lines|
    ensures SameOutside(s.regs, Next(lines, s, w).regs, WritesOf(lines[s.at]))
  {
  }
}
