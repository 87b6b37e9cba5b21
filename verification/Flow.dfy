/** The generator's rules about memory, counters and LR/SC, as a check that follows the
    lines once, and the proof that lines which pass it obey the rules however they run. */
module Flow {
  import opened Words
  import opened Bits
  import opened Isa
  import opened Alu
  import opened Assembly

  /** A register holds BASE + d for some d in [low, high] that `align` divides. */
  datatype Fact = Fact(low: int, high: int, align: Width)

  /** What is known before a line: address registers, registers that hold an absolute
      counter value, and whether an LR.W waits for its SC.W. */
  datatype Know = Know(facts: map<Reg, Fact>, taint: set<Reg>, pending: bool)

  const NOTHING: Know := Know(map[], {}, false)

  /** The data region is [BASE - 1024, BASE + 1024). */
  const REACH: int := 1024

  function AlignOf(mask: Word): Width {
    if mask % 4 == 0 then 4 else if mask % 2 == 0 then 2 else 1
  }

  predicate Multiple(x: int, n: Width) {
    (n == 2 ==> x % 2 == 0) && (n == 4 ==> x % 4 == 0)
  }

  /** Every access the fact allows is aligned and inside the data region. */
  predicate Inside(f: Fact, imm: int, width: Width) {
    width <= f.align && Multiple(imm, width)
    && 0 - REACH <= f.low + imm && f.high + imm + width <= REACH
  }

  function Without(facts: map<Reg, Fact>, written: set<Reg>): map<Reg, Fact> {
    map r | r in facts && r !in written :: facts[r]
  }

  /** What is known after a line, or None if the line breaks a rule. */
  function After(k: Know, l: Line): Option<Know> {
    var clean := ReadsOf(l) !! k.taint;
    var facts := Without(k.facts, WritesOf(l));
    var quiet := k.taint == {} && !k.pending;
    match l
    case Label(_) => if quiet then Some(NOTHING) else None
    case Jump(_, _, _, _) => if quiet then Some(Know(facts, {}, false)) else None
    case Back(_, _, _) => if quiet then Some(Know(facts, {}, false)) else None
    case Counter(r) => Some(Know(facts, k.taint + {r}, k.pending))
    case Delta(b, a) => if b in k.taint && a in k.taint then Some(Know(facts, k.taint - {b}, k.pending)) else None
    case Address(t, _, mask) =>
      if clean then Some(Know(facts[t := Fact(0, mask, AlignOf(mask))], k.taint - {t}, k.pending)) else None
    case Bias(t) =>
      if clean && t in k.facts
      then Some(k.(facts := k.facts[t := Fact(k.facts[t].low - 2048, k.facts[t].high - 2048, k.facts[t].align)])) else None
    case Access(kind, t, imm, width, _, w, _) =>
      if clean && t in k.facts && Inside(k.facts[t], imm, width) && (k.pending ==> kind == LoadKind || kind == ScKind)
      then Some(Know(facts, k.taint - w, PendingAfter(k.pending, l))) else None
    case _ => if clean then Some(Know(facts, k.taint - WritesOf(l), k.pending)) else None
  }

  function Pass(k: Know, lines: seq<Line>): Option<Know>
    decreases |lines|
  {
    if lines == [] then Some(k) else
      match After(k, lines[0])
      case None => None
      case Some(k') => Pass(k', lines[1..])
  }

  lemma {:induction false} PassAppend(k: Know, a: seq<Line>, b: seq<Line>)
    ensures Pass(k, a + b) == match Pass(k, a) case None => None case Some(k') => Pass(k', b)
    decreases |a|
  {
    if a == [] {
      assert a + b == b;
    } else {
      assert (a + b)[1..] == a[1..] + b;
      if After(k, a[0]).Some? {
        PassAppend(After(k, a[0]).value, a[1..], b);
      }
    }
  }

  /** Knowing more address registers never hurts. */
  predicate Weaker(k: Know, more: Know) {
    k.taint == more.taint && k.pending == more.pending
    && forall r :: r in k.facts ==> r in more.facts && more.facts[r] == k.facts[r]
  }

  lemma AfterMore(k: Know, more: Know, l: Line)
    requires Weaker(k, more) && After(k, l).Some?
    ensures After(more, l).Some? && Weaker(After(k, l).value, After(more, l).value)
  {
  }

  lemma {:induction false} PassMore(k: Know, more: Know, lines: seq<Line>)
    requires Weaker(k, more) && Pass(k, lines).Some?
    ensures Pass(more, lines).Some? && Weaker(Pass(k, lines).value, Pass(more, lines).value)
    decreases |lines|
  {
    if lines != [] {
      AfterMore(k, more, lines[0]);
      PassMore(After(k, lines[0]).value, After(more, lines[0]).value, lines[1..]);
    }
  }

  /** Lines that pass from scratch and leave nothing open. */
  predicate Passes(lines: seq<Line>) {
    var k := Pass(NOTHING, lines);
    k.Some? && k.value.taint == {} && !k.value.pending
  }

  lemma {:induction false} PassesAppend(a: seq<Line>, b: seq<Line>)
    requires Passes(a) && Passes(b)
    ensures Passes(a + b)
  {
    PassAppend(NOTHING, a, b);
    PassMore(NOTHING, Pass(NOTHING, a).value, b);
  }

  // ----- Lines that pass obey the rules -----

  /** The register value that a fact describes. */
  ghost predicate Describes(f: Fact, base: Word, v: Word) {
    exists d: int :: Offset(f, base, v, d)
  }

  ghost predicate Offset(f: Fact, base: Word, v: Word, d: int) {
    f.low <= d <= f.high && Multiple(d, f.align) && v == Add32(base, d)
  }

  ghost predicate Holds(k: Know, s: State, w: World, base: Word) {
    s.regs[w.base] == base && s.taint == k.taint && s.pending == k.pending
    && forall t :: t in k.facts ==> Describes(k.facts[t], base, s.regs[t])
  }

  /** A masked value is at most the mask, and a multiple of what divides the mask. */
  lemma {:induction false} MaskedBound(f: BitOp, x: nat, mask: nat)
    requires forall p, q :: f(p, q) == (p && q)
    ensures Bitwise(f, x, mask) <= mask
    decreases x + mask
  {
    if !(x == 0 && mask == 0) {
      MaskedBound(f, x / 2, mask / 2);
    }
  }

  lemma MaskedEven(f: BitOp, x: nat, mask: nat)
    requires mask % 2 == 0 && forall p, q :: f(p, q) == (p && q)
    ensures Bitwise(f, x, mask) % 2 == 0
  {
    if !(x == 0 && mask == 0) {
      assert Bitwise(f, x, mask) == 2 * Bitwise(f, x / 2, mask / 2);
    }
  }

  lemma MaskedFour(f: BitOp, x: nat, mask: nat)
    requires mask % 4 == 0 && forall p, q :: f(p, q) == (p && q)
    ensures Bitwise(f, x, mask) % 4 == 0
  {
    if !(x == 0 && mask == 0) {
      assert Bitwise(f, x, mask) == 2 * Bitwise(f, x / 2, mask / 2);
      MaskedEven(f, x / 2, mask / 2);
    }
  }

  lemma AddressDescribed(x: Word, mask: Word, base: Word)
    ensures Describes(Fact(0, mask, AlignOf(mask)), base, Add32(base, And(x, mask)))
  {
    var f: BitOp := (p, q) => p && q;
    MaskedBound(f, x, mask);
    if mask % 4 == 0 {
      MaskedFour(f, x, mask);
    } else if mask % 2 == 0 {
      MaskedEven(f, x, mask);
    }
    assert Offset(Fact(0, mask, AlignOf(mask)), base, Add32(base, And(x, mask)), And(x, mask));
  }

  lemma AddTwice(base: Word, d: int, e: int)
    ensures Add32(Add32(base, d), e) == Bits32(base + d + e)
  {
    var q := (base + d) / 0x1_0000_0000;
    DivModUnique(base + d + e, 0x1_0000_0000, q + (Add32(base, d) + e) / 0x1_0000_0000, Add32(Add32(base, d), e));
  }

  lemma SumOfMultiples(x: int, y: int, z: int, n: Width)
    requires Multiple(x, n) && Multiple(y, n) && Multiple(z, n)
    ensures Multiple(x + y + z, n)
  {
    if n == 4 {
      DivModUnique(x + y + z, 4, x / 4 + y / 4 + z / 4, 0);
    } else if n == 2 {
      DivModUnique(x + y + z, 2, x / 2 + y / 2 + z / 2, 0);
    }
  }

  lemma BiasDescribed(f: Fact, base: Word, v: Word)
    requires Describes(f, base, v)
    ensures Describes(Fact(f.low - 2048, f.high - 2048, f.align), base, Add32(v, -2048))
  {
    var d :| Offset(f, base, v, d);
    AddTwice(base, d, -2048);
    SumOfMultiples(d, -2048, 0, f.align);
    assert Offset(Fact(f.low - 2048, f.high - 2048, f.align), base, Add32(v, -2048), d - 2048);
  }

  lemma CoarserMultiple(x: int, m: Width, n: Width)
    requires Multiple(x, m) && n <= m
    ensures Multiple(x, n)
  {
    if m == 4 && n == 2 {
      DivModUnique(x, 2, 2 * (x / 4), 0);
    }
  }

  /** The data region lies inside the address space. */
  predicate Region(base: Word) {
    REACH <= base && base + REACH <= 0x1_0000_0000 && base % 4 == 0
  }

  predicate InRegion(base: Word, addr: Word, width: Width) {
    Multiple(addr, width) && base - REACH <= addr && addr + width <= base + REACH
  }

  /** An access inside the region, whatever the registers held. */
  lemma AccessInside(f: Fact, base: Word, v: Word, imm: int, width: Width)
    requires Describes(f, base, v) && Inside(f, imm, width) && Region(base)
    ensures InRegion(base, Add32(v, imm), width)
  {
    var d :| Offset(f, base, v, d);
    AddTwice(base, d, imm);
    CoarserMultiple(d, f.align, width);
    CoarserMultiple(base, 4, width);
    SumOfMultiples(base, d, imm, width);
    DivModUnique(base + d + imm, 0x1_0000_0000, 0, base + d + imm);
  }

  // ----- The invariant of a run -----

  ghost predicate Quiet(s: State, w: World, base: Word) {
    s.regs[w.base] == base && s.taint == {} && !s.pending
  }

  /** Every label used is defined, no line writes BASE, and the lines pass. */
  ghost predicate Lawful(lines: seq<Line>, base: Reg) {
    Pass(NOTHING, lines).Some?
    && (forall i :: 0 <= i < |lines| ==> base !in WritesOf(lines[i]) && TargetsDefined(lines, lines[i]))
  }

  ghost predicate TargetsDefined(lines: seq<Line>, l: Line) {
    (l.Jump? && l.open.Some? ==> Find(lines, l.open.value) < |lines|)
    && (l.Back? ==> Find(lines, l.target) < |lines|)
  }

  /** Between lines the static knowledge holds; at a label, which may be reached from
      elsewhere, nothing is open. */
  ghost predicate Inv(lines: seq<Line>, s: State, w: World, base: Word) {
    s.at <= |lines|
    && (if s.at < |lines| && lines[s.at].Label? then Quiet(s, w, base)
        else Pass(NOTHING, lines[..s.at]).Some? && Holds(Pass(NOTHING, lines[..s.at]).value, s, w, base))
  }

  lemma {:induction false} PassPrefix(lines: seq<Line>, k: nat)
    requires Pass(NOTHING, lines).Some? && k < |lines|
    ensures Pass(NOTHING, lines[..k]).Some?
    ensures After(Pass(NOTHING, lines[..k]).value, lines[k]).Some?
    ensures Pass(NOTHING, lines[..k + 1]) == After(Pass(NOTHING, lines[..k]).value, lines[k])
  {
    assert lines == lines[..k] + lines[k..];
    PassAppend(NOTHING, lines[..k], lines[k..]);
    assert lines[..k + 1] == lines[..k] + [lines[k]];
    PassAppend(NOTHING, lines[..k], [lines[k]]);
    var k0 := Pass(NOTHING, lines[..k]).value;
    assert Pass(After(k0, lines[k]).value, []) == After(k0, lines[k]);
  }

  /** One line keeps what is known. */
  lemma LineKeeps(k: Know, lines: seq<Line>, s: State, w: World, base: Word)
    requires s.at < |lines| && Holds(k, s, w, base) && After(k, lines[s.at]).Some? && w.base !in WritesOf(lines[s.at])
    ensures Holds(After(k, lines[s.at]).value, Next(lines, s, w), w, base)
  {
    var l, k', s' := lines[s.at], After(k, lines[s.at]).value, Next(lines, s, w);
    LineFrame(lines, s, w);
    forall t | t in k'.facts
      ensures Describes(k'.facts[t], base, s'.regs[t])
    {
      if l.Address? && t == l.t {
        AddressDescribed(w.value(s.clock, t), l.mask, base);
      } else if l.Bias? && t == l.t {
        BiasDescribed(k.facts[t], base, s.regs[t]);
      }
    }
  }

  /** One line keeps the invariant. */
  lemma StepKeeps(lines: seq<Line>, s: State, w: World, base: Word)
    requires Lawful(lines, w.base) && Inv(lines, s, w, base) && s.at < |lines|
    ensures Inv(lines, Next(lines, s, w), w, base)
  {
    var l, s' := lines[s.at], Next(lines, s, w);
    PassPrefix(lines, s.at);
    var k := Pass(NOTHING, lines[..s.at]).value;
    LineFrame(lines, s, w);
    assert w.base !in WritesOf(l) && TargetsDefined(lines, l);
    if l.Label? {
      assert Holds(After(k, l).value, s', w, base);
    } else {
      LineKeeps(k, lines, s, w, base);
    }
    if s'.at == s.at + 1 && s'.at < |lines| && lines[s'.at].Label? {
      PassPrefix(lines, s'.at);
    }
  }

  lemma {:induction false} RunKeeps(next: NextFn, lines: seq<Line>, s: State, w: World, base: Word, n: nat)
    requires Runs(next, lines, w) && Lawful(lines, w.base) && Inv(lines, s, w, base)
    ensures Inv(lines, Run(next, s, n), w, base)
    decreases n
  {
    if n > 0 {
      assert NextIs(next, lines, w, s);
      if s.at < |lines| {
        StepKeeps(lines, s, w, base);
      }
      RunKeeps(next, lines, next(s), w, base, n - 1);
    }
  }

  /** The start of a program: BASE is set, nothing else is known. */
  ghost predicate Starts(s: State, w: World, base: Word) {
    s.at == 0 && Quiet(s, w, base)
  }

  lemma StartHolds(lines: seq<Line>, s: State, w: World, base: Word)
    requires Starts(s, w, base)
    ensures Inv(lines, s, w, base)
  {
    assert lines[..0] == [];
  }

  /** However lawful lines run, the line about to run obeys the rules: a memory access is
      aligned and inside the data region; only a difference reads an absolute counter
      value; and between an LR.W and its SC.W there is no store, AMO, LR.W, label or jump. */
  lemma {:induction false} LawfulRuns(next: NextFn, lines: seq<Line>, s: State, w: World, base: Word, n: nat)
    requires Runs(next, lines, w) && Lawful(lines, w.base) && Starts(s, w, base) && Region(base)
    ensures var t := Run(next, s, n);
            t.at <= |lines| && (t.at < |lines| ==> Obeys(t, lines[t.at], base))
  {
    StartHolds(lines, s, w, base);
    RunKeeps(next, lines, s, w, base, n);
    var t := Run(next, s, n);
    if t.at < |lines| {
      PassPrefix(lines, t.at);
      var l := lines[t.at];
      if l.Access? {
        var k := Pass(NOTHING, lines[..t.at]).value;
        AccessInside(k.facts[l.t], base, t.regs[l.t], l.imm, l.width);
      }
    }
  }

  ghost predicate Obeys(s: State, l: Line, base: Word) {
    (l.Access? ==> InRegion(base, Add32(s.regs[l.t], l.imm), l.width))
    && (l.Delta? || ReadsOf(l) !! s.taint)
    && (s.pending ==> !l.Label? && !l.Jump? && !l.Back? && (l.Access? ==> l.kind == LoadKind || l.kind == ScKind))
  }
}
