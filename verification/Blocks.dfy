/** The structure behind the generator's lines, and the proof that the lines end: every
    block reaches its end under any branch outcomes, and every counted loop counts down. */
module Blocks {
  import opened Words
  import opened Isa
  import opened Assembly
  import opened Labels

  /** Pieces and the plan that places their labels. */
  datatype Block = Block(pieces: seq<Piece>, plan: Plan)

  /** Straight-line code, code that ends in a branch, or a counted loop, each with the item
      it stands for. */
  datatype Piece =
    | Straight(item: Item)
    | Branch(item: Item)
    | Loop(item: Item, counter: Reg, rounds: Word, body: Block, top: nat, cont: nat, back: Form)

  function Items(b: Block): (items: seq<Item>)
    ensures |items| == |b.pieces| && forall i :: 0 <= i < |items| ==> items[i] == b.pieces[i].item
  {
    seq(|b.pieces|, i requires 0 <= i < |b.pieces| => b.pieces[i].item)
  }

  function BlockLines(b: Block, end: Option<nat>): seq<Line> {
    Output(Items(b), b.plan, end)
  }

  /** The loop's lines: set the counter, the body between its labels, count down, go back. */
  function LoopLines(c: Reg, n: Word, body: seq<Line>, top: nat, cont: nat, back: Form): seq<Line> {
    [Set(c, n), Label(top)] + (body + [Label(cont), Decrement(c), Back(c, top, back)])
  }

  ghost predicate Simple(lines: seq<Line>) {
    forall i :: 0 <= i < |lines| ==> !Leaves(lines[i])
  }

  /** A branch ends in its only jump, whose label is open. */
  ghost predicate EndsInJump(lines: seq<Line>) {
    lines != [] && Simple(lines[..|lines| - 1])
    && lines[|lines| - 1].Jump? && lines[|lines| - 1].open == None
  }

  /** The offsets that a form can encode: those of B, CB, J and CJ instructions, and any
      32-bit offset by way of a register. */
  function Low(f: Form): int {
    match f
    case BranchForm => -4096
    case ShortBranchForm => -256
    case JumpForm => -0x10_0000
    case ShortJumpForm => -2048
    case RegisterForm | ShortRegisterForm => -0x8000_0000
  }

  function High(f: Form): int {
    -Low(f) - 2
  }

  /** The lines are those of the structure, of the size the item declares, and no loop body
      writes the loop's counter. A branch's range, and a loop's way back, fit their form. */
  ghost predicate Formed(p: Piece) {
    p.item.size == ByteLen(p.item.lines)
    && match p
       case Straight(item) => !item.branch && Simple(item.lines)
       case Branch(item) => item.branch && EndsInJump(item.lines) && item.maxdist <= High(item.lines[|item.lines| - 1].form)
       case Loop(item, c, n, b, top, cont, back) =>
         !item.branch && n >= 1 && FormedBlock(b, Some(cont))
         && item.lines == LoopLines(c, n, BlockLines(b, Some(cont)), top, cont, back)
         && c !in AllWrites(BlockLines(b, Some(cont)))
         && ByteLen(BlockLines(b, Some(cont))) + 4 <= -Low(back)
  }

  ghost predicate FormedBlock(b: Block, end: Option<nat>) {
    Planned(Items(b), b.plan, |b.pieces|)
    && (end.Some? && |b.pieces| in b.plan.labels ==> b.plan.labels[|b.pieces|] == end.value)
    && (forall p :: p in b.pieces ==> Formed(p))
  }

  function Times(n: nat, x: nat): nat {
    if n == 0 then 0 else x + Times(n - 1, x)
  }

  /** The most lines that can run. */
  ghost function Steps(p: Piece): nat {
    match p
    case Straight(item) => |item.lines|
    case Branch(item) => |item.lines|
    case Loop(_, _, n, b, _, _, _) => 1 + Times(n, StepsFrom(b, 0) + 4)
  }

  ghost function StepsFrom(b: Block, i: nat): nat
    decreases b, |b.pieces| - i
  {
    if i >= |b.pieces| then 1 else 1 + Steps(b.pieces[i]) + StepsFrom(b, i + 1)
  }

  lemma {:induction false} LaterIsLess(b: Block, i: nat, j: nat)
    requires i <= j
    ensures StepsFrom(b, j) <= StepsFrom(b, i)
    decreases j
  {
    if i < j {
      LaterIsLess(b, i, j - 1);
    }
  }

  // ----- Lines and their registers -----

  lemma PartWrites(whole: seq<Line>, lo: nat, part: seq<Line>)
    requires At(whole, lo, part)
    ensures AllWrites(part) <= AllWrites(whole)
  {
    forall r | r in AllWrites(part) ensures r in AllWrites(whole) {
      var i :| 0 <= i < |part| && r in WritesOf(part[i]);
      assert whole[lo + i] == part[i];
    }
  }

  lemma FilledWrites(lines: seq<Line>, target: nat)
    ensures AllWrites(FillAll(lines, target)) == AllWrites(lines)
  {
    var f := FillAll(lines, target);
    forall i | 0 <= i < |lines| ensures WritesOf(f[i]) == WritesOf(lines[i]) {
    }
  }

  lemma Wider(s: Regs, t: Regs, few: set<Reg>, more: set<Reg>)
    requires SameOutside(s, t, few) && few <= more
    ensures SameOutside(s, t, more)
  {
  }

  lemma Both(s: Regs, t: Regs, u: Regs, written: set<Reg>)
    requires SameOutside(s, t, written) && SameOutside(t, u, written)
    ensures SameOutside(s, u, written)
  {
  }

  lemma HeadWrites(part: seq<Line>)
    requires part != []
    ensures WritesOf(part[0]) <= AllWrites(part) && AllWrites(part[1..]) <= AllWrites(part)
  {
    forall r | r in AllWrites(part[1..]) ensures r in AllWrites(part) {
      var i :| 0 <= i < |part[1..]| && r in WritesOf(part[1..][i]);
      assert part[i + 1] == part[1..][i];
    }
  }

  /** Lines that do not leave run one after the other. */
  lemma {:induction false} SimpleRun(next: NextFn, lines: seq<Line>, part: seq<Line>, s: State, w: World)
    requires Runs(next, lines, w) && At(lines, s.at, part) && Simple(part)
    ensures var t := Run(next, s, |part|);
            t.at == s.at + |part| && SameOutside(s.regs, t.regs, AllWrites(part))
    decreases |part|
  {
    if part != [] {
      assert lines[s.at + 0] == part[0];
      assert NextIs(next, lines, w, s);
      var s' := Next(lines, s, w);
      LineFrame(lines, s, w);
      HeadWrites(part);
      Wider(s.regs, s'.regs, WritesOf(part[0]), AllWrites(part));
      forall i | 0 <= i < |part[1..]| ensures lines[s'.at + i] == part[1..][i] {
        assert lines[s.at + (i + 1)] == part[i + 1];
      }
      SimpleRun(next, lines, part[1..], s', w);
      var t := Run(next, s', |part| - 1);
      Wider(s'.regs, t.regs, AllWrites(part[1..]), AllWrites(part));
      Both(s.regs, s'.regs, t.regs, AllWrites(part));
    }
  }

  /** In `n` lines the run gets to `at`, changing only the given registers. */
  ghost predicate Reaches(next: NextFn, s: State, n: nat, at: nat, written: set<Reg>) {
    var t := Run(next, s, n);
    t.at == at && SameOutside(s.regs, t.regs, written)
  }

  lemma {:induction false} Chain(next: NextFn, s: State, n: nat, mid: nat, few: set<Reg>, m: nat, at: nat, more: set<Reg>)
    requires Reaches(next, s, n, mid, few) && Reaches(next, Run(next, s, n), m, at, more) && few <= more
    ensures Reaches(next, s, n + m, at, more)
  {
    RunSplits(next, s, n, m);
  }

  lemma {:induction false} ChainThree(next: NextFn, s: State, n0: nat, n1: nat, n2: nat, at: nat, all: set<Reg>)
    requires var s1 := Run(next, s, n0);
             var s2 := Run(next, s1, n1);
             SameOutside(s.regs, s1.regs, all) && SameOutside(s1.regs, s2.regs, all) && Reaches(next, s2, n2, at, all)
    ensures Reaches(next, s, n0 + (n1 + n2), at, all)
  {
    RunSplits(next, Run(next, s, n0), n1, n2);
    RunSplits(next, s, n0, n1 + n2);
  }

  lemma {:induction false} OneLine(next: NextFn, lines: seq<Line>, s: State, w: World)
    requires Runs(next, lines, w) && s.at < |lines|
    ensures Run(next, s, 1) == Next(lines, s, w)
    ensures Reaches(next, s, 1, Next(lines, s, w).at, WritesOf(lines[s.at]))
  {
    LineFrame(lines, s, w);
    assert NextIs(next, lines, w, s);
    assert Run(next, Next(lines, s, w), 0) == Next(lines, s, w);
  }

  // ----- Where branches land -----

  /** No label is defined twice. */
  ghost predicate Unique(lines: seq<Line>) {
    forall l: nat :: Defs(lines, l) <= 1
  }

  /** The block's lines stand at `lo`, and its end label, if it has one, right behind. */
  ghost predicate Stands(lines: seq<Line>, b: Block, end: Option<nat>, lo: nat) {
    At(lines, lo, BlockLines(b, end))
    && (end.Some? ==> At(lines, lo + |BlockLines(b, end)|, [Label(end.value)]))
  }

  /** Where boundary `t` of the block is. */
  function Place(b: Block, lo: nat, t: nat): nat
    requires t <= |b.pieces|
  {
    lo + |Assembled(Items(b), b.plan, t)|
  }

  lemma AtHead(lines: seq<Line>, lo: nat, x: Line)
    requires At(lines, lo, [x])
    ensures lo < |lines| && lines[lo] == x
  {
    assert lines[lo + 0] == [x][0];
  }

  lemma {:induction false} LandingInside(lines: seq<Line>, b: Block, end: Option<nat>, lo: nat, t: nat)
    requires At(lines, lo, BlockLines(b, end)) && t in b.plan.labels && t < |b.pieces|
    ensures Place(b, lo, t) < |lines| && lines[Place(b, lo, t)] == Label(b.plan.labels[t])
  {
    LabelStands(Items(b), b.plan, end, t, lines, lo);
    AtHead(lines, Place(b, lo, t), Label(b.plan.labels[t]));
  }

  lemma {:induction false} LandingEnd(lines: seq<Line>, b: Block, end: Option<nat>, lo: nat, t: nat)
    requires Stands(lines, b, end, lo) && t in b.plan.labels && t == |b.pieces|
    requires end.Some? ==> b.plan.labels[t] == end.value
    ensures Place(b, lo, t) < |lines| && lines[Place(b, lo, t)] == Label(b.plan.labels[t])
  {
    var e := EndLabel(b.plan, t, end);
    AtSplits(lines, lo, Assembled(Items(b), b.plan, t), e);
    AtHead(lines, Place(b, lo, t), Label(b.plan.labels[t]));
  }

  /** The label of a boundary is found at that boundary. */
  lemma {:induction false} Landing(lines: seq<Line>, b: Block, end: Option<nat>, lo: nat, t: nat)
    requires Unique(lines) && Stands(lines, b, end, lo) && FormedBlock(b, end)
    requires t in b.plan.labels
    ensures t <= |b.pieces| && Find(lines, b.plan.labels[t]) == Place(b, lo, t)
  {
    Boundary(Items(b), b.plan, t);
    if t < |b.pieces| {
      LandingInside(lines, b, end, lo, t);
    } else {
      LandingEnd(lines, b, end, lo, t);
    }
    FoundWhereDefined(lines, b.plan.labels[t], Place(b, lo, t));
  }

  /** Lines that end in a jump go on to the next line or to its label. */
  lemma {:induction false} JumpRuns(next: NextFn, lines: seq<Line>, init: seq<Line>, j: Line, l: nat, part: seq<Line>, s: State, w: World)
    returns (at: nat)
    requires Runs(next, lines, w) && Simple(init) && j.Jump? && j.open == Some(l) && part == init + [j] && At(lines, s.at, part)
    ensures Reaches(next, s, |part|, at, AllWrites(part))
    ensures at == s.at + |part| || at == Find(lines, l)
  {
    AtSplits(lines, s.at, init, [j]);
    AtHead(lines, s.at + |init|, j);
    SimpleRun(next, lines, init, s, w);
    var t := Run(next, s, |init|);
    OneLine(next, lines, t, w);
    at := Next(lines, t, w).at;
    PartWrites(part, 0, init);
    assert WritesOf(j) <= AllWrites(part) by {
      assert part[|init|] == j;
    }
    Wider(t.regs, Run(next, t, 1).regs, WritesOf(j), AllWrites(part));
    Chain(next, s, |init|, s.at + |init|, AllWrites(init), 1, at, AllWrites(part));
  }

  /** A branch goes on to the next line or to its label. */
  lemma {:induction false} BranchRuns(next: NextFn, lines: seq<Line>, item: Item, l: nat, s: State, w: World) returns (at: nat)
    requires Runs(next, lines, w) && EndsInJump(item.lines) && At(lines, s.at, FillAll(item.lines, l))
    ensures Reaches(next, s, |item.lines|, at, AllWrites(FillAll(item.lines, l)))
    ensures at == s.at + |item.lines| || at == Find(lines, l)
  {
    var part, m := FillAll(item.lines, l), |item.lines| - 1;
    assert part == part[..m] + [part[m]];
    forall i | 0 <= i < m ensures !Leaves(part[..m][i]) {
      assert item.lines[..m][i] == item.lines[i];
    }
    at := JumpRuns(next, lines, part[..m], part[m], l, part, s, w);
  }

  // ----- Loops -----

  /** Where the parts of a loop stand. */
  lemma {:induction false} LoopParts(lines: seq<Line>, p: Piece, lo: nat)
    requires p.Loop? && Formed(p) && At(lines, lo, p.item.lines) && Unique(lines)
    ensures var e := lo + 2 + |BlockLines(p.body, Some(p.cont))|;
            e + 3 == lo + |p.item.lines| <= |lines|
            && lines[lo] == Set(p.counter, p.rounds) && lines[lo + 1] == Label(p.top)
            && Stands(lines, p.body, Some(p.cont), lo + 2)
            && lines[e] == Label(p.cont) && lines[e + 1] == Decrement(p.counter)
            && lines[e + 2] == Back(p.counter, p.top, p.back) && Find(lines, p.top) == lo + 1
  {
    var head, body, tail := [Set(p.counter, p.rounds), Label(p.top)], BlockLines(p.body, Some(p.cont)),
                            [Label(p.cont), Decrement(p.counter), Back(p.counter, p.top, p.back)];
    AtSplits(lines, lo, head, body + tail);
    AtSplits(lines, lo + 2, body, tail);
    var e := lo + 2 + |body|;
    assert lines[lo + 0] == head[0] && lines[lo + 1] == head[1];
    assert lines[e + 0] == tail[0] && lines[e + 1] == tail[1] && lines[e + 2] == tail[2];
    FoundWhereDefined(lines, p.top, lo + 1);
  }

  lemma AroundBody(head: seq<Line>, body: seq<Line>, tail: seq<Line>)
    ensures AllWrites(body) <= AllWrites(head + (body + tail)) && AllWrites(head) <= AllWrites(head + (body + tail))
  {
    var whole := head + (body + tail);
    assert At(whole, 0, head);
    PartWrites(whole, 0, head);
    forall i | 0 <= i < |body| ensures whole[|head| + i] == body[i] {
    }
    PartWrites(whole, |head|, body);
  }

  /** Everything in a loop writes only what the loop's lines write. */
  lemma {:induction false} LoopWrites(p: Piece)
    requires p.Loop? && Formed(p)
    ensures AllWrites(BlockLines(p.body, Some(p.cont))) <= AllWrites(p.item.lines)
    ensures p.counter in AllWrites(p.item.lines)
  {
    var head := [Set(p.counter, p.rounds), Label(p.top)];
    AroundBody(head, BlockLines(p.body, Some(p.cont)), [Label(p.cont), Decrement(p.counter), Back(p.counter, p.top, p.back)]);
    assert p.counter in WritesOf(head[0]);
  }

  /** Counting down: the label, the decrement and the jump back. */
  lemma {:induction false} TailRuns(next: NextFn, lines: seq<Line>, c: Reg, top: nat, back: Form, s: State, w: World)
    requires Runs(next, lines, w) && s.at + 2 < |lines| && lines[s.at].Label?
    requires lines[s.at + 1] == Decrement(c) && lines[s.at + 2] == Back(c, top, back)
    ensures var t, k := Run(next, s, 3), Add32(s.regs[c], -1);
            t.regs == s.regs[c := k] && t.at == if k != 0 then Find(lines, top) else s.at + 3
  {
    var s1 := Next(lines, s, w);
    var s2 := Next(lines, s1, w);
    assert s1.regs == s.regs;
    assert s2.regs == s.regs[c := Add32(s.regs[c], -1)];
    var s3 := Next(lines, s2, w);
    assert s3.regs == s2.regs;
    OneLine(next, lines, s, w);
    OneLine(next, lines, s1, w);
    OneLine(next, lines, s2, w);
    RunSplits(next, s, 1, 2);
    RunSplits(next, s1, 1, 1);
  }

  // ----- Blocks end -----

  /** Labels change nothing. */
  lemma {:induction false} LabelsRun(next: NextFn, lines: seq<Line>, labels: seq<Line>, s: State, w: World, all: set<Reg>)
    requires Runs(next, lines, w) && At(lines, s.at, labels) && forall i :: 0 <= i < |labels| ==> labels[i].Label?
    ensures Reaches(next, s, |labels|, s.at + |labels|, all)
  {
    SimpleRun(next, lines, labels, s, w);
    assert AllWrites(labels) == {};
    Wider(s.regs, Run(next, s, |labels|).regs, {}, all);
  }

  lemma {:induction false} EndStands(lines: seq<Line>, b: Block, end: Option<nat>, lo: nat, e: seq<Line>)
    requires At(lines, lo, BlockLines(b, end)) && e == EndLabel(b.plan, |b.pieces|, end)
    ensures At(lines, Place(b, lo, |b.pieces|), e) && Place(b, lo, |b.pieces|) + |e| == lo + |BlockLines(b, end)|
    ensures |e| <= 1 && forall i :: 0 <= i < |e| ==> e[i].Label?
  {
    AtSplits(lines, lo, Assembled(Items(b), b.plan, |b.pieces|), e);
  }

  lemma {:induction false} EndRuns(next: NextFn, lines: seq<Line>, b: Block, end: Option<nat>, lo: nat, s: State, w: World, all: set<Reg>)
    returns (n: nat)
    requires Runs(next, lines, w) && At(lines, lo, BlockLines(b, end)) && s.at == Place(b, lo, |b.pieces|)
    ensures n <= 1 && Reaches(next, s, n, lo + |BlockLines(b, end)|, all)
  {
    var e := EndLabel(b.plan, |b.pieces|, end);
    EndStands(lines, b, end, lo, e);
    LabelsRun(next, lines, e, s, w, all);
    n := |e|;
  }

  lemma {:induction false} MarkRuns(next: NextFn, lines: seq<Line>, b: Block, end: Option<nat>, lo: nat, i: nat, s: State, w: World, all: set<Reg>)
    returns (n: nat)
    requires Runs(next, lines, w) && At(lines, lo, BlockLines(b, end)) && i < |b.pieces| && s.at == Place(b, lo, i)
    ensures n <= 1 && Reaches(next, s, n, Place(b, lo, i) + |LabelAt(b.plan, i)|, all)
  {
    var mark := LabelAt(b.plan, i);
    LabelStands(Items(b), b.plan, end, i, lines, lo);
    LabelsRun(next, lines, mark, s, w, all);
    n := |mark|;
  }

  /** Where a piece's lines stand, and where they end. */
  lemma {:induction false} PieceStands(lines: seq<Line>, b: Block, end: Option<nat>, lo: nat, i: nat, at: nat, part: seq<Line>)
    requires At(lines, lo, BlockLines(b, end)) && i < |b.pieces|
    requires at == Place(b, lo, i) + |LabelAt(b.plan, i)| && part == LinesOf(Items(b), b.plan, i)
    ensures At(lines, at, part) && at + |part| == Place(b, lo, i + 1)
  {
    LabelStands(Items(b), b.plan, end, i, lines, lo);
  }

  lemma {:induction false} PieceWrites(b: Block, end: Option<nat>, i: nat, part: seq<Line>, whole: seq<Line>)
    requires i < |b.pieces| && part == LinesOf(Items(b), b.plan, i) && whole == BlockLines(b, end)
    ensures AllWrites(part) <= AllWrites(whole)
  {
    var at := Place(b, 0, i) + |LabelAt(b.plan, i)|;
    WholeStands(whole);
    PieceStands(whole, b, end, 0, i, at, part);
    PartWrites(whole, at, part);
  }

  lemma WholeStands(whole: seq<Line>)
    ensures At(whole, 0, whole)
  {
  }

  /** The lines of a piece in its block: a branch's are filled in, the others' as they are. */
  lemma {:induction false} PieceLines(b: Block, end: Option<nat>, i: nat, part: seq<Line>)
    requires FormedBlock(b, end) && i < |b.pieces| && part == LinesOf(Items(b), b.plan, i)
    ensures !b.pieces[i].Branch? ==> part == b.pieces[i].item.lines
    ensures b.pieces[i].Branch? ==>
              i in b.plan.targets && i < b.plan.targets[i] <= |b.pieces| && b.plan.targets[i] in b.plan.labels
              && part == FillAll(b.pieces[i].item.lines, b.plan.labels[b.plan.targets[i]])
  {
    var p := b.pieces[i];
    assert Formed(p) && Items(b)[i] == p.item;
    if p.Branch? {
      JumpsForward(Items(b), b.plan, i);
    }
  }

  /** A branch goes to the next boundary or to a later one. */
  lemma {:induction false} BranchPiece(next: NextFn, lines: seq<Line>, b: Block, end: Option<nat>, lo: nat, i: nat, s: State, w: World, part: seq<Line>)
    returns (j: nat)
    requires Runs(next, lines, w) && Unique(lines) && Stands(lines, b, end, lo) && FormedBlock(b, end)
    requires i < |b.pieces| && b.pieces[i].Branch? && part == LinesOf(Items(b), b.plan, i)
    requires At(lines, s.at, part) && s.at + |part| == Place(b, lo, i + 1)
    ensures i < j <= |b.pieces| && Reaches(next, s, |part|, Place(b, lo, j), AllWrites(part))
  {
    var p := b.pieces[i];
    assert Formed(p);
    PieceLines(b, end, i, part);
    var t := b.plan.targets[i];
    Landing(lines, b, end, lo, t);
    var at := BranchRuns(next, lines, p.item, b.plan.labels[t], s, w);
    j := if at == s.at + |part| then i + 1 else t;
  }

  /** From boundary `i`, under any outcomes, a block reaches its end. */
  lemma {:induction false} BlockRuns(next: NextFn, lines: seq<Line>, b: Block, end: Option<nat>, lo: nat, i: nat, s: State, w: World, all: set<Reg>)
    returns (n: nat)
    requires Runs(next, lines, w) && Unique(lines) && Stands(lines, b, end, lo) && FormedBlock(b, end) && all == AllWrites(BlockLines(b, end))
    requires i <= |b.pieces| && s.at == Place(b, lo, i)
    ensures n <= StepsFrom(b, i) && Reaches(next, s, n, lo + |BlockLines(b, end)|, all)
    decreases b, |b.pieces| - i, 1
  {
    if i == |b.pieces| {
      n := EndRuns(next, lines, b, end, lo, s, w, all);
    } else {
      var n0 := MarkRuns(next, lines, b, end, lo, i, s, w, all);
      var s1 := Run(next, s, n0);
      var n1, j := PieceRuns(next, lines, b, end, lo, i, s1, w, all);
      var s2 := Run(next, s1, n1);
      var n2 := BlockRuns(next, lines, b, end, lo, j, s2, w, all);
      LaterIsLess(b, i + 1, j);
      ChainThree(next, s, n0, n1, n2, lo + |BlockLines(b, end)|, all);
      n := n0 + (n1 + n2);
    }
  }

  /** A piece runs to the next boundary, or to a later one if it branches there. */
  lemma {:induction false} PieceRuns(next: NextFn, lines: seq<Line>, b: Block, end: Option<nat>, lo: nat, i: nat, s: State, w: World, all: set<Reg>)
    returns (n: nat, j: nat)
    requires Runs(next, lines, w) && Unique(lines) && Stands(lines, b, end, lo) && FormedBlock(b, end) && all == AllWrites(BlockLines(b, end))
    requires i < |b.pieces| && s.at == Place(b, lo, i) + |LabelAt(b.plan, i)|
    ensures i < j <= |b.pieces| && n <= Steps(b.pieces[i])
    ensures Reaches(next, s, n, Place(b, lo, j), all)
    decreases b, |b.pieces| - i, 0
  {
    var p, part := b.pieces[i], LinesOf(Items(b), b.plan, i);
    PieceReady(lines, b, end, lo, i, s.at, p, part);
    j, n := i + 1, |part|;
    if p.Straight? {
      SimpleRun(next, lines, part, s, w);
    } else if p.Branch? {
      j := BranchPiece(next, lines, b, end, lo, i, s, w, part);
    } else {
      n := LoopRuns(next, lines, p, s, w);
    }
    WiderReach(next, s, n, Place(b, lo, j), AllWrites(part), all);
  }

  /** What there is to know of a piece where it stands. */
  lemma {:induction false} PieceReady(lines: seq<Line>, b: Block, end: Option<nat>, lo: nat, i: nat, at: nat, p: Piece, part: seq<Line>)
    requires At(lines, lo, BlockLines(b, end)) && FormedBlock(b, end) && i < |b.pieces| && p == b.pieces[i]
    requires at == Place(b, lo, i) + |LabelAt(b.plan, i)| && part == LinesOf(Items(b), b.plan, i)
    ensures Formed(p) && At(lines, at, part) && at + |part| == Place(b, lo, i + 1)
    ensures AllWrites(part) <= AllWrites(BlockLines(b, end))
    ensures p.Straight? ==> Simple(part)
    ensures p.Loop? ==> part == p.item.lines
    ensures !p.Loop? ==> |part| == Steps(p)
  {
    assert Formed(p);
    PieceStands(lines, b, end, lo, i, at, part);
    PieceLines(b, end, i, part);
    PieceWrites(b, end, i, part, BlockLines(b, end));
  }

  lemma WiderReach(next: NextFn, s: State, n: nat, at: nat, few: set<Reg>, all: set<Reg>)
    requires Reaches(next, s, n, at, few) && few <= all
    ensures Reaches(next, s, n, at, all)
  {
  }

  /** A loop runs to its end. */
  lemma {:induction false} LoopRuns(next: NextFn, lines: seq<Line>, p: Piece, s: State, w: World) returns (n: nat)
    requires Runs(next, lines, w) && Unique(lines) && p.Loop? && Formed(p) && At(lines, s.at, p.item.lines)
    ensures n <= Steps(p)
    ensures Reaches(next, s, n, s.at + |p.item.lines|, AllWrites(p.item.lines))
    decreases p, 1, 0
  {
    var s1 := CounterSet(next, lines, p, s, w);
    var all := AllWrites(p.item.lines);
    var bodies := RoundsRun(next, lines, p, s.at, s1, w, p.rounds, all);
    AtMost(bodies, StepsFrom(p.body, 0));
    Chain(next, s, 1, s.at + 1, all, Total(bodies), s.at + |p.item.lines|, all);
    n := 1 + Total(bodies);
  }

  /** The first line of a loop. */
  lemma {:induction false} CounterSet(next: NextFn, lines: seq<Line>, p: Piece, s: State, w: World) returns (t: State)
    requires Runs(next, lines, w) && Unique(lines) && p.Loop? && Formed(p) && At(lines, s.at, p.item.lines)
    ensures t == Run(next, s, 1) && t.at == s.at + 1 && t.regs[p.counter] == p.rounds >= 1
    ensures SameOutside(s.regs, t.regs, AllWrites(p.item.lines))
  {
    LoopParts(lines, p, s.at);
    LoopWrites(p);
    OneLine(next, lines, s, w);
    t := Run(next, s, 1);
  }

  /** One round, given that the body runs: back to the top with the counter one lower, or
      past the loop when it reaches zero. */
  lemma {:induction false} OneRound(next: NextFn, lines: seq<Line>, p: Piece, lo: nat, s: State, w: World, k: Word, n: nat, all: set<Reg>)
    requires Runs(next, lines, w) && Unique(lines) && p.Loop? && Formed(p) && At(lines, lo, p.item.lines) && all == AllWrites(p.item.lines)
    requires s.at == lo + 1 && s.regs[p.counter] == k && k >= 1
    requires Reaches(next, Run(next, s, 1), n, lo + 2 + |BlockLines(p.body, Some(p.cont))|,
                     AllWrites(BlockLines(p.body, Some(p.cont))))
    ensures Reaches(next, s, n + 4, if k > 1 then lo + 1 else lo + |p.item.lines|, all)
    ensures Run(next, s, n + 4).regs[p.counter] == k - 1
  {
    LoopParts(lines, p, lo);
    LoopWrites(p);
    OneLine(next, lines, s, w);
    var s1 := Run(next, s, 1);
    var s2 := Run(next, s1, n);
    assert s2.regs[p.counter] == k;
    TailRuns(next, lines, p.counter, p.top, p.back, s2, w);
    ThreeParts(next, s, n, AllWrites(BlockLines(p.body, Some(p.cont))), all);
  }

  lemma {:induction false} ThreeParts(next: NextFn, s: State, n: nat, few: set<Reg>, all: set<Reg>)
    requires var s1 := Run(next, s, 1);
             var s2 := Run(next, s1, n);
             SameOutside(s.regs, s1.regs, {}) && SameOutside(s1.regs, s2.regs, few) && few <= all
             && SameOutside(s2.regs, Run(next, s2, 3).regs, all)
    ensures Run(next, s, n + 4) == Run(next, Run(next, Run(next, s, 1), n), 3)
    ensures SameOutside(s.regs, Run(next, s, n + 4).regs, all)
  {
    RunSplits(next, Run(next, s, 1), n, 3);
    RunSplits(next, s, 1, n + 3);
  }

  /** The lines of a run through the loop whose rounds run these many lines of the body. */
  function Total(bodies: seq<nat>): nat {
    if bodies == [] then 0 else bodies[0] + 4 + Total(bodies[1..])
  }

  lemma {:induction false} AtMost(bodies: seq<nat>, x: nat)
    requires forall i :: 0 <= i < |bodies| ==> bodies[i] <= x
    ensures Total(bodies) <= Times(|bodies|, x + 4)
  {
    if bodies != [] {
      AtMost(bodies[1..], x);
      assert bodies[0] <= x;
    }
  }

  /** One round starts at the loop's top label with the counter at `k`: the body runs its
      number of lines, from its first line to its end, and then the counter is one lower and
      the run is back at the top, or past the loop if the counter is zero. */
  ghost predicate Round(next: NextFn, p: Piece, lo: nat, s: State, k: nat, body: nat)
    requires p.Loop?
  {
    s.at == lo + 1 && s.regs[p.counter] == k && k >= 1
    && Run(next, s, 1).at == lo + 2
    && Run(next, s, 1 + body).at == lo + 2 + |BlockLines(p.body, Some(p.cont))|
    && Run(next, s, body + 4).at == (if k > 1 then lo + 1 else lo + |p.item.lines|)
    && Run(next, s, body + 4).regs[p.counter] == k - 1
  }

  /** Round after round, one for each of the bodies. */
  ghost predicate Rounds(next: NextFn, p: Piece, lo: nat, s: State, bodies: seq<nat>)
    requires p.Loop?
    decreases |bodies|
  {
    bodies != [] ==>
      Round(next, p, lo, s, |bodies|, bodies[0]) && Rounds(next, p, lo, Run(next, s, bodies[0] + 4), bodies[1..])
  }

  /** A loop goes through exactly as many rounds as its counter holds, and then on. */
  lemma {:induction false} RoundsRun(next: NextFn, lines: seq<Line>, p: Piece, lo: nat, s: State, w: World, k: Word, all: set<Reg>)
    returns (bodies: seq<nat>)
    requires Runs(next, lines, w) && Unique(lines) && p.Loop? && Formed(p) && At(lines, lo, p.item.lines)
    requires s.at == lo + 1 && s.regs[p.counter] == k && k >= 1 && all == AllWrites(p.item.lines)
    ensures |bodies| == k && Rounds(next, p, lo, s, bodies) && forall i :: 0 <= i < |bodies| ==> bodies[i] <= StepsFrom(p.body, 0)
    ensures Reaches(next, s, Total(bodies), lo + |p.item.lines|, all)
    decreases p, 0, k
  {
    var m := RoundRuns(next, lines, p, lo, s, w, k, all);
    if k == 1 {
      bodies := LastRound(next, p, lo, s, m, all);
    } else {
      var t := Run(next, s, m + 4);
      assert t.at == lo + 1 && t.regs[p.counter] == k - 1;
      var rest := RoundsRun(next, lines, p, lo, t, w, k - 1, all);
      bodies := MoreRounds(next, p, lo, s, k, m, rest, all);
    }
  }

  lemma {:induction false} LastRound(next: NextFn, p: Piece, lo: nat, s: State, m: nat, all: set<Reg>) returns (bodies: seq<nat>)
    requires p.Loop? && Round(next, p, lo, s, 1, m) && SameOutside(s.regs, Run(next, s, m + 4).regs, all)
    ensures bodies == [m] && Rounds(next, p, lo, s, bodies) && Reaches(next, s, Total(bodies), lo + |p.item.lines|, all)
  {
    bodies := [m];
    assert bodies[1..] == [] && Total(bodies) == m + 4;
  }

  lemma {:induction false} MoreRounds(
      next: NextFn, p: Piece, lo: nat, s: State, k: nat, m: nat, rest: seq<nat>, all: set<Reg>)
    returns (bodies: seq<nat>)
    requires p.Loop? && Round(next, p, lo, s, k, m) && SameOutside(s.regs, Run(next, s, m + 4).regs, all)
    requires k > 1 && |rest| == k - 1 && Rounds(next, p, lo, Run(next, s, m + 4), rest)
    requires Reaches(next, Run(next, s, m + 4), Total(rest), lo + |p.item.lines|, all)
    ensures bodies == [m] + rest && Rounds(next, p, lo, s, bodies)
    ensures Reaches(next, s, Total(bodies), lo + |p.item.lines|, all)
  {
    bodies := [m] + rest;
    assert bodies[1..] == rest;
    Chain(next, s, m + 4, lo + 1, all, Total(rest), lo + |p.item.lines|, all);
  }

  /** One round; `m` counts the lines of the body. */
  lemma {:induction false} RoundRuns(next: NextFn, lines: seq<Line>, p: Piece, lo: nat, s: State, w: World, k: Word, all: set<Reg>)
    returns (m: nat)
    requires Runs(next, lines, w) && Unique(lines) && p.Loop? && Formed(p) && At(lines, lo, p.item.lines)
    requires s.at == lo + 1 && s.regs[p.counter] == k && k >= 1 && all == AllWrites(p.item.lines)
    ensures m <= StepsFrom(p.body, 0) && Round(next, p, lo, s, k, m)
    ensures SameOutside(s.regs, Run(next, s, m + 4).regs, all)
    decreases p, 0, 0
  {
    var s1 := BodyStarts(next, lines, p, lo, s, w);
    m := BlockRuns(next, lines, p.body, Some(p.cont), lo + 2, 0, s1, w, AllWrites(BlockLines(p.body, Some(p.cont))));
    OneRound(next, lines, p, lo, s, w, k, m, all);
    RunSplits(next, s, 1, m);
  }

  /** From the loop's top label to the first boundary of its body. */
  lemma {:induction false} BodyStarts(next: NextFn, lines: seq<Line>, p: Piece, lo: nat, s: State, w: World) returns (t: State)
    requires Runs(next, lines, w) && Unique(lines) && p.Loop? && Formed(p) && At(lines, lo, p.item.lines) && s.at == lo + 1
    ensures t == Run(next, s, 1) && t.at == Place(p.body, lo + 2, 0)
    ensures Stands(lines, p.body, Some(p.cont), lo + 2) && FormedBlock(p.body, Some(p.cont))
  {
    LoopParts(lines, p, lo);
    OneLine(next, lines, s, w);
    t := Run(next, s, 1);
  }

  /** Whole programs end: from the first line, whatever is computed and whichever way the
      branches go, the run reaches the end of the lines within the block's number of
      steps, and changes only registers that the lines write. */
  lemma {:induction false} ProgramEnds(next: NextFn, b: Block, s: State, w: World) returns (n: nat)
    requires Runs(next, BlockLines(b, None), w)
    requires FormedBlock(b, None) && Unique(BlockLines(b, None)) && s.at == 0
    ensures n <= StepsFrom(b, 0)
    ensures Reaches(next, s, n, |BlockLines(b, None)|, AllWrites(BlockLines(b, None)))
  {
    n := BlockRuns(next, BlockLines(b, None), b, None, 0, 0, s, w, AllWrites(BlockLines(b, None)));
  }
}
