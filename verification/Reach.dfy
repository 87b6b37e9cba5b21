/** Every jump of a formed block fits the encoding it is written in: once the lines are laid
    out byte by byte, the offset to its label is one that its form can encode. */
module Reach {
  import opened Words
  import opened Isa
  import opened Assembly
  import opened Labels
  import opened Blocks

  /** `d` is the number of bytes that lines assemble to. */
  ghost predicate Measures(d: Count) {
    forall lines :: Counts(d, lines)
  }

  ghost predicate Counts(d: Count, lines: seq<Line>) {
    d(lines) == ByteLen(lines)
  }

  function Bytes(): Count {
    lines => ByteLen(lines)
  }

  lemma BytesMeasure()
    ensures Measures(Bytes())
  {
    forall lines ensures Counts(Bytes(), lines) {
    }
  }

  lemma {:induction false} Sum(d: Count, a: seq<Line>, b: seq<Line>)
    requires Measures(d)
    ensures d(a + b) == d(a) + d(b)
  {
    assert Counts(d, a) && Counts(d, b) && Counts(d, a + b);
    ByteLenAppend(a, b);
  }

  lemma {:induction false} Single(d: Count, x: Line)
    requires Measures(d)
    ensures d([x]) == BytesOf(x)
  {
    assert [x][1..] == [] && ByteLen([]) == 0;
    assert Counts(d, [x]);
  }

  lemma {:induction false} FilledLength(lines: seq<Line>, l: nat)
    ensures ByteLen(FillAll(lines, l)) == ByteLen(lines)
  {
    if lines != [] {
      assert FillAll(lines, l)[1..] == FillAll(lines[1..], l);
      FilledLength(lines[1..], l);
    }
  }

  lemma {:induction false} BytesAdd(d: Count)
    requires Measures(d)
    ensures Adds(d)
  {
    assert Counts(d, []);
    forall a, b ensures d(a + b) == d(a) + d(b) {
      Sum(d, a, b);
    }
    forall a, l ensures d(FillAll(a, l)) == d(a) {
      assert Counts(d, FillAll(a, l)) && Counts(d, a);
      FilledLength(a, l);
    }
  }

  /** The byte position of a line, relative to the first. */
  function Position(d: Count, lines: seq<Line>, k: nat): nat
    requires k <= |lines|
  {
    d(lines[..k])
  }

  function FormOf(l: Line): Form
    requires Leaves(l)
  {
    match l
    case Jump(_, _, form, _) => form
    case Back(_, _, form) => form
  }

  predicate Encodable(form: Form, offset: int) {
    Low(form) <= offset <= High(form) && offset % 2 == 0
  }

  /** If line `k` may go elsewhere, it is to a label, at an offset that its form encodes. */
  ghost predicate FitsAt(d: Count, lines: seq<Line>, k: nat)
    requires k < |lines|
  {
    var l := lines[k];
    Leaves(l) ==>
      LabelOf(l).Some?
      && Encodable(FormOf(l), Position(d, lines, Find(lines, LabelOf(l).value)) - Position(d, lines, k))
  }

  // ----- Positions -----

  lemma {:induction false} EvenLength(d: Count, lines: seq<Line>)
    requires Measures(d)
    ensures d(lines) % 2 == 0
  {
    if lines == [] {
      assert Counts(d, []);
    } else {
      var n := |lines| - 1;
      assert lines == lines[..n] + [lines[n]];
      Sum(d, lines[..n], [lines[n]]);
      Single(d, lines[n]);
      EvenLength(d, lines[..n]);
    }
  }

  lemma {:induction false} EvenDistance(d: Count, lines: seq<Line>, j: nat, k: nat)
    requires Measures(d) && j <= |lines| && k <= |lines|
    ensures (Position(d, lines, j) - Position(d, lines, k)) % 2 == 0
  {
    EvenLength(d, lines[..j]);
    EvenLength(d, lines[..k]);
  }

  /** The position behind a part is that of the part and its bytes. */
  lemma {:induction false} PositionAfter(d: Count, lines: seq<Line>, lo: nat, part: seq<Line>)
    requires Measures(d) && At(lines, lo, part)
    ensures Position(d, lines, lo + |part|) == Position(d, lines, lo) + d(part)
  {
    assert lines[..lo + |part|] == lines[..lo] + part by {
      forall i | 0 <= i < |part| ensures lines[lo + i] == part[i] {
      }
    }
    Sum(d, lines[..lo], part);
  }

  lemma {:induction false} LabelLength(d: Count, plan: Plan, t: nat)
    requires Measures(d)
    ensures d(LabelAt(plan, t)) == 0
  {
    assert Counts(d, []);
    if t in plan.labels {
      Single(d, Label(plan.labels[t]));
    }
  }

  /** Items that declare their size. */
  ghost predicate Sized(d: Count, items: seq<Item>) {
    forall i :: 0 <= i < |items| ==> items[i].size == d(items[i].lines)
  }

  lemma {:induction false} NothingPlacedWeighs(d: Count, plan: Plan, n: nat)
    requires Measures(d)
    ensures Labels.Placed(d, plan, n) == 0
    decreases n
  {
    if n > 0 {
      NothingPlacedWeighs(d, plan, n - 1);
      LabelLength(d, plan, n - 1);
    }
  }

  lemma {:induction false} OwnDistance(d: Count, items: seq<Item>, i: nat, t: nat)
    requires Sized(d, items) && i <= t <= |items|
    ensures Own(d, items, t) == Own(d, items, i) + Distance(items, i, t)
    decreases t
  {
    if i < t {
      OwnDistance(d, items, i, t - 1);
    }
  }

  /** What is assembled from item `i` to item `t` has the bytes that the resolver counts. */
  lemma {:induction false} AssembledLength(d: Count, items: seq<Item>, plan: Plan, i: nat, t: nat, upToI: seq<Line>, upToT: seq<Line>)
    requires Measures(d) && Sized(d, items) && i <= t <= |items|
    requires upToI == Assembled(items, plan, i) && upToT == Assembled(items, plan, t)
    ensures d(upToT) == d(upToI) + Distance(items, i, t)
  {
    BytesAdd(d);
    CountAssembled(d, items, plan, i);
    CountAssembled(d, items, plan, t);
    NothingPlacedWeighs(d, plan, i);
    NothingPlacedWeighs(d, plan, t);
    OwnDistance(d, items, i, t);
  }

  /** The output has as many bytes as its items. */
  lemma {:induction false} OutputLength(d: Count, items: seq<Item>, plan: Plan, end: Option<nat>)
    requires Measures(d) && Sized(d, items)
    ensures d(Output(items, plan, end)) == Distance(items, 0, |items|)
  {
    BytesAdd(d);
    CountOutput(d, items, plan, end);
    LabelLength(d, plan, |items|);
    assert Counts(d, []);
    NothingPlacedWeighs(d, plan, |items|);
    OwnDistance(d, items, 0, |items|);
  }

  /** The pieces' items are of the size they declare. */
  lemma {:induction false} FormedSized(d: Count, b: Block, end: Option<nat>)
    requires FormedBlock(b, end) && Measures(d)
    ensures Sized(d, Items(b))
  {
    forall i | 0 <= i < |Items(b)| ensures Items(b)[i].size == d(Items(b)[i].lines) {
      assert Formed(b.pieces[i]) && Counts(d, b.pieces[i].item.lines);
    }
  }

  // ----- Where the jumps are -----

  /** Line `k` is the last one of piece `i` of a standing block, and the piece is a branch or
      a loop. */
  ghost predicate JumpOf(lines: seq<Line>, b: Block, end: Option<nat>, lo: nat, i: nat, k: nat) {
    Stands(lines, b, end, lo) && FormedBlock(b, end) && i < |b.pieces| && !b.pieces[i].Straight?
    && k + 1 == Place(b, lo, i + 1)
  }

  /** The piece that a line of the block belongs to, with the label in front of it. */
  lemma {:induction false} PieceOf(b: Block, lo: nat, n: nat, k: nat) returns (i: nat)
    requires n <= |b.pieces| && lo <= k < Place(b, lo, n)
    ensures i < n && Place(b, lo, i) <= k < Place(b, lo, i + 1)
    decreases n
  {
    if k >= Place(b, lo, n - 1) {
      i := n - 1;
    } else {
      i := PieceOf(b, lo, n - 1, k);
    }
  }

  lemma PartLine(lines: seq<Line>, at: nat, part: seq<Line>, k: nat)
    requires At(lines, at, part) && at <= k < at + |part|
    ensures k < |lines| && lines[k] == part[k - at]
  {
    assert lines[at + (k - at)] == part[k - at];
  }

  lemma {:induction false} NotAtEnd(lines: seq<Line>, b: Block, end: Option<nat>, lo: nat, k: nat)
    requires At(lines, lo, BlockLines(b, end)) && lo <= k < lo + |BlockLines(b, end)| && !lines[k].Label?
    ensures k < Place(b, lo, |b.pieces|)
  {
    var n := |b.pieces|;
    var e := EndLabel(b.plan, n, end);
    AtSplits(lines, lo, Assembled(Items(b), b.plan, n), e);
    if k >= Place(b, lo, n) {
      PartLine(lines, Place(b, lo, n), e, k);
    }
  }

  lemma {:induction false} NotAMark(lines: seq<Line>, b: Block, end: Option<nat>, lo: nat, i: nat, k: nat, at: nat, part: seq<Line>)
    requires At(lines, lo, BlockLines(b, end)) && i < |b.pieces| && Place(b, lo, i) <= k < |lines| && !lines[k].Label?
    requires part == LinesOf(Items(b), b.plan, i) && at == Place(b, lo, i) + |LabelAt(b.plan, i)|
    ensures at <= k && At(lines, at, part) && at + |part| == Place(b, lo, i + 1)
  {
    LabelStands(Items(b), b.plan, end, i, lines, lo);
    if k < at {
      PartLine(lines, Place(b, lo, i), LabelAt(b.plan, i), k);
    }
  }

  /** The piece and where its lines stand, for a line that is not a label. */
  lemma {:induction false} PieceWith(lines: seq<Line>, b: Block, end: Option<nat>, lo: nat, k: nat)
    returns (i: nat, at: nat, part: seq<Line>)
    requires At(lines, lo, BlockLines(b, end)) && lo <= k < lo + |BlockLines(b, end)| && !lines[k].Label?
    ensures i < |b.pieces| && part == LinesOf(Items(b), b.plan, i) && At(lines, at, part)
    ensures at <= k < at + |part| == Place(b, lo, i + 1)
  {
    NotAtEnd(lines, b, end, lo, k);
    i := PieceOf(b, lo, |b.pieces|, k);
    at, part := Place(b, lo, i) + |LabelAt(b.plan, i)|, LinesOf(Items(b), b.plan, i);
    NotAMark(lines, b, end, lo, i, k, at, part);
  }

  /** In a branch only the last line leaves. */
  lemma {:induction false} EarlierStays(lines: seq<Line>, l: nat, j: nat)
    requires EndsInJump(lines) && j < |lines| - 1
    ensures !Leaves(FillAll(lines, l)[j])
  {
    assert lines[..|lines| - 1][j] == lines[j];
  }

  lemma {:induction false} PieceLeaves(b: Block, end: Option<nat>, i: nat, part: seq<Line>, j: nat)
    requires FormedBlock(b, end) && i < |b.pieces| && part == LinesOf(Items(b), b.plan, i) && j < |part| && Leaves(part[j])
    ensures Formed(b.pieces[i]) && !b.pieces[i].Straight?
    ensures j + 1 < |part| ==> b.pieces[i].Loop? && part == b.pieces[i].item.lines
  {
    var p := b.pieces[i];
    assert Formed(p);
    PieceLines(b, end, i, part);
    if p.Branch? && j < |part| - 1 {
      EarlierStays(p.item.lines, b.plan.labels[b.plan.targets[i]], j);
    }
  }

  /** A line of a block that may go elsewhere is the jump of its piece, or lies in the body
      of a loop. */
  lemma {:induction false} PieceJump(lines: seq<Line>, b: Block, end: Option<nat>, lo: nat, k: nat) returns (i: nat, at: nat)
    requires Unique(lines) && Stands(lines, b, end, lo) && FormedBlock(b, end)
    requires lo <= k < lo + |BlockLines(b, end)| && Leaves(lines[k])
    ensures i < |b.pieces| && Formed(b.pieces[i]) && !b.pieces[i].Straight?
    ensures k + 1 < Place(b, lo, i + 1) ==>
              b.pieces[i].Loop? && At(lines, at, b.pieces[i].item.lines) && at <= k < at + |b.pieces[i].item.lines| - 1
    ensures k < Place(b, lo, i + 1)
  {
    var part;
    i, at, part := PieceWith(lines, b, end, lo, k);
    PartLine(lines, at, part, k);
    PieceLeaves(b, end, i, part, k - at);
  }

  /** Every line of a standing block that may go elsewhere is the jump of some branch or loop,
      in the block itself or in a loop inside it. */
  lemma {:induction false} Locate(lines: seq<Line>, b: Block, end: Option<nat>, lo: nat, k: nat)
    returns (b': Block, end': Option<nat>, lo': nat, i: nat)
    requires Unique(lines) && Stands(lines, b, end, lo) && FormedBlock(b, end)
    requires lo <= k < lo + |BlockLines(b, end)| && Leaves(lines[k])
    ensures JumpOf(lines, b', end', lo', i, k)
    decreases b
  {
    var at;
    i, at := PieceJump(lines, b, end, lo, k);
    b', end', lo' := b, end, lo;
    if k + 1 < Place(b, lo, i + 1) {
      var p := b.pieces[i];
      InBody(lines, p, at, k);
      b', end', lo', i := Locate(lines, p.body, Some(p.cont), at + 2, k);
    }
  }

  lemma {:induction false} InBody(lines: seq<Line>, p: Piece, at: nat, k: nat)
    requires Unique(lines) && p.Loop? && Formed(p) && At(lines, at, p.item.lines)
    requires at <= k < at + |p.item.lines| - 1 && Leaves(lines[k])
    ensures FormedBlock(p.body, Some(p.cont)) && Stands(lines, p.body, Some(p.cont), at + 2)
    ensures at + 2 <= k < at + 2 + |BlockLines(p.body, Some(p.cont))|
  {
    LoopParts(lines, p, at);
  }

  // ----- Branches -----

  lemma {:induction false} PlacePosition(d: Count, lines: seq<Line>, items: seq<Item>, plan: Plan, lo: nat, t: nat, upTo: seq<Line>)
    requires Measures(d) && Sized(d, items) && t <= |items| && upTo == Assembled(items, plan, t)
    requires At(lines, lo, upTo)
    ensures Position(d, lines, lo + |upTo|) == Position(d, lines, lo) + Distance(items, 0, t)
  {
    PositionAfter(d, lines, lo, upTo);
    assert Counts(d, []);
    AssembledLength(d, items, plan, 0, t, [], upTo);
  }

  lemma {:induction false} PlaceInside(lines: seq<Line>, b: Block, end: Option<nat>, lo: nat, t: nat)
    requires At(lines, lo, BlockLines(b, end)) && t <= |b.pieces|
    ensures At(lines, lo, Assembled(Items(b), b.plan, t)) && Place(b, lo, t) <= |lines|
  {
    AtSplits(lines, lo, Assembled(Items(b), b.plan, |b.pieces|), EndLabel(b.plan, |b.pieces|, end));
    AssembledAt(Items(b), b.plan, t, |b.pieces|, lines, lo);
  }

  lemma {:induction false} DistanceSplits(items: seq<Item>, i: nat, t: nat)
    requires i < t <= |items|
    ensures Distance(items, 0, t) == Distance(items, 0, i + 1) + Distance(items, i, t) - items[i].size
    decreases t
  {
    if i + 1 < t {
      DistanceSplits(items, i, t - 1);
    } else {
      assert Distance(items, i, i) == 0;
    }
  }

  lemma {:induction false} BoundaryPosition(d: Count, lines: seq<Line>, b: Block, end: Option<nat>, lo: nat, t: nat)
    requires Measures(d) && At(lines, lo, BlockLines(b, end)) && Sized(d, Items(b)) && t <= |b.pieces|
    ensures lo <= Place(b, lo, t) <= |lines|
    ensures Position(d, lines, Place(b, lo, t)) == Position(d, lines, lo) + Distance(Items(b), 0, t)
  {
    PlaceInside(lines, b, end, lo, t);
    PlacePosition(d, lines, Items(b), b.plan, lo, t, Assembled(Items(b), b.plan, t));
  }

  /** Boundary `t` of a standing block lies as far behind the end of piece `i` as the
      resolver counts. */
  lemma {:induction false} PlaceDistance(d: Count, lines: seq<Line>, b: Block, end: Option<nat>, lo: nat, i: nat, t: nat)
    requires Measures(d) && At(lines, lo, BlockLines(b, end)) && Sized(d, Items(b)) && i < t <= |b.pieces|
    ensures Place(b, lo, i + 1) <= |lines| && Place(b, lo, t) <= |lines|
    ensures Position(d, lines, Place(b, lo, t)) - Position(d, lines, Place(b, lo, i + 1))
            == Distance(Items(b), i, t) - Items(b)[i].size
  {
    BoundaryPosition(d, lines, b, end, lo, t);
    BoundaryPosition(d, lines, b, end, lo, i + 1);
    DistanceSplits(Items(b), i, t);
  }

  /** A branch's target lies behind the branch and within its range. */
  lemma {:induction false} InRange(b: Block, end: Option<nat>, i: nat)
    requires FormedBlock(b, end) && i in b.plan.targets
    ensures i < |b.pieces| && i < b.plan.targets[i] <= |b.pieces|
    ensures b.pieces[i].item.size <= Distance(Items(b), i, b.plan.targets[i]) <= b.pieces[i].item.maxdist
  {
    var items, t := Items(b), b.plan.targets[i];
    assert Eligible(items, i, t);
    DistanceGrows(items, i, i + 1, t);
    assert Distance(items, i, i) == 0;
  }

  lemma {:induction false} PositionStep(d: Count, lines: seq<Line>, k: nat)
    requires Measures(d) && k < |lines|
    ensures Position(d, lines, k + 1) == Position(d, lines, k) + BytesOf(lines[k])
  {
    assert lines[..k + 1] == lines[..k] + [lines[k]];
    Sum(d, lines[..k], [lines[k]]);
    Single(d, lines[k]);
  }

  lemma {:induction false} LastIsPart(d: Count, lines: seq<Line>)
    requires Measures(d) && lines != []
    ensures BytesOf(lines[|lines| - 1]) <= d(lines)
  {
    var n := |lines| - 1;
    assert lines == lines[..n] + [lines[n]];
    Sum(d, lines[..n], [lines[n]]);
    Single(d, lines[n]);
  }

  /** The jump of a branch, as it stands in the lines. */
  lemma {:induction false} BranchLine(lines: seq<Line>, b: Block, end: Option<nat>, lo: nat, i: nat, k: nat) returns (jump: Line, t: nat)
    requires Unique(lines) && JumpOf(lines, b, end, lo, i, k) && b.pieces[i].Branch?
    ensures i in b.plan.targets && t == b.plan.targets[i] && t in b.plan.labels && t <= |b.pieces|
    ensures var own := b.pieces[i].item.lines; own != [] && jump == own[|own| - 1] && jump.Jump?
    ensures k < |lines| && lines[k] == jump.(open := Some(b.plan.labels[t]))
    ensures b.pieces[i].item.maxdist <= High(jump.form)
  {
    var p, at, part := b.pieces[i], Place(b, lo, i) + |LabelAt(b.plan, i)|, LinesOf(Items(b), b.plan, i);
    assert Formed(p);
    PieceLines(b, end, i, part);
    PieceStands(lines, b, end, lo, i, at, part);
    PartLine(lines, at, part, k);
    t := b.plan.targets[i];
    jump := p.item.lines[|p.item.lines| - 1];
  }

  /** From the branch to its target. */
  lemma {:induction false} BranchOffset(d: Count, lines: seq<Line>, b: Block, end: Option<nat>, lo: nat, i: nat, k: nat, t: nat)
    requires Measures(d) && JumpOf(lines, b, end, lo, i, k) && k < |lines|
    requires i in b.plan.targets && t == b.plan.targets[i]
    requires BytesOf(lines[k]) <= b.pieces[i].item.size
    ensures t <= |b.pieces| && Place(b, lo, t) <= |lines|
    ensures 0 <= Position(d, lines, Place(b, lo, t)) - Position(d, lines, k) <= b.pieces[i].item.maxdist
  {
    InRange(b, end, i);
    FormedSized(d, b, end);
    PlaceDistance(d, lines, b, end, lo, i, t);
    PositionStep(d, lines, k);
    assert Items(b)[i] == b.pieces[i].item;
  }

  lemma {:induction false} BranchFits(d: Count, lines: seq<Line>, b: Block, end: Option<nat>, lo: nat, i: nat, k: nat)
    requires Measures(d) && Unique(lines) && JumpOf(lines, b, end, lo, i, k) && b.pieces[i].Branch?
    ensures k < |lines| && FitsAt(d, lines, k)
  {
    var jump, t := BranchLine(lines, b, end, lo, i, k);
    SizeOfBranch(d, b, end, i);
    BranchOffset(d, lines, b, end, lo, i, k, t);
    Landing(lines, b, end, lo, t);
    JumpFits(d, lines, k, jump, b.plan.labels[t], Place(b, lo, t));
  }

  lemma {:induction false} JumpFits(d: Count, lines: seq<Line>, k: nat, jump: Line, l: nat, place: nat)
    requires Measures(d) && k < |lines| && jump.Jump? && lines[k] == jump.(open := Some(l)) && place == Find(lines, l)
    requires 0 <= Position(d, lines, place) - Position(d, lines, k) <= High(jump.form)
    ensures FitsAt(d, lines, k)
  {
    EvenDistance(d, lines, place, k);
  }

  lemma {:induction false} SizeOfBranch(d: Count, b: Block, end: Option<nat>, i: nat)
    requires Measures(d) && FormedBlock(b, end) && i < |b.pieces| && b.pieces[i].Branch?
    ensures var own := b.pieces[i].item.lines; own != [] && BytesOf(own[|own| - 1]) <= b.pieces[i].item.size
  {
    assert Formed(b.pieces[i]);
    LastIsPart(d, b.pieces[i].item.lines);
    assert Counts(d, b.pieces[i].item.lines);
  }

  // ----- Loops -----

  /** Where the parts of a loop are, in bytes. */
  lemma {:induction false} LoopPositions(d: Count, lines: seq<Line>, at: nat, body: seq<Line>, e: nat)
    requires Measures(d) && At(lines, at + 2, body) && e == at + 2 + |body| && e + 3 <= |lines|
    requires lines[at + 1].Label? && lines[e].Label? && lines[e + 1].Decrement?
    ensures Position(d, lines, e + 2) == Position(d, lines, at + 1) + d(body) + 4
  {
    PositionStep(d, lines, at + 1);
    PositionAfter(d, lines, at + 2, body);
    PositionStep(d, lines, e);
    PositionStep(d, lines, e + 1);
  }

  lemma {:induction false} BackFits(d: Count, lines: seq<Line>, p: Piece, at: nat)
    requires Measures(d) && Unique(lines) && p.Loop? && Formed(p) && At(lines, at, p.item.lines)
    ensures |p.item.lines| >= 5 && at + |p.item.lines| <= |lines| && FitsAt(d, lines, at + |p.item.lines| - 1)
  {
    LoopParts(lines, p, at);
    var body := BlockLines(p.body, Some(p.cont));
    var e := at + 2 + |body|;
    LoopPositions(d, lines, at, body, e);
    assert Counts(d, body);
    EvenDistance(d, lines, at + 1, e + 2);
  }

  lemma {:induction false} LoopFits(d: Count, lines: seq<Line>, b: Block, end: Option<nat>, lo: nat, i: nat, k: nat)
    requires Measures(d) && Unique(lines) && JumpOf(lines, b, end, lo, i, k) && b.pieces[i].Loop?
    ensures k < |lines| && FitsAt(d, lines, k)
  {
    var at := LoopStands(lines, b, end, lo, i, k);
    BackFits(d, lines, b.pieces[i], at);
  }

  lemma {:induction false} LoopStands(lines: seq<Line>, b: Block, end: Option<nat>, lo: nat, i: nat, k: nat) returns (at: nat)
    requires JumpOf(lines, b, end, lo, i, k) && b.pieces[i].Loop?
    ensures Formed(b.pieces[i]) && At(lines, at, b.pieces[i].item.lines) && k + 1 == at + |b.pieces[i].item.lines|
  {
    var part := LinesOf(Items(b), b.plan, i);
    at := Place(b, lo, i) + |LabelAt(b.plan, i)|;
    assert Formed(b.pieces[i]);
    PieceLines(b, end, i, part);
    PieceStands(lines, b, end, lo, i, at, part);
  }

  // ----- Blocks -----

  /** Every jump in a standing block fits, those of the loops inside it included. */
  lemma {:induction false} BlockFits(d: Count, lines: seq<Line>, b: Block, end: Option<nat>, lo: nat, k: nat)
    requires Measures(d) && Unique(lines) && Stands(lines, b, end, lo) && FormedBlock(b, end)
    requires lo <= k < lo + |BlockLines(b, end)|
    ensures FitsAt(d, lines, k)
  {
    if Leaves(lines[k]) {
      var b', end', lo', i := Locate(lines, b, end, lo, k);
      if b'.pieces[i].Branch? {
        BranchFits(d, lines, b', end', lo', i, k);
      } else {
        LoopFits(d, lines, b', end', lo', i, k);
      }
    }
  }

  /** Every jump and branch of a program's lines, on whatever level, can be encoded. */
  lemma {:induction false} JumpsEncodable(b: Block, k: nat)
    requires FormedBlock(b, None) && Unique(BlockLines(b, None)) && k < |BlockLines(b, None)|
    ensures FitsAt(Bytes(), BlockLines(b, None), k)
  {
    var lines := BlockLines(b, None);
    BytesMeasure();
    WholeStands(lines);
    BlockFits(Bytes(), lines, b, None, 0, k);
  }
}
