/** The test generator's branch resolver: it picks forward targets for the branches of a
    block and places their labels. Random choices are arbitrary. */
module Labels {
  import opened Words
  import opened Assembly

  /** A chunk of assembly of `size` bytes; a branch ends in a jump to an open label at most
      `maxdist` bytes away. */
  datatype Item = Item(lines: seq<Line>, size: nat, branch: bool, maxdist: nat)

  /** Bytes from the start of item `i` to the start of item `t`. */
  function Distance(items: seq<Item>, i: nat, t: nat): nat
    requires t <= |items|
    decreases t
  {
    if t <= i then 0 else Distance(items, i, t - 1) + items[t - 1].size
  }

  lemma {:induction false} DistanceGrows(items: seq<Item>, i: nat, t: nat, u: nat)
    requires t <= u <= |items|
    ensures Distance(items, i, t) <= Distance(items, i, u)
    decreases u
  {
    if t < u {
      DistanceGrows(items, i, t, u - 1);
    }
  }

  /** A target that branch `i` may take: one of the next eight boundaries, within range. */
  predicate Eligible(items: seq<Item>, i: nat, t: nat)
    requires i < |items|
  {
    i < t <= i + 8 && t <= |items| && Distance(items, i, t) <= items[i].maxdist
  }

  /** Every branch reaches at least the next item. */
  predicate AllFit(items: seq<Item>) {
    forall i :: 0 <= i < |items| && items[i].branch ==> items[i].size <= items[i].maxdist
  }

  /** A branch has a target to take exactly if it fits its own range. */
  lemma {:induction false} TargetExists(items: seq<Item>, i: nat)
    requires i < |items|
    ensures (exists t: nat :: Eligible(items, i, t)) <==> items[i].size <= items[i].maxdist
  {
    assert Distance(items, i, i) == 0;
    assert Distance(items, i, i + 1) == items[i].size;
    if items[i].size <= items[i].maxdist {
      assert Eligible(items, i, i + 1);
    }
    forall t: nat | Eligible(items, i, t) ensures items[i].size <= items[i].maxdist {
      DistanceGrows(items, i, i + 1, t);
    }
  }

  /** So every branch has one exactly if they all fit. */
  lemma AllHaveTargets(items: seq<Item>)
    ensures AllFit(items)
            <==> forall i: nat :: i < |items| && items[i].branch ==> exists t: nat :: Eligible(items, i, t)
  {
    forall i: nat | i < |items|
      ensures (exists t: nat :: Eligible(items, i, t)) <==> items[i].size <= items[i].maxdist
    {
      TargetExists(items, i);
    }
  }

  /** Stopping at the first boundary out of range loses no eligible target. */
  method Candidates(items: seq<Item>, i: nat) returns (cands: seq<nat>)
    requires i < |items|
    ensures forall t: nat :: t in cands <==> Eligible(items, i, t)
    ensures cands != [] <==> items[i].size <= items[i].maxdist
  {
    cands := [];
    var last := if |items| < i + 8 then |items| else i + 8;
    var dist := items[i].size;
    var t := i + 1;
    while t <= last
      invariant i < t <= last + 1
      invariant t <= |items| ==> dist == Distance(items, i, t)
      invariant forall u: nat :: u in cands <==> u < t && Eligible(items, i, u)
      invariant cands == [] ==> t == i + 1
      invariant cands != [] ==> items[i].size <= items[i].maxdist
    {
      if dist > items[i].maxdist {
        forall u: nat | Eligible(items, i, u)
          ensures u < t
        {
          if u >= t {
            DistanceGrows(items, i, t, u);
          }
        }
        return;
      }
      cands := cands + [t];
      if t < |items| {
        dist := dist + items[t].size;
      }
      t := t + 1;
    }
  }

  // --- The result ---

  /** Where each branch goes, and the label at each boundary that is a target. */
  datatype Plan = Plan(targets: map<nat, nat>, labels: map<nat, nat>)

  /** Every branch before item `n` has an eligible target with a label, and nothing else has. */
  ghost predicate Planned(items: seq<Item>, plan: Plan, n: nat)
    requires n <= |items|
  {
    (forall i: nat :: i in plan.targets <==> i < n && items[i].branch)
    && (forall i :: i in plan.targets ==> Eligible(items, i, plan.targets[i]))
    && plan.labels.Keys == plan.targets.Values
  }

  /** The labels are different, and new except for the block's own end label. */
  ghost predicate Fresh(labels: map<nat, nat>, size: nat, end: Option<nat>, first: nat, last: nat) {
    (forall t :: t in labels ==>
       if t == size && end.Some? then labels[t] == end.value else first < labels[t] <= last)
    && forall t, u :: t in labels && u in labels && t != u ==> labels[t] != labels[u]
  }

  /** A line with its open label filled in. */
  function Fill(line: Line, target: nat): Line {
    if line.Jump? && line.open.None? then line.(open := Some(target)) else line
  }

  function FillAll(lines: seq<Line>, target: nat): (r: seq<Line>)
    ensures |r| == |lines| && forall k :: 0 <= k < |r| ==> r[k] == Fill(lines[k], target)
  {
    if lines == [] then [] else [Fill(lines[0], target)] + FillAll(lines[1..], target)
  }

  function LabelAt(plan: Plan, t: nat): seq<Line> {
    if t in plan.labels then [Label(plan.labels[t])] else []
  }

  function LinesOf(items: seq<Item>, plan: Plan, i: nat): seq<Line>
    requires i < |items|
  {
    if i in plan.targets && plan.targets[i] in plan.labels
    then FillAll(items[i].lines, plan.labels[plan.targets[i]]) else items[i].lines
  }

  /** The assembled lines of the first `n` items. */
  function Assembled(items: seq<Item>, plan: Plan, n: nat): seq<Line>
    requires n <= |items|
  {
    if n == 0 then [] else Assembled(items, plan, n - 1) + LabelAt(plan, n - 1) + LinesOf(items, plan, n - 1)
  }

  lemma OneMore(items: seq<Item>, plan: Plan, i: nat)
    requires i < |items|
    ensures Assembled(items, plan, i + 1) == Assembled(items, plan, i) + LabelAt(plan, i) + LinesOf(items, plan, i)
  {
  }

  lemma LinesFilled(items: seq<Item>, plan: Plan, i: nat)
    requires i < |items| && plan.targets.Values == plan.labels.Keys
    ensures i in plan.targets ==>
              plan.targets[i] in plan.labels && LinesOf(items, plan, i) == FillAll(items[i].lines, plan.labels[plan.targets[i]])
    ensures i !in plan.targets ==> LinesOf(items, plan, i) == items[i].lines
  {
    if i in plan.targets {
      assert plan.targets[i] in plan.targets.Values;
    }
  }

  /** The block's end label is placed by the caller; a new one is placed here. */
  function EndLabel(plan: Plan, size: nat, end: Option<nat>): seq<Line> {
    if size in plan.labels && Some(plan.labels[size]) != end then [Label(plan.labels[size])] else []
  }

  function Output(items: seq<Item>, plan: Plan, end: Option<nat>): seq<Line> {
    Assembled(items, plan, |items|) + EndLabel(plan, |items|, end)
  }

  /** The generator's label counter. */
  class Counter {
    var count: nat

    constructor ()
      ensures count == 0
    {
      count := 0;
    }

    method Next() returns (l: nat)
      modifies this
      ensures l == count == old(count) + 1
    {
      count := count + 1;
      l := count;
    }
  }

  lemma LabelAdded(labels: map<nat, nat>, size: nat, t: nat, l: nat, end: Option<nat>, first: nat, last: nat)
    requires Fresh(labels, size, end, first, last)
    requires t !in labels && (end.Some? ==> end.value <= first) && first <= last
    requires if t == size && end.Some? then l == end.value else l == last + 1
    ensures Fresh(labels[t := l], size, end, first, if t == size && end.Some? then last else last + 1)
  {
  }

  lemma BranchPlanned(items: seq<Item>, plan: Plan, i: nat, t: nat, labels: map<nat, nat>)
    requires i < |items| && items[i].branch && Eligible(items, i, t)
    requires Planned(items, plan, i) && labels.Keys == plan.labels.Keys + {t}
    ensures Planned(items, Plan(plan.targets[i := t], labels), i + 1)
  {
    TargetAdded(plan.targets, i, t);
  }

  lemma TargetAdded(targets: map<nat, nat>, i: nat, t: nat)
    requires i !in targets
    ensures targets[i := t].Values == targets.Values + {t}
  {
    var more := targets[i := t];
    forall v | v in targets.Values + {t} ensures v in more.Values {
      if v == t {
        assert more[i] == t;
      } else {
        var k :| k in targets && targets[k] == v;
        assert more[k] == v;
      }
    }
  }

  lemma NothingPlanned(items: seq<Item>, end: Option<nat>, first: nat)
    ensures Planned(items, Plan(map[], map[]), 0) && Fresh(map[], |items|, end, first, first)
  {
    var none: map<nat, nat> := map[];
    assert none.Keys == {} && none.Values == {};
  }

  /** The label of boundary `t`, new if there is none yet. */
  method LabelFor(gen: Counter, labels: map<nat, nat>, size: nat, t: nat, end: Option<nat>, ghost first: nat)
    returns (more: map<nat, nat>)
    requires first <= gen.count && (end.Some? ==> end.value <= first)
    requires Fresh(labels, size, end, first, gen.count)
    modifies gen
    ensures gen.count >= old(gen.count)
    ensures more.Keys == labels.Keys + {t} && Fresh(more, size, end, first, gen.count)
  {
    if t in labels {
      return labels;
    }
    if t == size && end.Some? {
      LabelAdded(labels, size, t, end.value, end, first, gen.count);
      more := labels[t := end.value];
    } else {
      LabelAdded(labels, size, t, gen.count + 1, end, first, gen.count);
      var l := gen.Next();
      more := labels[t := l];
    }
  }

  /** One turn of the first loop, for a branch. */
  method ChooseOne(gen: Counter, items: seq<Item>, i: nat, plan: Plan, end: Option<nat>, ghost first: nat)
    returns (r: Option<Plan>)
    requires i < |items| && items[i].branch && first <= gen.count && (end.Some? ==> end.value <= first)
    requires Planned(items, plan, i) && Fresh(plan.labels, |items|, end, first, gen.count)
    modifies gen
    ensures gen.count >= old(gen.count)
    ensures r.Some? <==> items[i].size <= items[i].maxdist
    ensures r.Some? ==> Planned(items, r.value, i + 1) && Fresh(r.value.labels, |items|, end, first, gen.count)
  {
    var cands := Candidates(items, i);
    if cands == [] {
      return None;
    }
    var k: nat :| k < |cands|;
    var t := cands[k];
    assert Eligible(items, i, t);
    var labels := LabelFor(gen, plan.labels, |items|, t, end, first);
    BranchPlanned(items, plan, i, t, labels);
    r := Some(Plan(plan.targets[i := t], labels));
  }

  /** The first loop. It fails, as a choice from no candidates does, exactly when some branch
      does not reach past its own item. */
  method Choose(gen: Counter, items: seq<Item>, end: Option<nat>) returns (r: Option<Plan>)
    requires end.Some? ==> end.value <= gen.count
    modifies gen
    ensures gen.count >= old(gen.count)
    ensures r.Some? <==> AllFit(items)
    ensures r.Some? ==> Planned(items, r.value, |items|)
                        && Fresh(r.value.labels, |items|, end, old(gen.count), gen.count)
  {
    var plan := Plan(map[], map[]);
    NothingPlanned(items, end, gen.count);
    for i := 0 to |items|
      invariant gen.count >= old(gen.count)
      invariant forall k :: 0 <= k < i && items[k].branch ==> items[k].size <= items[k].maxdist
      invariant Planned(items, plan, i) && Fresh(plan.labels, |items|, end, old(gen.count), gen.count)
    {
      if items[i].branch {
        var next := ChooseOne(gen, items, i, plan, end, old(gen.count));
        if next.None? {
          return None;
        }
        plan := next.value;
      }
    }
    r := Some(plan);
  }

  /** The second loop: the items' lines, with labels placed and filled in. */
  method Assemble(items: seq<Item>, plan: Plan, end: Option<nat>) returns (out: seq<Line>)
    requires plan.targets.Values == plan.labels.Keys
    ensures out == Output(items, plan, end)
  {
    var labels, targets := plan.labels, plan.targets;
    out := [];
    for i := 0 to |items|
      invariant out == Assembled(items, plan, i)
    {
      if i in labels {
        out := out + [Label(labels[i])];
      }
      assert out == Assembled(items, plan, i) + LabelAt(plan, i);
      LinesFilled(items, plan, i);
      OneMore(items, plan, i);
      out := out + if i in targets then FillAll(items[i].lines, labels[targets[i]]) else items[i].lines;
    }
    if |items| in labels && Some(labels[|items|]) != end {
      out := out + [Label(labels[|items|])];
    }
  }

  /** The resolver: the output is the assembled items for a plan that meets all demands. */
  method Resolve(gen: Counter, items: seq<Item>, end: Option<nat>) returns (r: Option<seq<Line>>, plan: Plan)
    requires end.Some? ==> end.value <= gen.count
    modifies gen
    ensures gen.count >= old(gen.count)
    ensures r.Some? <==> AllFit(items)
    ensures r.Some? ==> Planned(items, plan, |items|)
                        && Fresh(plan.labels, |items|, end, old(gen.count), gen.count)
                        && r.value == Output(items, plan, end)
  {
    var chosen := Choose(gen, items, end);
    if chosen.None? {
      return None, Plan(map[], map[]);
    }
    plan := chosen.value;
    var out := Assemble(items, plan, end);
    r := Some(out);
  }

  // --- Labels are defined exactly once, where their boundary is ---

  lemma {:induction false} DefsFilled(lines: seq<Line>, target: nat, l: nat)
    ensures Defs(FillAll(lines, target), l) == Defs(lines, l)
  {
    if lines != [] {
      DefsFilled(lines[1..], target, l);
    }
  }

  /** A count of lines that adds up over pieces and does not see open labels. */
  type Count = seq<Line> -> nat

  ghost predicate Adds(d: Count) {
    d([]) == 0 && (forall a, b :: d(a + b) == d(a) + d(b)) && (forall a, t :: d(FillAll(a, t)) == d(a))
  }

  function DefsOf(l: nat): Count {
    lines => Defs(lines, l)
  }

  lemma DefsAdd(l: nat)
    ensures Adds(DefsOf(l))
  {
    forall a, b ensures Defs(a + b, l) == Defs(a, l) + Defs(b, l) {
      DefsAppend(a, b, l);
    }
    forall a, t ensures Defs(FillAll(a, t), l) == Defs(a, l) {
      DefsFilled(a, t, l);
    }
  }

  /** The count over the items' own lines, and over the labels placed before them. */
  function Own(d: Count, items: seq<Item>, n: nat): nat
    requires n <= |items|
  {
    if n == 0 then 0 else Own(d, items, n - 1) + d(items[n - 1].lines)
  }

  function Placed(d: Count, plan: Plan, n: nat): nat {
    if n == 0 then 0 else Placed(d, plan, n - 1) + d(LabelAt(plan, n - 1))
  }

  lemma {:induction false} CountAssembled(d: Count, items: seq<Item>, plan: Plan, n: nat)
    requires n <= |items| && Adds(d)
    ensures d(Assembled(items, plan, n)) == Own(d, items, n) + Placed(d, plan, n)
    decreases n
  {
    if n > 0 {
      CountAssembled(d, items, plan, n - 1);
      assert d(LinesOf(items, plan, n - 1)) == d(items[n - 1].lines);
    }
  }

  /** Label `l` belongs to boundary `t` of the block. */
  predicate Marks(labels: map<nat, nat>, t: nat, l: nat) {
    t in labels && labels[t] == l
  }

  lemma MarkedOrNot(labels: map<nat, nat>, l: nat)
    ensures l in labels.Values <==> exists t: nat :: Marks(labels, t, l)
  {
    if l in labels.Values {
      var t :| t in labels && labels[t] == l;
      assert Marks(labels, t, l);
    }
  }

  lemma DefsOfLabel(plan: Plan, t: nat, l: nat)
    ensures Defs(LabelAt(plan, t), l) == if Marks(plan.labels, t, l) then 1 else 0
  {
  }

  lemma {:induction false} PlacedOnce(plan: Plan, n: nat, l: nat, t: nat)
    requires forall u: nat :: Marks(plan.labels, u, l) ==> u == t
    ensures Placed(DefsOf(l), plan, n) == if t < n && Marks(plan.labels, t, l) then 1 else 0
    decreases n
  {
    if n > 0 {
      PlacedOnce(plan, n - 1, l, t);
      DefsOfLabel(plan, n - 1, l);
    }
  }

  /** How often the items themselves define a label. */
  function OwnDefs(items: seq<Item>, l: nat): nat {
    Own(DefsOf(l), items, |items|)
  }

  /** In the output, each label of the plan is defined exactly once more than the items
      define it (the block's end label is left to the caller), and no other label is added. */
  lemma {:induction false} DefsOfOutput(items: seq<Item>, plan: Plan, end: Option<nat>, first: nat, last: nat, l: nat)
    requires Planned(items, plan, |items|) && Fresh(plan.labels, |items|, end, first, last)
    requires end.Some? ==> end.value <= first
    ensures Defs(Output(items, plan, end), l)
            == OwnDefs(items, l) + if l in plan.labels.Values && Some(l) != end then 1 else 0
  {
    DefsAdd(l);
    CountOutput(DefsOf(l), items, plan, end);
    PlacedInBlock(items, plan, end, first, last, l);
  }

  lemma {:induction false} CountOutput(d: Count, items: seq<Item>, plan: Plan, end: Option<nat>)
    requires Adds(d)
    ensures d(Output(items, plan, end)) == Own(d, items, |items|) + (Placed(d, plan, |items|) + d(EndLabel(plan, |items|, end)))
  {
    CountAssembled(d, items, plan, |items|);
  }

  lemma {:induction false} PlacedInBlock(items: seq<Item>, plan: Plan, end: Option<nat>, first: nat, last: nat, l: nat)
    requires Planned(items, plan, |items|) && Fresh(plan.labels, |items|, end, first, last)
    requires end.Some? ==> end.value <= first
    ensures Placed(DefsOf(l), plan, |items|) + Defs(EndLabel(plan, |items|, end), l)
            == if l in plan.labels.Values && Some(l) != end then 1 else 0
  {
    EndDefined(plan, |items|, end, first, last, l);
    MarkedOrNot(plan.labels, l);
    if t: nat :| Marks(plan.labels, t, l) {
      Boundary(items, plan, t);
      PlacedOnce(plan, |items|, l, t);
    } else {
      PlacedOnce(plan, |items|, l, 0);
    }
  }

  lemma EndDefined(plan: Plan, size: nat, end: Option<nat>, first: nat, last: nat, l: nat)
    requires Fresh(plan.labels, size, end, first, last) && (end.Some? ==> end.value <= first)
    ensures Defs(EndLabel(plan, size, end), l) == if Marks(plan.labels, size, l) && Some(l) != end then 1 else 0
    ensures forall t: nat :: Marks(plan.labels, t, l) && Some(l) == end ==> t == size
  {
  }

  /** Only boundaries of the block carry labels, and the first is not one of them. */
  lemma Boundary(items: seq<Item>, plan: Plan, t: nat)
    requires Planned(items, plan, |items|) && t in plan.labels
    ensures 0 < t <= |items|
  {
    assert t in plan.targets.Values;
    var i :| i in plan.targets && plan.targets[i] == t;
    assert Eligible(items, i, t);
  }

  lemma {:induction false} AssembledPrefix(items: seq<Item>, plan: Plan, n: nat, m: nat)
    requires n <= m <= |items|
    ensures Assembled(items, plan, n) <= Assembled(items, plan, m)
    decreases m
  {
    if n < m {
      AssembledPrefix(items, plan, n, m - 1);
    }
  }

  lemma {:induction false} AssembledAt(items: seq<Item>, plan: Plan, n: nat, m: nat, lines: seq<Line>, lo: nat)
    requires n <= m <= |items| && At(lines, lo, Assembled(items, plan, m))
    ensures At(lines, lo, Assembled(items, plan, n))
    decreases m
  {
    if n < m {
      var upTo := Assembled(items, plan, m - 1) + LabelAt(plan, m - 1);
      AtSplits(lines, lo, upTo, LinesOf(items, plan, m - 1));
      AtSplits(lines, lo, Assembled(items, plan, m - 1), LabelAt(plan, m - 1));
      AssembledAt(items, plan, n, m - 1, lines, lo);
    }
  }

  /** Wherever the output stands, each item's lines stand after those of the items before
      it, right behind the label of its boundary if that is a target. */
  lemma {:induction false} LabelStands(items: seq<Item>, plan: Plan, end: Option<nat>, i: nat, lines: seq<Line>, lo: nat)
    requires i < |items| && At(lines, lo, Output(items, plan, end))
    ensures var at := lo + |Assembled(items, plan, i)|;
            At(lines, at, LabelAt(plan, i)) && At(lines, at + |LabelAt(plan, i)|, LinesOf(items, plan, i))
            && |Assembled(items, plan, i + 1)| == |Assembled(items, plan, i)| + |LabelAt(plan, i)| + |LinesOf(items, plan, i)|
  {
    AtSplits(lines, lo, Assembled(items, plan, |items|), EndLabel(plan, |items|, end));
    AssembledAt(items, plan, i + 1, |items|, lines, lo);
    OneMore(items, plan, i);
    AtThree(lines, lo, Assembled(items, plan, i), LabelAt(plan, i), LinesOf(items, plan, i), Assembled(items, plan, i + 1));
  }

  lemma AtThree(lines: seq<Line>, lo: nat, a: seq<Line>, b: seq<Line>, c: seq<Line>, all: seq<Line>)
    requires all == a + b + c && At(lines, lo, all)
    ensures At(lines, lo, a) && At(lines, lo + |a|, b) && At(lines, lo + |a| + |b|, c) && |all| == |a| + |b| + |c|
  {
    AtSplits(lines, lo, a + b, c);
    AtSplits(lines, lo, a, b);
  }

  lemma {:induction false} ItemEnds(items: seq<Item>, plan: Plan, i: nat, t: nat)
    requires i < t <= |items|
    ensures |Assembled(items, plan, i)| + |LabelAt(plan, i)| + |LinesOf(items, plan, i)| <= |Assembled(items, plan, t)|
  {
    AssembledPrefix(items, plan, i + 1, t);
  }

  /** So a branch only ever goes forward in the output, to one of the next eight boundaries:
      its target item starts at or after the end of its own lines. */
  lemma {:induction false} JumpsForward(items: seq<Item>, plan: Plan, i: nat)
    requires Planned(items, plan, |items|) && i in plan.targets
    ensures i < plan.targets[i] <= |items| && plan.targets[i] <= i + 8 && plan.targets[i] in plan.labels
    ensures |Assembled(items, plan, i)| + |LabelAt(plan, i)| + |LinesOf(items, plan, i)|
            <= |Assembled(items, plan, plan.targets[i])|
  {
    assert plan.targets[i] in plan.targets.Values;
    assert Eligible(items, i, plan.targets[i]);
    ItemEnds(items, plan, i, plan.targets[i]);
  }

  // --- Whole programs ---

  /** Lines whose labels lie in (lo, hi], are defined at most once, and are defined if used;
      a jump may be open only if `open`. */
  ghost predicate Labelled(lines: seq<Line>, lo: nat, hi: nat, open: bool) {
    (forall l: nat :: Defs(lines, l) <= 1 && (Defs(lines, l) > 0 ==> lo < l <= hi))
    && (forall x :: x in lines && Leaves(x) ==> if LabelOf(x).Some? then Defs(lines, LabelOf(x).value) == 1 else open)
  }

  /** The same of a list of items, taken together. */
  ghost predicate LabelledItems(items: seq<Item>, lo: nat, hi: nat) {
    (forall l: nat :: OwnDefs(items, l) <= 1 && (OwnDefs(items, l) > 0 ==> lo < l <= hi))
    && (forall i :: 0 <= i < |items| ==> JumpsKnown(items[i]))
  }

  /** The jumps of one item are defined inside it, or open in a branch. */
  ghost predicate JumpsKnown(item: Item) {
    forall x :: x in item.lines && Leaves(x) ==>
      if LabelOf(x).Some? then Defs(item.lines, LabelOf(x).value) == 1 else item.branch
  }

  lemma {:induction false} OwnOfPrefix(d: Count, items: seq<Item>, more: seq<Item>, n: nat)
    requires n <= |items| <= |more| && forall i :: 0 <= i < n ==> items[i] == more[i]
    ensures Own(d, items, n) == Own(d, more, n)
    decreases n
  {
    if n > 0 {
      OwnOfPrefix(d, items, more, n - 1);
    }
  }

  /** Items made one after the other keep their labels apart. */
  lemma {:induction false} ItemAdded(items: seq<Item>, item: Item, lo: nat, mid: nat, hi: nat)
    requires lo <= mid <= hi && LabelledItems(items, lo, mid) && Labelled(item.lines, mid, hi, item.branch)
    ensures LabelledItems(items + [item], lo, hi)
  {
    var more := items + [item];
    forall l: nat ensures OwnDefs(more, l) == OwnDefs(items, l) + Defs(item.lines, l) {
      OwnOfPrefix(DefsOf(l), items, more, |items|);
    }
    forall i | 0 <= i < |more| ensures JumpsKnown(more[i]) {
      assert i < |items| ==> more[i] == items[i];
    }
  }

  lemma {:induction false} OwnAtLeast(d: Count, items: seq<Item>, n: nat, i: nat)
    requires i < n <= |items|
    ensures Own(d, items, n) >= d(items[i].lines)
    decreases n
  {
    if i < n - 1 {
      OwnAtLeast(d, items, n - 1, i);
    }
  }

  /** Every jump of the output comes from an item. */
  lemma {:induction false} JumpOrigin(items: seq<Item>, plan: Plan, n: nat, x: Line) returns (i: nat)
    requires n <= |items| && x in Assembled(items, plan, n) && Leaves(x)
    ensures i < n && x in LinesOf(items, plan, i)
    decreases n
  {
    if x in LinesOf(items, plan, n - 1) {
      i := n - 1;
    } else {
      assert x !in LabelAt(plan, n - 1);
      i := JumpOrigin(items, plan, n - 1, x);
    }
  }

  /** A jump of an assembled item: its own, or the open one with the planned label. */
  lemma {:induction false} JumpTarget(items: seq<Item>, plan: Plan, i: nat, x: Line)
    requires Planned(items, plan, |items|) && i < |items| && JumpsKnown(items[i])
    requires x in LinesOf(items, plan, i) && Leaves(x)
    ensures LabelOf(x).Some?
    ensures Defs(items[i].lines, LabelOf(x).value) == 1 || LabelOf(x).value in plan.labels.Values
  {
    if i in plan.targets {
      assert plan.targets[i] in plan.targets.Values;
      var l := plan.labels[plan.targets[i]];
      assert l in plan.labels.Values;
      var k :| 0 <= k < |items[i].lines| && x == Fill(items[i].lines[k], l);
      assert items[i].lines[k] in items[i].lines;
    }
  }

  /** In the output of the resolver every label is defined at most once, and every jump has a
      label that is defined exactly once, or is the end label that the caller defines. */
  lemma {:induction false} OutputLabelled(items: seq<Item>, plan: Plan, end: Option<nat>, lo: nat, mid: nat, first: nat, last: nat)
    requires Planned(items, plan, |items|) && Fresh(plan.labels, |items|, end, first, last)
    requires lo <= mid <= first <= last && (end.Some? ==> mid < end.value <= first)
    requires LabelledItems(items, lo, mid)
    ensures var out := Output(items, plan, end);
            (forall l: nat :: Defs(out, l) <= 1 && (Defs(out, l) > 0 ==> lo < l <= mid || first < l <= last))
            && (forall x :: x in out && Leaves(x) ==>
                  LabelOf(x).Some? && (Defs(out, LabelOf(x).value) == 1 || LabelOf(x) == end))
  {
    var out := Output(items, plan, end);
    forall l: nat ensures Defs(out, l) <= 1 && (Defs(out, l) > 0 ==> lo < l <= mid || first < l <= last) {
      DefsOfOutput(items, plan, end, first, last, l);
      if l in plan.labels.Values && Some(l) != end {
        PlanLabel(plan.labels, |items|, end, first, last, l);
      }
    }
    forall x | x in out && Leaves(x)
      ensures LabelOf(x).Some? && (Defs(out, LabelOf(x).value) == 1 || LabelOf(x) == end)
    {
      assert x in Assembled(items, plan, |items|);
      var i := JumpOrigin(items, plan, |items|, x);
      JumpTarget(items, plan, i, x);
      var l := LabelOf(x).value;
      DefsOfOutput(items, plan, end, first, last, l);
      OwnAtLeast(DefsOf(l), items, |items|, i);
    }
  }

  lemma PlanLabel(labels: map<nat, nat>, size: nat, end: Option<nat>, first: nat, last: nat, l: nat)
    requires Fresh(labels, size, end, first, last) && l in labels.Values && Some(l) != end
    ensures first < l <= last
  {
  }
}
