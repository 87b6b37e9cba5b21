/** The random program generator: which lines each item may consist of. Random choices are
    arbitrary; instructions are reduced to the registers they read and write, the memory
    they address, and where they go. */
module Generator {
  import opened Words
  import opened Isa
  import opened Assembly
  import opened Flow
  import opened Labels
  import opened Blocks
  import opened Reach
  import opened Programs
  import Endings

  // ----- Sequences of lines -----

  /** What is known after the lines when only `taint` and `pending` are known before. */
  function Outcome(lines: seq<Line>, taint: set<Reg>, pending: bool): Option<Know> {
    Pass(Know(map[], taint, pending), lines)
  }

  /** Lines that keep off the reserved registers, obey the rules and leave the counters and
      the LR/SC pairing as they were. */
  ghost predicate Good(lines: seq<Line>, reserved: set<Reg>, taint: set<Reg>, pending: bool) {
    Plain(lines) && AllWrites(lines) !! reserved
    && var k := Outcome(lines, taint, pending);
       k.Some? && k.value.taint == taint && k.value.pending == pending
  }

  lemma WritesAppend(a: seq<Line>, b: seq<Line>)
    ensures AllWrites(a + b) == AllWrites(a) + AllWrites(b)
  {
    var c := a + b;
    forall r | r in AllWrites(c) ensures r in AllWrites(a) + AllWrites(b) {
      var i :| 0 <= i < |c| && r in WritesOf(c[i]);
      if i < |a| {
        assert a[i] == c[i];
      } else {
        assert b[i - |a|] == c[i];
      }
    }
    forall r | r in AllWrites(a) ensures r in AllWrites(c) {
      var i :| 0 <= i < |a| && r in WritesOf(a[i]);
      assert c[i] == a[i];
    }
    forall r | r in AllWrites(b) ensures r in AllWrites(c) {
      var i :| 0 <= i < |b| && r in WritesOf(b[i]);
      assert c[|a| + i] == b[i];
    }
  }

  lemma WritesOne(x: Line)
    ensures AllWrites([x]) == WritesOf(x)
  {
    assert [x][0] == x;
  }

  lemma {:induction false} GoodAppend(a: seq<Line>, b: seq<Line>, reserved: set<Reg>, taint: set<Reg>, pending: bool)
    requires Good(a, reserved, taint, pending) && Good(b, reserved, taint, pending)
    ensures Good(a + b, reserved, taint, pending)
  {
    var k := Know(map[], taint, pending);
    PassAppend(k, a, b);
    PassMore(k, Pass(k, a).value, b);
    WritesAppend(a, b);
  }

  lemma {:induction false} GoodOne(x: Line, reserved: set<Reg>, taint: set<Reg>, pending: bool)
    requires !x.Label? && !Leaves(x) && WritesOf(x) !! reserved
    requires var k := After(Know(map[], taint, pending), x);
             k.Some? && k.value.taint == taint && k.value.pending == pending
    ensures Good([x], reserved, taint, pending)
  {
    WritesOne(x);
    PassOne(Know(map[], taint, pending), x);
  }

  lemma {:induction false} PassOne(k: Know, x: Line)
    ensures Pass(k, [x]) == After(k, x)
  {
    if After(k, x).Some? {
      assert [x][1..] == [];
      assert Pass(After(k, x).value, []) == After(k, x);
    }
  }

  /** A register that no line writes keeps its fact. */
  lemma {:induction false} PassKeepsFact(k: Know, lines: seq<Line>, t: Reg)
    requires Plain(lines) && t in k.facts && t !in AllWrites(lines) && Pass(k, lines).Some?
    ensures t in Pass(k, lines).value.facts && Pass(k, lines).value.facts[t] == k.facts[t]
    decreases |lines|
  {
    if lines != [] {
      HeadWrites(lines);
      assert !lines[0].Label? && !Leaves(lines[0]);
      PassKeepsFact(After(k, lines[0]).value, lines[1..], t);
    }
  }

  lemma {:induction false} NoLabels(lines: seq<Line>, l: nat)
    requires forall i :: 0 <= i < |lines| ==> !lines[i].Label?
    ensures Defs(lines, l) == 0
    decreases |lines|
  {
    if lines != [] {
      NoLabels(lines[1..], l);
    }
  }

  // ----- Pieces -----

  /** The piece keeps off the reserved registers, obeys the rules, has labels of its own,
      and reaches past its own item if it branches. */
  ghost predicate Fine(p: Piece, reserved: set<Reg>, lo: nat, hi: nat) {
    Formed(p) && AllWrites(p.item.lines) !! reserved && Passes(p.item.lines)
    && (p.item.branch ==> p.item.size <= p.item.maxdist)
    && Labelled(p.item.lines, lo, hi, p.item.branch)
  }

  lemma {:induction false} StraightFine(lines: seq<Line>, size: nat, reserved: set<Reg>, lo: nat, hi: nat)
    requires Good(lines, reserved, {}, false) && size == ByteLen(lines)
    ensures Fine(Straight(Item(lines, size, false, 0)), reserved, lo, hi)
  {
    forall l: nat ensures Defs(lines, l) == 0 {
      NoLabels(lines, l);
    }
  }

  /** Lines that end in an open jump. */
  lemma {:induction false} BranchFine(init: seq<Line>, j: Line, size: nat, maxdist: nat, reserved: set<Reg>, lo: nat, hi: nat)
    requires Good(init, reserved, {}, false) && j.Jump? && j.open == None && WritesOf(j) !! reserved
    requires size == ByteLen(init) + BytesOf(j) && size <= maxdist <= High(j.form)
    ensures Fine(Branch(Item(init + [j], size, true, maxdist)), reserved, lo, hi)
  {
    var lines := init + [j];
    assert lines[..|lines| - 1] == init;
    forall l: nat ensures Defs(lines, l) == 0 {
      NoLabels(lines, l);
    }
    WritesAppend(init, [j]);
    WritesOne(j);
    OneLength(j);
    ByteLenAppend(init, [j]);
    PassOne(NOTHING, j);
    PassesAppend(init, [j]);
  }

  lemma {:induction false} OneLength(x: Line)
    ensures ByteLen([x]) == BytesOf(x)
  {
    assert [x][1..] == [] && ByteLen([]) == 0;
  }

  /** With few registers reserved there is always one to pick, even among x8 to x15. */
  lemma Available(reserved: set<Reg>) returns (r: Reg)
    requires |reserved| < 8
    ensures 8 <= r < 16 && r !in reserved
  {
    var eight: set<Reg> := {8, 9, 10, 11, 12, 13, 14, 15};
    assert |eight - reserved| > 0;
    r :| r in eight - reserved;
  }

  /** The registers an instruction with this destination changes. */
  function Dest(r: Reg): set<Reg> {
    if r == 0 then {} else {r}
  }

  /** The address and the immediate of a load or store of `width` bytes, before a bias or
      after it. */
  lemma {:induction false} MemAddrInside(j: nat, width: Width, imm: int)
    requires imm == width * j
    ensures j <= 1024 / width ==> Inside(Fact(0, 1024 - width, AlignOf(1024 - width)), 0 - imm, width)
    ensures 1024 / width <= j <= 2047 / width ==>
              Inside(Fact(-2048, -1024 - width, AlignOf(1024 - width)), imm, width)
  {
    if width == 1 {
    } else if width == 2 {
    } else {
      assert width == 4;
    }
  }

  /** The lines of an access: the address, perhaps biased, and the access itself. */
  function AccessLines(t: Reg, r: Reg, mask: Word, bias: bool, access: Line): seq<Line> {
    AddressPart(t, r, mask, bias) + [access]
  }

  lemma {:induction false} AccessLength(t: Reg, r: Reg, mask: Word, bias: bool, access: Line)
    ensures ByteLen(AccessLines(t, r, mask, bias, access)) == (if bias then 12 else 8) + BytesOf(access)
  {
    ByteLenAppend(AddressPart(t, r, mask, bias), [access]);
    ByteLenAppend([Address(t, Dest(r), mask)], [Bias(t)]);
    OneLength(access);
    OneLength(Address(t, Dest(r), mask));
    OneLength(Bias(t));
  }

  function AddressFact(mask: Word, bias: bool): Fact {
    if bias then Fact(-2048, mask - 2048, AlignOf(mask)) else Fact(0, mask, AlignOf(mask))
  }

  function AddressPart(t: Reg, r: Reg, mask: Word, bias: bool): seq<Line> {
    if bias then [Address(t, Dest(r), mask)] + [Bias(t)] else [Address(t, Dest(r), mask)]
  }

  /** What is known once the address is computed. */
  lemma {:induction false} AddressKnown(t: Reg, r: Reg, mask: Word, bias: bool, taint: set<Reg>, pending: bool)
    requires t !in taint && r !in taint
    ensures Outcome(AddressPart(t, r, mask, bias), taint, pending)
            == Some(Know(map[t := AddressFact(mask, bias)], taint, pending))
  {
    var k0, x := Know(map[], taint, pending), Address(t, Dest(r), mask);
    PassOne(k0, x);
    var k1 := After(k0, x).value;
    assert Without(k0.facts, {t}) == map[];
    assert taint - {t} == taint;
    assert k1 == Know(map[t := AddressFact(mask, false)], taint, pending);
    if bias {
      PassAppend(k0, [x], [Bias(t)]);
      PassOne(k1, Bias(t));
      assert k1.facts[t := AddressFact(mask, true)] == map[t := AddressFact(mask, true)];
    }
  }

  /** A load, store, AMO or lone SC.W whose immediate fits its address. */
  lemma {:induction false} AccessGood(
      t: Reg, r: Reg, mask: Word, bias: bool, access: Line, reserved: set<Reg>, taint: set<Reg>, pending: bool)
    requires t != 0 && t !in reserved && taint <= reserved && r !in taint
    requires access.Access? && access.t == t && access.outs !! reserved && access.ins !! taint
    requires Inside(AddressFact(mask, bias), access.imm, access.width)
    requires access.kind != LrKind && (pending ==> access.kind == LoadKind)
    ensures Good(AccessLines(t, r, mask, bias, access), reserved, taint, pending)
  {
    var head := AddressPart(t, r, mask, bias);
    AddressKnown(t, r, mask, bias, taint, pending);
    PassAppend(Know(map[], taint, pending), head, [access]);
    PassOne(Know(map[t := AddressFact(mask, bias)], taint, pending), access);
    assert taint - access.outs == taint;
    WritesAppend(head, [access]);
    WritesOne(access);
    AddressWrites(t, r, mask, bias);
  }

  lemma AddressWrites(t: Reg, r: Reg, mask: Word, bias: bool)
    ensures AllWrites(AddressPart(t, r, mask, bias)) == {t}
  {
    WritesOne(Address(t, Dest(r), mask));
    WritesOne(Bias(t));
    WritesAppend([Address(t, Dest(r), mask)], [Bias(t)]);
  }

  // ----- Pairs -----

  /** Lines that lead from one knowledge to another and keep off the reserved registers. */
  ghost predicate Leads(k: Know, lines: seq<Line>, k': Know, reserved: set<Reg>) {
    Pass(k, lines) == Some(k') && Plain(lines) && AllWrites(lines) !! reserved
  }

  lemma {:induction false} LeadsOn(k: Know, a: seq<Line>, k1: Know, b: seq<Line>, k2: Know, reserved: set<Reg>)
    requires Leads(k, a, k1, reserved) && Leads(k1, b, k2, reserved)
    ensures Leads(k, a + b, k2, reserved)
  {
    PassAppend(k, a, b);
    WritesAppend(a, b);
  }

  lemma {:induction false} LeadsOne(k: Know, x: Line, reserved: set<Reg>)
    requires !x.Label? && !Leaves(x) && WritesOf(x) !! reserved && After(k, x).Some?
    ensures Leads(k, [x], After(k, x).value, reserved)
  {
    PassOne(k, x);
    WritesOne(x);
  }

  /** `t` holds an address that a word access may use. */
  ghost predicate HoldsAddress(k: Know, t: Reg) {
    t in k.facts && Inside(k.facts[t], 0, 4)
  }

  /** Good lines keep an address they do not write, and what is known besides. */
  lemma {:induction false} GoodKeeps(k: Know, lines: seq<Line>, held: set<Reg>, reserved: set<Reg>, t: Reg) returns (k': Know)
    requires Good(lines, held, k.taint, k.pending) && t in held && reserved <= held
    ensures Leads(k, lines, k', reserved) && k'.taint == k.taint && k'.pending == k.pending
    ensures HoldsAddress(k, t) ==> HoldsAddress(k', t)
  {
    PassMore(Know(map[], k.taint, k.pending), k, lines);
    if t in k.facts {
      PassKeepsFact(k, lines, t);
    }
    k' := Pass(k, lines).value;
  }

  /** An address for an LR.W or SC.W. */
  lemma {:induction false} AddressLeads(k: Know, t: Reg, r: Reg, reserved: set<Reg>) returns (k': Know)
    requires k.taint == {} && t != 0 && t !in reserved
    ensures Leads(k, [Address(t, Dest(r), 0x3FC)], k', reserved)
    ensures k'.taint == {} && k'.pending == k.pending && HoldsAddress(k', t)
  {
    LeadsOne(k, Address(t, Dest(r), 0x3FC), reserved);
    k' := After(k, Address(t, Dest(r), 0x3FC)).value;
  }

  /** An LR.W or SC.W at an address that is there; it stays there unless rd overwrites it. */
  lemma {:induction false} PairLeads(kind: Kind, k: Know, t: Reg, ins: set<Reg>, rd: Reg, reserved: set<Reg>) returns (k': Know)
    requires k.taint == {} && HoldsAddress(k, t) && Dest(rd) !! reserved
    requires kind == ScKind || (kind == LrKind && !k.pending)
    ensures Leads(k, [Access(kind, t, 0, 4, ins, Dest(rd))], k', reserved)
    ensures k'.taint == {} && k'.pending == (kind == LrKind) && (rd != t ==> HoldsAddress(k', t))
  {
    LeadsOne(k, Access(kind, t, 0, 4, ins, Dest(rd)), reserved);
    k' := After(k, Access(kind, t, 0, 4, ins, Dest(rd))).value;
  }

  /** The end of a counter pair: read again, take the difference, and overwrite the first
      reading with it. */
  lemma {:induction false} DeltaLeads(k: Know, a: Reg, b: Reg, reserved: set<Reg>) returns (k': Know)
    requires k.taint == {a} && !k.pending && a != b && a !in reserved && b !in reserved
    ensures Leads(k, DeltaLines(a, b), k', reserved) && k'.taint == {} && !k'.pending
  {
    var x, y, z := Counter(b), Delta(b, a), Code({b}, {a});
    LeadsOne(k, x, reserved);
    var k1 := After(k, x).value;
    LeadsOne(k1, y, reserved);
    var k2 := After(k1, y).value;
    assert k2.taint == {a};
    LeadsOne(k2, z, reserved);
    k' := After(k2, z).value;
    LeadsOn(k1, [y], k2, [z], k', reserved);
    LeadsOn(k, [x], k1, [y] + [z], k', reserved);
  }

  function DeltaLines(a: Reg, b: Reg): seq<Line> {
    [Counter(b)] + ([Delta(b, a)] + [Code({b}, {a})])
  }

  /** The largest item but a loop: an LR.W with three loads behind it and two SC.W. */
  const MAX_ITEM: nat := 76

  class Gen {
    const base: Reg
    var reserved: set<Reg>
    var noread: set<Reg>
    var inLoop: bool
    const labels: Counter

    constructor (base: Reg)
      requires 3 <= base
      ensures this.base == base && reserved == {base} && noread == {} && !inLoop && fresh(labels) && labels.count == 0
    {
      this.base := base;
      reserved := {base};
      noread := {};
      inLoop := false;
      labels := new Counter();
    }

    /** Few registers are reserved, BASE and those that must not be read among them. */
    ghost predicate Valid()
      reads this
    {
      |reserved| < 8 && base in reserved && noread <= reserved && base !in noread && 0 !in reserved
    }

    /** A destination: x0 now and then, else any register that is not reserved. */
    method WReg() returns (r: Reg)
      requires Valid()
      ensures r !in reserved
    {
      if * {
        return 0;
      }
      r := Tmp(1, 31);
    }

    /** A temporary among `first` to `last`: not x0 and not reserved. */
    method Tmp(first: Reg, last: Reg) returns (r: Reg)
      requires Valid() && first <= 8 && 15 <= last
      ensures first <= r <= last && r != 0 && r !in reserved
    {
      ghost var some := Available(reserved);
      r :| first <= r <= last && r != 0 && r !in reserved;
    }

    /** A source: x0 now and then, else any register that may be read. */
    method RReg() returns (r: Reg)
      requires Valid()
      ensures r !in noread
    {
      if * {
        return 0;
      }
      r :| r != 0 && r !in noread;
    }

    // --- One item at a time ---

    /** Arithmetic, CSR accesses and fences, compressed instructions, and constants in two
        halves: sources, and perhaps a result. */
    method Compute(bytes: Size, ghost pending: bool) returns (lines: seq<Line>, size: nat)
      requires Valid()
      ensures Good(lines, reserved, noread, pending) && size == ByteLen(lines) == bytes
    {
      var a := RReg();
      var b := RReg();
      var rd := WReg();
      lines, size := [Code(Dest(a) + Dest(b), Dest(rd), bytes)], bytes;
      GoodOne(lines[0], reserved, noread, pending);
      OneLength(lines[0]);
    }

    /** The immediate of a load or store: not positive, or beyond 1023 after a bias. */
    method MemAddr(width: Width) returns (bias: bool, imm: int)
      ensures Inside(AddressFact(1024 - width, bias), imm, width)
    {
      bias := *;
      var j: nat;
      if bias {
        j :| 1024 / width <= j <= 2047 / width;
        imm := width * j;
        MemAddrInside(j, width, imm);
      } else {
        j :| j <= 1024 / width;
        imm := 0 - width * j;
        MemAddrInside(j, width, 0 - imm);
      }
    }

    /** A load at BASE + (r & mask) + imm. */
    method Load(ghost pending: bool) returns (lines: seq<Line>, size: nat)
      requires Valid()
      ensures Good(lines, reserved, noread, pending) && size == ByteLen(lines) <= 16
    {
      var width: Width :| true;
      var t := Tmp(1, 31);
      var r := RReg();
      var bias, imm := MemAddr(width);
      var rd := WReg();
      var access := Access(LoadKind, t, imm, width, {}, Dest(rd));
      AccessGood(t, r, 1024 - width, bias, access, reserved, noread, pending);
      AccessLength(t, r, 1024 - width, bias, access);
      lines, size := AccessLines(t, r, 1024 - width, bias, access), (if bias then 12 else 8) + 4;
    }

    method Store() returns (lines: seq<Line>, size: nat)
      requires Valid()
      ensures Good(lines, reserved, noread, false) && size == ByteLen(lines) <= 16
    {
      var width: Width :| true;
      var t := Tmp(1, 31);
      var r := RReg();
      var bias, imm := MemAddr(width);
      var source := RReg();
      var access := Access(StoreKind, t, imm, width, Dest(source), {});
      AccessGood(t, r, 1024 - width, bias, access, reserved, noread, false);
      AccessLength(t, r, 1024 - width, bias, access);
      lines, size := AccessLines(t, r, 1024 - width, bias, access), (if bias then 12 else 8) + 4;
    }

    /** Compressed loads and stores: a narrow address register with a short offset, or the
        stack pointer when it is not reserved. */
    method CompressedMemory() returns (lines: seq<Line>, size: nat)
      requires Valid()
      ensures Good(lines, reserved, noread, false) && size == ByteLen(lines) <= 16
    {
      var r := RReg();
      var source := RReg();
      var kind: Kind, ins: set<Reg>, outs: set<Reg> := StoreKind, Dest(source), {};
      if 2 !in reserved {
        var j: nat :| j < 64;
        if * {
          var rd := Tmp(1, 31);
          kind, ins, outs := LoadKind, {}, {rd};
        }
        var access := Access(kind, 2, 4 * j, 4, ins, outs, 2);
        AccessGood(2, r, 0x2FC, false, access, reserved, noread, false);
        AccessLength(2, r, 0x2FC, false, access);
        lines, size := AccessLines(2, r, 0x2FC, false, access), 10;
      } else {
        lines, size := Load(false);
      }
      if * {
        var t := Tmp(8, 15);
        var j: nat :| j < 32;
        kind, ins, outs := StoreKind, Dest(source), {};
        if * {
          var rd := Tmp(8, 15);
          kind, ins, outs := LoadKind, {}, {rd};
        }
        var access := Access(kind, t, 4 * j, 4, ins, outs, 2);
        AccessGood(t, r, 0x37C, false, access, reserved, noread, false);
        AccessLength(t, r, 0x37C, false, access);
        lines, size := AccessLines(t, r, 0x37C, false, access), 10;
      }
    }

    /** AMOs and a lone SC.W, at BASE + (r & 0x3FC). */
    method Atomic() returns (lines: seq<Line>, size: nat)
      requires Valid()
      ensures Good(lines, reserved, noread, false) && size == ByteLen(lines) == 12
    {
      var t := Tmp(1, 31);
      var r := RReg();
      var source := RReg();
      var rd := WReg();
      var kind := AmoKind;
      if * {
        kind := ScKind;
      }
      var access := Access(kind, t, 0, 4, Dest(source), Dest(rd));
      AccessGood(t, r, 0x3FC, false, access, reserved, noread, false);
      AccessLength(t, r, 0x3FC, false, access);
      lines, size := AccessLines(t, r, 0x3FC, false, access), 12;
    }

    /** Up to three items between the two halves of a pair; loads only if `loads`. */
    method Filler(loads: bool, ghost pending: bool) returns (lines: seq<Line>, size: nat)
      requires Valid()
      ensures Good(lines, reserved, noread, pending) && size == ByteLen(lines) <= 48
    {
      lines, size := [], 0;
      GoodNothing(reserved, noread, pending);
      var n: nat :| n <= 3;
      for k := 0 to n
        invariant Good(lines, reserved, noread, pending) && size == ByteLen(lines) <= 16 * k
      {
        var more, bytes;
        if {
          case loads => more, bytes := Load(pending);
          case true => more, bytes := Compute(4, pending);
        }
        GoodAppend(lines, more, reserved, noread, pending);
        ByteLenAppend(lines, more);
        lines, size := lines + more, size + bytes;
      }
    }

    /** LR.W, some items, and SC.W, perhaps at another address, and perhaps a second SC.W.
        The address registers are reserved meanwhile, so the second SC.W still finds its
        address whatever the first one writes. */
    method LrSc() returns (lines: seq<Line>, size: nat)
      requires Valid() && |reserved| <= 2 && noread == {}
      modifies this`reserved
      ensures reserved == old(reserved) && Good(lines, reserved, {}, false) && size == ByteLen(lines) <= 76
      ensures |lines| >= 3 && lines[1].Access? && lines[1].kind == LrKind
      ensures lines[|lines| - 1].Access? && lines[|lines| - 1].kind == ScKind
    {
      ghost var before := reserved;
      var t := Tmp(1, 31);
      var r := RReg();
      reserved := reserved + {t};
      var rd := WReg();
      var between, size1 := Filler(true, true);
      ghost var held := reserved;
      var scReg, elsewhere, size2 := ScAddress(t);
      var scs, size3 := ScItems(t, scReg);
      assert reserved == before;
      lines, size := LrLines(t, r, rd) + (between + elsewhere + scs), 12 + size1 + size2 + size3;
      PairFine(t, r, rd, between, held, before, scReg, elsewhere, scs, lines);
    }

    /** The SC.W's address register: the LR.W's, or another one with its own address. It stays
        reserved. */
    method ScAddress(t: Reg) returns (scReg: Reg, elsewhere: seq<Line>, size: nat)
      requires Valid() && |reserved| <= 3 && t in reserved && t != base && noread == {}
      modifies this`reserved
      ensures reserved == old(reserved) + {scReg} && scReg != base && size == ByteLen(elsewhere) <= 8
      ensures ScPlace(t, scReg, elsewhere, old(reserved))
    {
      scReg, elsewhere, size := t, [], 0;
      if * {
        scReg := Tmp(1, 31);
        var r := RReg();
        elsewhere, size := [Address(scReg, Dest(r), 0x3FC)], 8;
        OneLength(elsewhere[0]);
      }
      reserved := reserved + {scReg};
    }

    /** The SC.W, and perhaps a second one, which needs the address to survive the first. */
    method ScItems(t: Reg, scReg: Reg) returns (scs: seq<Line>, size: nat)
      requires Valid() && t in reserved && scReg in reserved && base !in {t, scReg} && noread == {}
      modifies this`reserved
      ensures reserved == old(reserved) - {t, scReg} && ScLines(scs, scReg, reserved) && size == ByteLen(scs) <= 8
    {
      var second := *;
      if !second {
        reserved := reserved - {t, scReg};
      }
      var rd1 := WReg();
      var source := RReg();
      scs, size := [ScLine(scReg, source, rd1)], 4;
      OneLength(scs[0]);
      if second {
        reserved := reserved - {t, scReg};
        var rd2 := WReg();
        var source' := RReg();
        OneLength(ScLine(scReg, source', rd2));
        ByteLenAppend(scs, [ScLine(scReg, source', rd2)]);
        scs, size := scs + [ScLine(scReg, source', rd2)], size + 4;
      }
    }

    /** Two readings of a counter with items between them. The first reading is reserved
        and must not be read until the difference is taken. */
    method CsrCounter() returns (lines: seq<Line>, size: nat)
      requires Valid() && |reserved| <= 2 && noread == {}
      modifies this`reserved, this`noread
      ensures reserved == old(reserved) && noread == {} && Good(lines, reserved, {}, false)
      ensures size == ByteLen(lines) <= 64
      ensures |lines| >= 4 && lines[0].Counter? && lines[|lines| - 2].Delta?
    {
      ghost var before := reserved;
      var a := Tmp(1, 31);
      reserved := reserved + {a};
      noread := {a};
      var b := Tmp(1, 31);
      var between, bytes := Filler(false, false);
      CounterPart(a, b, between, reserved, before);
      CounterLength(a, b, between);
      lines, size := [Counter(a)] + between + DeltaLines(a, b), 4 + bytes + 12;
      reserved := reserved - {a};
      assert reserved == before;
      noread := {};
    }

    /** Branches and jumps, with the link register only when it is not reserved. */
    method BranchItem(ghost lo: nat, ghost hi: nat) returns (p: Piece)
      requires Valid() && noread == {}
      ensures Fine(p, reserved, lo, hi) && p.Branch? && p.item.size <= MAX_ITEM
    {
      if {
        case true => p := DirectJump(lo, hi);
        case true => p := RegisterJump(lo, hi);
      }
    }

    method Link() returns (link: set<Reg>)
      requires Valid()
      ensures link !! reserved
    {
      link := if 1 in reserved then {} else {1};
      if * {
        link := {};
      }
    }

    /** A jump whose offset is in the instruction. */
    method DirectJump(ghost lo: nat, ghost hi: nat) returns (p: Piece)
      requires Valid() && noread == {}
      ensures Fine(p, reserved, lo, hi) && p.Branch? && p.item.size <= MAX_ITEM
    {
      var a := RReg();
      var b := RReg();
      var rd := WReg();
      var link := Link();
      var j, size, maxdist := Jump(Dest(a) + Dest(b), {}, BranchForm, None), 4, 3500;
      if {
        case true =>
        case true => j, size, maxdist := Jump(Dest(a), {}, ShortBranchForm, None), 2, 230;
        case true => j, maxdist := Jump({}, Dest(rd), JumpForm, None), 100000;
        case true => j, size, maxdist := Jump({}, link, ShortJumpForm, None), 2, 1800;
      }
      GoodNothing(reserved, {}, false);
      BranchFine([], j, size, maxdist, reserved, lo, hi);
      p := Branch(Item([] + [j], size, true, maxdist));
    }

    /** A jump through a register that was loaded with the address. */
    method RegisterJump(ghost lo: nat, ghost hi: nat) returns (p: Piece)
      requires Valid() && noread == {}
      ensures Fine(p, reserved, lo, hi) && p.Branch? && p.item.size <= MAX_ITEM
    {
      var t := Tmp(1, 31);
      var rd := WReg();
      var link := Link();
      var load, j, size := [Code({}, {t}, 8)], Jump({t}, Dest(rd), RegisterForm, None), 12;
      if * {
        j, size := Jump({t}, link, ShortRegisterForm, None), 10;
      }
      GoodOne(load[0], reserved, {}, false);
      OneLength(load[0]);
      BranchFine(load, j, size, 100000, reserved, lo, hi);
      p := Branch(Item(load + [j], size, true, 100000));
    }

    /** Any straight-line item. */
    method StraightItem(ghost lo: nat, ghost hi: nat) returns (p: Piece)
      requires Valid() && |reserved| <= 2 && noread == {}
      modifies this`reserved, this`noread
      ensures reserved == old(reserved) && noread == {} && Fine(p, reserved, lo, hi) && p.Straight? && p.item.size <= MAX_ITEM
    {
      var lines, size;
      if {
        case true => var bytes: Size :| bytes in {2, 4, 8}; lines, size := Compute(bytes, false);
        case true => lines, size := Load(false);
        case true => lines, size := Store();
        case true => lines, size := CompressedMemory();
        case true => lines, size := Atomic();
        case true => lines, size := LrSc();
        case true => lines, size := CsrCounter();
      }
      StraightFine(lines, size, reserved, lo, hi);
      p := Straight(Item(lines, size, false, 0));
    }

    // --- Blocks and loops ---

    /** At item boundaries only BASE and, in a loop, its counter are reserved. */
    ghost predicate AtBoundary()
      reads this
    {
      Valid() && |reserved| <= (if inLoop then 2 else 1) && noread == {}
    }

    /** A counted loop, or a plain item inside a loop: loops do not nest. The counter is
        reserved while the body is made. */
    method LoopItem() returns (p: Piece)
      requires AtBoundary()
      modifies this, labels
      ensures AtBoundary() && reserved == old(reserved) && inLoop == old(inLoop) && labels.count >= old(labels.count)
      ensures Fine(p, reserved, old(labels.count), labels.count)
      ensures if inLoop then p.Straight? && p.item.size <= MAX_ITEM else p.Loop?
      decreases if inLoop then 0 else 1, 1
    {
      if inLoop {
        var lines, bytes := Compute(4, false);
        StraightFine(lines, bytes, reserved, labels.count, labels.count);
        p := Straight(Item(lines, bytes, false, 0));
        return;
      }
      ghost var lo := labels.count;
      var c := Tmp(3, 31);
      var items, pieces := LoopBody(c);
      p := CloseLoop(c, items, pieces, lo);
    }

    /** The items of a loop, made while its counter is reserved. */
    method LoopBody(c: Reg) returns (items: seq<Item>, pieces: seq<Piece>)
      requires AtBoundary() && !inLoop && c !in reserved && c != 0
      modifies this, labels
      ensures AtBoundary() && reserved == old(reserved) && !inLoop && labels.count >= old(labels.count)
      ensures AllFine(items, pieces, reserved + {c}) && LabelledItems(items, old(labels.count), labels.count)
      ensures |items| <= 10 && forall i :: 0 <= i < |items| ==> items[i].size <= MAX_ITEM
      decreases 1, 0
    {
      ghost var before := reserved;
      var k: nat :| 1 <= k <= 10;
      reserved := reserved + {c};
      inLoop := true;
      items, pieces := BlockOf(k);
      inLoop := false;
      reserved := reserved - {c};
      assert reserved == before;
    }

    /** The loop around its items. */
    method CloseLoop(c: Reg, items: seq<Item>, pieces: seq<Piece>, ghost lo: nat) returns (p: Piece)
      requires c !in reserved && AllFine(items, pieces, reserved + {c})
      requires lo <= labels.count && LabelledItems(items, lo, labels.count)
      requires |items| <= 10 && forall i :: 0 <= i < |items| ==> items[i].size <= MAX_ITEM
      modifies labels
      ensures labels.count >= old(labels.count) && p.Loop? && Fine(p, reserved, lo, labels.count)
    {
      ghost var mid := labels.count;
      var n: Word :| 1 <= n <= 6;
      var top := labels.Next();
      var cont := labels.Next();
      var out, plan := Resolve(labels, items, Some(cont));
      var bodySize := Distance(items, 0, |items|) + 4;
      BodyBound(items);
      var short: bool :| short ==> 8 <= c <= 15 && bodySize < 200;
      var size := 8 + bodySize + if short then 2 else 4;
      var back := if short then ShortBranchForm else BranchForm;
      var lines := LoopLines(c, n, out.value, top, cont, back);
      p := Loop(Item(lines, size, false, 0), c, n, Block(pieces, plan), top, cont, back);
      LoopFine(p, items, reserved, lo, mid, labels.count);
    }

    method AnyItem() returns (p: Piece)
      requires AtBoundary()
      modifies this, labels
      ensures AtBoundary() && reserved == old(reserved) && inLoop == old(inLoop) && labels.count >= old(labels.count)
      ensures Fine(p, reserved, old(labels.count), labels.count) && (inLoop ==> p.item.size <= MAX_ITEM)
      decreases if inLoop then 0 else 1, 2
    {
      if {
        case true => p := StraightItem(labels.count, labels.count);
        case true => p := BranchItem(labels.count, labels.count);
        case true => p := LoopItem();
      }
    }

    /** A block of `n` items, none of which writes a register reserved at the start. */
    method BlockOf(n: nat) returns (items: seq<Item>, pieces: seq<Piece>)
      requires AtBoundary()
      modifies this, labels
      ensures AtBoundary() && reserved == old(reserved) && inLoop == old(inLoop) && labels.count >= old(labels.count)
      ensures |pieces| == n && AllFine(items, pieces, reserved)
      ensures inLoop ==> forall i :: 0 <= i < n ==> items[i].size <= MAX_ITEM
      ensures LabelledItems(items, old(labels.count), labels.count)
      decreases if inLoop then 0 else 1, 3
    {
      items, pieces := [], [];
      for i := 0 to n
        invariant AtBoundary() && reserved == old(reserved) && inLoop == old(inLoop) && labels.count >= old(labels.count)
        invariant |pieces| == i && AllFine(items, pieces, reserved)
        invariant inLoop ==> forall j :: 0 <= j < i ==> items[j].size <= MAX_ITEM
        invariant LabelledItems(items, old(labels.count), labels.count)
      {
        ghost var mid := labels.count;
        var p := AnyItem();
        ItemAdded(items, p.item, old(labels.count), mid, labels.count);
        items, pieces := items + [p.item], pieces + [p];
      }
    }

    // --- The end of a program ---

    /** ECALL, EBREAK, or a fault of some kind. */
    method Terminator() returns (e: Endings.Ending)
      requires Valid()
      ensures Endings.AlwaysEnds(e, base)
    {
      if {
        case true =>
          var op: OpI :| op == ECALL || op == EBREAK;
          Endings.StopEnds(op, base);
          e := Endings.Single(Instruction(I(op), raw := 0));
        case true => e := MisalignedEnding();
        case true => e := MisalignedAtomicEnding();
        case true => e := UnmappedEnding();
        case true => e := UnmappedAtomicEnding();
        case true => e := UnmappedJumpEnding();
        case true => e := CsrEnding();
        case true =>
          var word: Word :| word in Endings.RESERVED_32;
          Endings.ReservedWordEnds(word, base);
          e := Endings.ReservedWord(word);
        case true =>
          var raw: Word :| raw in Endings.RESERVED_16;
          Endings.ReservedHalfwordEnds(raw, base);
          e := Endings.ReservedHalfword(raw);
      }
    }

    /** A load or store near BASE, off its alignment. */
    method MisalignedEnding() returns (e: Endings.Ending)
      requires Valid()
      ensures Endings.AlwaysEnds(e, base)
    {
      var op, w := SomeAccess();
      if w == 1 {
        op, w := LW, 4;
      }
      var rd := WReg();
      var rs := RReg();
      var j: int :| -100 <= j <= 100;
      var m: nat :| 0 < m < w;
      Endings.MisalignedEnds(op, w, j, m, rd, rs, base);
      e := Endings.Single(Instruction(I(op), rd := rd, rs1 := base, rs2 := rs, imm := w * j + m, raw := 0));
    }

    /** A load or store and its width. */
    method SomeAccess() returns (op: OpI, w: Width)
      ensures Endings.IsLoad(op, w) || Endings.IsStore(op, w)
    {
      if {
        case true => op, w := LB, 1;
        case true => op, w := LBU, 1;
        case true => op, w := LH, 2;
        case true => op, w := LHU, 2;
        case true => op, w := LW, 4;
        case true => op, w := SB, 1;
        case true => op, w := SH, 2;
        case true => op, w := SW, 4;
      }
    }

    method MisalignedAtomicEnding() returns (e: Endings.Ending)
      requires Valid()
      ensures Endings.AlwaysEnds(e, base)
    {
      var t := Tmp(1, 31);
      var rd := WReg();
      var rs := RReg();
      var op: OpA :| op in {AMOADD_W, AMOSWAP_W, LR_W, SC_W};
      var source := if op == LR_W then 0 else rs;
      var c: Int32 :| c in {1, 2, 3, -1, -2, 6};
      Endings.MisalignedAtomicEnds(op, t, c, rd, source, base);
      e := Endings.Prepared(Endings.AddImmediate(t, base, c), Instruction(A(op), rd := rd, rs1 := t, rs2 := source, raw := 0));
    }

    /** The upper part of an address beyond memory. */
    method Upper() returns (hi: nat)
      ensures Endings.Beyond(hi)
    {
      hi :| 0x50 <= hi <= 0xF_FFFF;
    }

    method UnmappedEnding() returns (e: Endings.Ending)
      requires Valid()
      ensures Endings.AlwaysEnds(e, base)
    {
      var t := Tmp(1, 31);
      var rd := WReg();
      var rs := RReg();
      var hi := Upper();
      var op, w := SomeAccess();
      var off: Int32 :| off in {0, 4, 8, 2047};
      Endings.UnmappedEnds(op, w, t, hi, off, rd, rs, base);
      e := Endings.Prepared(Endings.LoadUpper(t, hi), Instruction(I(op), rd := rd, rs1 := t, rs2 := rs, imm := off, raw := 0));
    }

    method UnmappedAtomicEnding() returns (e: Endings.Ending)
      requires Valid()
      ensures Endings.AlwaysEnds(e, base)
    {
      var t := Tmp(1, 31);
      var rd := WReg();
      var rs := RReg();
      var hi := Upper();
      var op: OpA :| op in {AMOOR_W, LR_W, SC_W};
      var source := if op == LR_W then 0 else rs;
      Endings.UnmappedAtomicEnds(op, t, hi, rd, source, base);
      e := Endings.Prepared(Endings.LoadUpper(t, hi), Instruction(A(op), rd := rd, rs1 := t, rs2 := source, raw := 0));
    }

    method UnmappedJumpEnding() returns (e: Endings.Ending)
      requires Valid()
      ensures Endings.AlwaysEnds(e, base)
    {
      var t := Tmp(1, 31);
      var rd := WReg();
      var hi := Upper();
      var off: Int32 :| off in {0, 2, 4};
      Endings.UnmappedJumpEnds(t, hi, off, rd, base);
      e := Endings.Prepared(Endings.LoadUpper(t, hi), Instruction(I(JALR), rd := rd, rs1 := t, imm := off, raw := 0));
    }

    /** A write to a counter, which is read-only, or a CSR that there is not. */
    method CsrEnding() returns (e: Endings.Ending)
      requires Valid()
      ensures Endings.AlwaysEnds(e, base)
    {
      var rd := WReg();
      var rs := RReg();
      var op, number, operand := CSRRW, 0xC00, rs;
      if {
        case true =>
        case true => rd, op, number, operand := 0, CSRRWI, 0xC02, 0;
        case true => op, number, operand := CSRRSI, 0xC80, 1;
        case true => op, number, operand := CSRRC, 0xC82, if rs == 0 then 1 else rs;
        case true => op, operand := CSRRS, 0; number :| number in {0x7C0, 0xC03, 0x8FF};
      }
      Endings.CsrEnds(op, number, rd, operand, base);
      e := Endings.Single(Instruction(Csr(op), rd := rd, rs1 := operand, imm := Endings.CsrImmediate(number), raw := 0));
    }

    // --- Whole programs ---

    /** The values of x1 to x31. */
    method Values() returns (lines: seq<Line>, values: seq<Word>)
      ensures |values| == 31 && lines == Constants(values)
    {
      lines, values := [], [];
      for r := 0 to 31
        invariant |values| == r && lines == Constants(values)
      {
        var v: Word :| true;
        assert Constants(values + [v]) == lines + [Set(r + 1, v)];
        lines, values := lines + [Set(r + 1, v)], values + [v];
      }
    }

    /** The prologue: every register gets a value, mscratch that of one of them, and BASE the
        address. */
    method Front(addr: Word) returns (lines: seq<Line>, values: seq<Word>, source: Reg)
      ensures |values| == 31 && lines == Prologue(values, source, base, addr)
    {
      lines, values := Values();
      source :| source != 0;
      lines := lines + [Code({source}, {}), Set(base, 0), Set(base, addr)];
    }

    /** The lines of `n` items. Resolving never fails; the lines are those of a formed block,
        every label they use is defined exactly once, and they are lawful. */
    method Body(n: nat) returns (lines: seq<Line>, block: Block)
      requires AtBoundary() && !inLoop
      modifies this, labels
      ensures AtBoundary() && reserved == old(reserved)
      ensures |block.pieces| == n && FormedBlock(block, None) && lines == BlockLines(block, None)
      ensures Unique(lines) && forall x :: x in lines && Leaves(x) ==> LabelOf(x).Some? && Defs(lines, LabelOf(x).value) == 1
      ensures Lawful(lines, base) && Passes(lines)
    {
      ghost var lo := labels.count;
      var items, pieces := BlockOf(n);
      ghost var mid := labels.count;
      var out, plan := Resolve(labels, items, None);
      lines, block := out.value, Block(pieces, plan);
      OutputLabelled(items, plan, None, lo, mid, mid, labels.count);
      BlockFine(block, items, None, reserved);
      ProgramLawful(lines, base);
    }

    /** A whole program of `n` items, with the data region around `addr`: the prologue, the
        items and an ending. It is well made, so it ends and obeys the rules however it runs;
        its branches and jumps can be encoded; and its ending ends it in every state of the
        machine. */
    method Program(n: nat, addr: Word)
      returns (lines: seq<Line>, values: seq<Word>, source: Reg, block: Block, ending: Endings.Ending)
      requires AtBoundary() && !inLoop && Region(addr)
      modifies this, labels
      ensures |block.pieces| == n && WellMade(lines, values, source, base, addr, block)
      ensures AlwaysRunsWell(lines, 34 + StepsFrom(block, 0), base, addr)
      ensures AllEncodable(lines)
      ensures Endings.AlwaysEnds(ending, base)
    {
      var front, body;
      front, values, source := Front(addr);
      body, block := Body(n);
      lines := front + body;
      ending := Terminator();
      ProgramFine(lines, values, source, base, addr, block);
    }
  }

  lemma {:induction false} ProgramFine(lines: seq<Line>, values: seq<Word>, source: Reg, base: Reg, addr: Word, b: Block)
    requires WellMade(lines, values, source, base, addr, b) && Region(addr)
    ensures AlwaysRunsWell(lines, 34 + StepsFrom(b, 0), base, addr)
    ensures AllEncodable(lines)
  {
    forall s, w: World | Boots(s) && w.base == base ensures RunsWell(lines, 34 + StepsFrom(b, 0), s, w, addr) {
      WellMadeRunsWell(lines, values, source, addr, b, s, w);
    }
    PrologueIsPlain(values, source, base, addr);
    forall k | 0 <= k < |lines| ensures FitsAt(Bytes(), lines, k) {
      ProgramEncodable(Prologue(values, source, base, addr), b, lines, k);
    }
  }

  /** Items and pieces go together, and every piece is fine. */
  ghost predicate AllFine(items: seq<Item>, pieces: seq<Piece>, reserved: set<Reg>) {
    |items| == |pieces|
    && forall i :: 0 <= i < |items| ==>
         items[i] == pieces[i].item && Formed(pieces[i]) && AllWrites(items[i].lines) !! reserved
         && Passes(items[i].lines) && (items[i].branch ==> items[i].size <= items[i].maxdist)
  }

  /** The body of a loop has as many bytes as the resolver counts. */
  lemma {:induction false} BodyLength(items: seq<Item>, pieces: seq<Piece>, reserved: set<Reg>, plan: Plan, end: Option<nat>)
    requires AllFine(items, pieces, reserved)
    ensures ByteLen(Output(items, plan, end)) == Distance(items, 0, |items|)
  {
    BytesMeasure();
    forall i | 0 <= i < |items| ensures items[i].size == Bytes()(items[i].lines) {
      assert Formed(pieces[i]);
    }
    OutputLength(Bytes(), items, plan, end);
  }

  /** The body of a loop is short enough for the loop's branch back. */
  lemma BodyBound(items: seq<Item>)
    requires |items| <= 10 && forall i :: 0 <= i < |items| ==> items[i].size <= MAX_ITEM
    ensures Distance(items, 0, |items|) <= 760
  {
    DistanceBound(items, |items|, MAX_ITEM);
  }

  lemma {:induction false} DistanceBound(items: seq<Item>, n: nat, most: nat)
    requires n <= |items| && forall i :: 0 <= i < |items| ==> items[i].size <= most
    ensures Distance(items, 0, n) <= most * n
    decreases n
  {
    if n > 0 {
      DistanceBound(items, n - 1, most);
      assert most * n == most * (n - 1) + most;
    }
  }

  lemma GoodNothing(reserved: set<Reg>, taint: set<Reg>, pending: bool)
    ensures Good([], reserved, taint, pending)
  {
    assert AllWrites([]) == {};
  }

  lemma {:induction false} PassFilled(k: Know, lines: seq<Line>, l: nat)
    ensures Pass(k, FillAll(lines, l)) == Pass(k, lines)
    decreases |lines|
  {
    if lines != [] {
      var k' := After(k, lines[0]);
      assert After(k, Fill(lines[0], l)) == k';
      if k'.Some? {
        PassFilled(k'.value, lines[1..], l);
        assert FillAll(lines, l)[1..] == FillAll(lines[1..], l);
      }
    }
  }

  lemma {:induction false} LabelPasses(l: nat)
    ensures Passes([Label(l)]) && AllWrites([Label(l)]) == {}
  {
    PassOne(NOTHING, Label(l));
    WritesOne(Label(l));
  }

  lemma {:induction false} CleanAppend(a: seq<Line>, b: seq<Line>, both: seq<Line>, reserved: set<Reg>)
    requires both == a + b && Passes(a) && Passes(b) && AllWrites(a) !! reserved && AllWrites(b) !! reserved
    ensures Passes(both) && AllWrites(both) !! reserved
  {
    PassesAppend(a, b);
    WritesAppend(a, b);
  }

  lemma {:induction false} OneItemFine(items: seq<Item>, plan: Plan, m: nat, a: seq<Line>, all: seq<Line>, reserved: set<Reg>)
    requires m < |items| && AllWrites(items[m].lines) !! reserved && Passes(items[m].lines)
    requires Passes(a) && AllWrites(a) !! reserved && all == a + LabelAt(plan, m) + LinesOf(items, plan, m)
    ensures Passes(all) && AllWrites(all) !! reserved
  {
    LabelFine(plan, m, reserved);
    LinesFine(items, plan, m, reserved);
    var b, c := LabelAt(plan, m), LinesOf(items, plan, m);
    CleanAppend(a, b, a + b, reserved);
    CleanAppend(a + b, c, all, reserved);
  }

  /** Assembled items that pass one by one pass together, and write what they write. */
  lemma {:induction false} AssembledFine(items: seq<Item>, plan: Plan, n: nat, reserved: set<Reg>, all: seq<Line>)
    requires n <= |items| && forall i :: 0 <= i < |items| ==> AllWrites(items[i].lines) !! reserved && Passes(items[i].lines)
    requires all == Assembled(items, plan, n)
    ensures Passes(all) && AllWrites(all) !! reserved
    decreases n
  {
    if n == 0 {
      assert AllWrites([]) == {};
    } else {
      var a := Assembled(items, plan, n - 1);
      AssembledFine(items, plan, n - 1, reserved, a);
      OneItemFine(items, plan, n - 1, a, all, reserved);
    }
  }

  lemma {:induction false} LabelFine(plan: Plan, t: nat, reserved: set<Reg>)
    ensures Passes(LabelAt(plan, t)) && AllWrites(LabelAt(plan, t)) !! reserved
  {
    if t in plan.labels {
      LabelPasses(plan.labels[t]);
    } else {
      assert AllWrites([]) == {};
    }
  }

  lemma {:induction false} LinesFine(items: seq<Item>, plan: Plan, i: nat, reserved: set<Reg>)
    requires i < |items| && AllWrites(items[i].lines) !! reserved && Passes(items[i].lines)
    ensures Passes(LinesOf(items, plan, i)) && AllWrites(LinesOf(items, plan, i)) !! reserved
  {
    if i in plan.targets && plan.targets[i] in plan.labels {
      var l := plan.labels[plan.targets[i]];
      PassFilled(NOTHING, items[i].lines, l);
      FilledWrites(items[i].lines, l);
    }
  }

  lemma {:induction false} OutputFine(items: seq<Item>, plan: Plan, end: Option<nat>, reserved: set<Reg>)
    requires forall i :: 0 <= i < |items| ==> AllWrites(items[i].lines) !! reserved && Passes(items[i].lines)
    ensures Passes(Output(items, plan, end)) && AllWrites(Output(items, plan, end)) !! reserved
  {
    var a, e := Assembled(items, plan, |items|), EndLabel(plan, |items|, end);
    AssembledFine(items, plan, |items|, reserved, a);
    if e == [] {
      assert AllWrites(e) == {};
    } else {
      LabelPasses(plan.labels[|items|]);
    }
    CleanAppend(a, e, Output(items, plan, end), reserved);
  }

  /** A block of fine pieces with a plan for its branches. */
  lemma {:induction false} BlockFine(b: Block, items: seq<Item>, end: Option<nat>, reserved: set<Reg>)
    requires AllFine(items, b.pieces, reserved) && Planned(items, b.plan, |items|)
    requires end.Some? && |items| in b.plan.labels ==> b.plan.labels[|items|] == end.value
    ensures Items(b) == items && FormedBlock(b, end)
    ensures Passes(BlockLines(b, end)) && AllWrites(BlockLines(b, end)) !! reserved
  {
    assert Items(b) == items;
    OutputFine(items, b.plan, end, reserved);
  }

  /** A loop whose body was made while its counter was reserved. */
  lemma {:induction false} LoopFine(p: Piece, items: seq<Item>, reserved: set<Reg>, lo: nat, mid: nat, hi: nat)
    requires p.Loop? && !p.item.branch && p.rounds >= 1 && p.counter !in reserved
    requires AllFine(items, p.body.pieces, reserved + {p.counter}) && LabelledItems(items, lo, mid)
    requires lo <= mid && p.top == mid + 1 && p.cont == mid + 2 && mid + 2 <= hi
    requires Planned(items, p.body.plan, |items|) && Fresh(p.body.plan.labels, |items|, Some(p.cont), mid + 2, hi)
    requires p.item.lines == LoopLines(p.counter, p.rounds, Output(items, p.body.plan, Some(p.cont)), p.top, p.cont, p.back)
    requires var n := Distance(items, 0, |items|);
             p.item.size == 12 + n + FormBytes(p.back) && n + 4 <= -Low(p.back)
    ensures Fine(p, reserved, lo, hi)
  {
    BodyLength(items, p.body.pieces, reserved + {p.counter}, p.body.plan, Some(p.cont));
    var body := Output(items, p.body.plan, Some(p.cont));
    BlockFine(p.body, items, Some(p.cont), reserved + {p.counter});
    OutputLabelled(items, p.body.plan, Some(p.cont), lo, mid, mid + 2, hi);
    LoopLabelled(p.counter, p.rounds, body, p.top, p.cont, p.back, lo, mid, hi);
    LoopPasses(p.counter, p.rounds, body, p.top, p.cont, p.back, reserved);
    LoopLength(p.counter, p.rounds, body, p.top, p.cont, p.back);
  }

  lemma {:induction false} LoopLength(c: Reg, n: Word, body: seq<Line>, top: nat, cont: nat, form: Form)
    ensures ByteLen(LoopLines(c, n, body, top, cont, form)) == 12 + ByteLen(body) + FormBytes(form)
  {
    ByteLenAppend([Set(c, n), Label(top)], body + [Label(cont), Decrement(c), Back(c, top, form)]);
    ByteLenAppend(body, [Label(cont), Decrement(c), Back(c, top, form)]);
    ByteLenAppend([Set(c, n)], [Label(top)]);
    ByteLenAppend([Label(cont)], [Decrement(c)] + [Back(c, top, form)]);
    ByteLenAppend([Decrement(c)], [Back(c, top, form)]);
    OneLength(Set(c, n));
    OneLength(Label(top));
    OneLength(Label(cont));
    OneLength(Decrement(c));
    OneLength(Back(c, top, form));
    assert [Set(c, n)] + [Label(top)] == [Set(c, n), Label(top)];
    assert [Label(cont)] + ([Decrement(c)] + [Back(c, top, form)]) == [Label(cont), Decrement(c), Back(c, top, form)];
  }

  lemma {:induction false} LoopPasses(c: Reg, n: Word, body: seq<Line>, top: nat, cont: nat, form: Form, reserved: set<Reg>)
    requires Passes(body) && AllWrites(body) !! reserved + {c} && c !in reserved
    ensures Passes(LoopLines(c, n, body, top, cont, form)) && AllWrites(LoopLines(c, n, body, top, cont, form)) !! reserved
  {
    var set', dec, back := Set(c, n), Decrement(c), Back(c, top, form);
    PassOne(NOTHING, set');
    PassOne(NOTHING, dec);
    PassOne(NOTHING, back);
    LabelPasses(top);
    LabelPasses(cont);
    WritesOne(set');
    WritesOne(dec);
    WritesOne(back);
    PassesAppend([set'], [Label(top)]);
    WritesAppend([set'], [Label(top)]);
    PassesAppend([Label(cont)], [dec]);
    WritesAppend([Label(cont)], [dec]);
    PassesAppend([Label(cont)] + [dec], [back]);
    WritesAppend([Label(cont)] + [dec], [back]);
    var head, tail := [set', Label(top)], [Label(cont), dec, back];
    assert head == [set'] + [Label(top)] && tail == [Label(cont)] + [dec] + [back];
    PassesAppend(body, tail);
    WritesAppend(body, tail);
    PassesAppend(head, body + tail);
    WritesAppend(head, body + tail);
  }

  lemma {:induction false} LoopDefs(c: Reg, n: Word, body: seq<Line>, top: nat, cont: nat, form: Form, l: nat)
    ensures Defs(LoopLines(c, n, body, top, cont, form), l)
            == Defs(body, l) + (if l == top then 1 else 0) + (if l == cont then 1 else 0)
  {
    var head, tail := [Set(c, n), Label(top)], [Label(cont), Decrement(c), Back(c, top, form)];
    DefsAppend(head, body + tail, l);
    DefsAppend(body, tail, l);
    assert head[1..] == [Label(top)] && head[1..][1..] == [];
    assert tail[1..] == [Decrement(c), Back(c, top, form)] && tail[1..][1..] == [Back(c, top, form)] && tail[1..][1..][1..] == [];
    assert Defs([Label(top)], l) == (if l == top then 1 else 0);
    assert Defs([Back(c, top, form)], l) == 0;
  }

  lemma {:induction false} LoopLabelled(c: Reg, n: Word, body: seq<Line>, top: nat, cont: nat, form: Form, lo: nat, mid: nat, hi: nat)
    requires lo <= mid && mid + 2 <= hi && top == mid + 1 && cont == mid + 2
    requires forall l: nat :: Defs(body, l) <= 1 && (Defs(body, l) > 0 ==> lo < l <= mid || mid + 2 < l <= hi)
    requires forall x :: x in body && Leaves(x) ==>
               LabelOf(x).Some? && (Defs(body, LabelOf(x).value) == 1 || LabelOf(x) == Some(cont))
    ensures Labelled(LoopLines(c, n, body, top, cont, form), lo, hi, false)
  {
    var lines := LoopLines(c, n, body, top, cont, form);
    forall l: nat
      ensures Defs(lines, l) == Defs(body, l) + (if l == top then 1 else 0) + (if l == cont then 1 else 0)
    {
      LoopDefs(c, n, body, top, cont, form, l);
    }
    forall x | x in lines && Leaves(x)
      ensures LabelOf(x).Some? && Defs(lines, LabelOf(x).value) == 1
    {
      if x in body {
        assert Defs(body, LabelOf(x).value) == 1 || LabelOf(x) == Some(cont);
      }
    }
  }

  /** Lines that pass, keep off BASE and define what they use are lawful. */
  lemma {:induction false} ProgramLawful(lines: seq<Line>, base: Reg)
    requires Passes(lines) && base !in AllWrites(lines)
    requires forall x :: x in lines && Leaves(x) ==> LabelOf(x).Some? && Defs(lines, LabelOf(x).value) == 1
    ensures Lawful(lines, base)
  {
    forall i | 0 <= i < |lines|
      ensures base !in WritesOf(lines[i]) && TargetsDefined(lines, lines[i])
    {
      var x := lines[i];
      assert x in lines;
      if Leaves(x) {
        DefinedSomewhere(lines, LabelOf(x).value);
      }
    }
  }

  function ScLine(t: Reg, source: Reg, rd: Reg): Line {
    Access(ScKind, t, 0, 4, Dest(source), Dest(rd))
  }

  function LrLines(t: Reg, r: Reg, rd: Reg): seq<Line> {
    [Address(t, Dest(r), 0x3FC)] + [Access(LrKind, t, 0, 4, {}, Dest(rd))]
  }

  /** The SC.W goes to the LR.W's address, or to one that is computed for it. */
  ghost predicate ScPlace(t: Reg, scReg: Reg, elsewhere: seq<Line>, held: set<Reg>) {
    (scReg == t && elsewhere == [])
    || (scReg != 0 && scReg !in held && exists r: Reg :: elsewhere == [Address(scReg, Dest(r), 0x3FC)])
  }

  /** Up to the SC.W: its address register holds an address. */
  lemma {:induction false} LrPart(
      t: Reg, r: Reg, rd: Reg, between: seq<Line>, held: set<Reg>, reserved: set<Reg>, scReg: Reg, elsewhere: seq<Line>)
    returns (k: Know)
    requires t != 0 && t !in reserved && held == reserved + {t} && Dest(rd) !! held && Good(between, held, {}, true)
    requires ScPlace(t, scReg, elsewhere, held)
    ensures Leads(NOTHING, LrLines(t, r, rd) + between + elsewhere, k, reserved)
    ensures k.taint == {} && k.pending && HoldsAddress(k, scReg)
  {
    var x, y := [Address(t, Dest(r), 0x3FC)], [Access(LrKind, t, 0, 4, {}, Dest(rd))];
    var k0 := AddressLeads(NOTHING, t, r, reserved);
    var k1 := PairLeads(LrKind, k0, t, {}, rd, reserved);
    LeadsOn(NOTHING, x, k0, y, k1, reserved);
    k := GoodKeeps(k1, between, held, reserved, t);
    LeadsOn(NOTHING, x + y, k1, between, k, reserved);
    if elsewhere == [] {
      assert x + y + between + elsewhere == x + y + between;
    } else {
      var r': Reg :| elsewhere == [Address(scReg, Dest(r'), 0x3FC)];
      var k2 := AddressLeads(k, scReg, r', reserved);
      LeadsOn(NOTHING, x + y + between, k, elsewhere, k2, reserved);
      k := k2;
    }
  }

  /** One SC.W, or two of which the first does not overwrite the address. */
  ghost predicate ScLines(scs: seq<Line>, t: Reg, reserved: set<Reg>) {
    1 <= |scs| <= 2
    && (forall i :: 0 <= i < |scs| ==> exists source, rd: Reg ::
          scs[i] == ScLine(t, source, rd) && rd !in reserved && (i + 1 < |scs| ==> rd != t))
  }

  lemma {:induction false} ScPart(k: Know, lines: seq<Line>, t: Reg, scs: seq<Line>, reserved: set<Reg>) returns (k': Know)
    requires Leads(NOTHING, lines, k, reserved) && k.taint == {} && HoldsAddress(k, t) && ScLines(scs, t, reserved)
    ensures Leads(NOTHING, lines + scs, k', reserved) && k'.taint == {} && !k'.pending
  {
    var source, rd: Reg :| scs[0] == ScLine(t, source, rd) && rd !in reserved && (1 < |scs| ==> rd != t);
    k' := PairLeads(ScKind, k, t, Dest(source), rd, reserved);
    LeadsOn(NOTHING, lines, k, [scs[0]], k', reserved);
    if |scs| == 1 {
      assert scs == [scs[0]];
    } else {
      var source', rd': Reg :| scs[1] == ScLine(t, source', rd') && rd' !in reserved;
      var k2 := PairLeads(ScKind, k', t, Dest(source'), rd', reserved);
      LeadsOn(NOTHING, lines + [scs[0]], k', [scs[1]], k2, reserved);
      assert lines + [scs[0]] + [scs[1]] == lines + scs;
      k' := k2;
    }
  }

  lemma {:induction false} PairGood(
      t: Reg, r: Reg, rd: Reg, between: seq<Line>, held: set<Reg>, reserved: set<Reg>, scReg: Reg,
      elsewhere: seq<Line>, scs: seq<Line>)
    requires t != 0 && t !in reserved && held == reserved + {t} && Dest(rd) !! held && Good(between, held, {}, true)
    requires ScPlace(t, scReg, elsewhere, held)
    requires ScLines(scs, scReg, reserved)
    ensures Good(LrLines(t, r, rd) + (between + elsewhere + scs), reserved, {}, false)
  {
    var k := LrPart(t, r, rd, between, held, reserved, scReg, elsewhere);
    var k' := ScPart(k, LrLines(t, r, rd) + between + elsewhere, scReg, scs, reserved);
    assert LrLines(t, r, rd) + (between + elsewhere + scs) == LrLines(t, r, rd) + between + elsewhere + scs;
  }

  /** The first LR.W and the last SC.W. */
  lemma {:induction false} PairEnds(t: Reg, r: Reg, rd: Reg, mid: seq<Line>, scs: seq<Line>, scReg: Reg, reserved: set<Reg>)
    requires ScLines(scs, scReg, reserved)
    ensures var lines := LrLines(t, r, rd) + (mid + scs);
            |lines| >= 3 && lines[1].Access? && lines[1].kind == LrKind
            && lines[|lines| - 1].Access? && lines[|lines| - 1].kind == ScKind
  {
    var lines := LrLines(t, r, rd) + (mid + scs);
    assert lines[1] == LrLines(t, r, rd)[1];
    assert lines[|lines| - 1] == scs[|scs| - 1];
  }

  lemma {:induction false} PairLength(t: Reg, r: Reg, rd: Reg, between: seq<Line>, elsewhere: seq<Line>, scs: seq<Line>)
    ensures ByteLen(LrLines(t, r, rd) + (between + elsewhere + scs))
            == 12 + ByteLen(between) + ByteLen(elsewhere) + ByteLen(scs)
  {
    var x, y := Address(t, Dest(r), 0x3FC), Access(LrKind, t, 0, 4, {}, Dest(rd));
    ByteLenAppend(LrLines(t, r, rd), between + elsewhere + scs);
    ByteLenAppend(between + elsewhere, scs);
    ByteLenAppend(between, elsewhere);
    ByteLenAppend([x], [y]);
    OneLength(x);
    OneLength(y);
  }

  /** All there is to say about an LR.W with its SC.W. */
  lemma {:induction false} PairFine(
      t: Reg, r: Reg, rd: Reg, between: seq<Line>, held: set<Reg>, reserved: set<Reg>, scReg: Reg,
      elsewhere: seq<Line>, scs: seq<Line>, lines: seq<Line>)
    requires t != 0 && t !in reserved && held == reserved + {t} && Dest(rd) !! held && Good(between, held, {}, true)
    requires ScPlace(t, scReg, elsewhere, held) && ScLines(scs, scReg, reserved)
    requires lines == LrLines(t, r, rd) + (between + elsewhere + scs)
    ensures Good(lines, reserved, {}, false)
    ensures ByteLen(lines) == 12 + ByteLen(between) + ByteLen(elsewhere) + ByteLen(scs)
    ensures |lines| >= 3 && lines[1].Access? && lines[1].kind == LrKind
            && lines[|lines| - 1].Access? && lines[|lines| - 1].kind == ScKind
  {
    PairGood(t, r, rd, between, held, reserved, scReg, elsewhere, scs);
    PairEnds(t, r, rd, between + elsewhere, scs, scReg, reserved);
    PairLength(t, r, rd, between, elsewhere, scs);
  }

  lemma {:induction false} CounterLength(a: Reg, b: Reg, between: seq<Line>)
    ensures ByteLen([Counter(a)] + between + DeltaLines(a, b)) == 16 + ByteLen(between)
  {
    ByteLenAppend([Counter(a)] + between, DeltaLines(a, b));
    ByteLenAppend([Counter(a)], between);
    ByteLenAppend([Counter(b)], [Delta(b, a)] + [Code({b}, {a})]);
    ByteLenAppend([Delta(b, a)], [Code({b}, {a})]);
    OneLength(Counter(a));
    OneLength(Counter(b));
    OneLength(Delta(b, a));
    OneLength(Code({b}, {a}));
  }

  lemma {:induction false} CounterPart(a: Reg, b: Reg, between: seq<Line>, held: set<Reg>, reserved: set<Reg>)
    requires a !in reserved && held == reserved + {a} && b !in held && Good(between, held, {a}, false)
    ensures Good([Counter(a)] + between + DeltaLines(a, b), reserved, {}, false)
  {
    LeadsOne(NOTHING, Counter(a), reserved);
    var k := After(NOTHING, Counter(a)).value;
    assert k.taint == {a};
    var k1 := GoodKeeps(k, between, held, reserved, a);
    LeadsOn(NOTHING, [Counter(a)], k, between, k1, reserved);
    var k2 := DeltaLeads(k1, a, b, reserved);
    LeadsOn(NOTHING, [Counter(a)] + between, k1, DeltaLines(a, b), k2, reserved);
  }

  /** A new generator's program: for every BASE register, number of items and place of the
      data region, it runs well from any registers under any outcomes, and then ends. */
  method Generate(base: Reg, n: nat, addr: Word) returns (lines: seq<Line>, block: Block, ending: Endings.Ending)
    requires 3 <= base && Region(addr)
    ensures |block.pieces| == n && exists values, source :: WellMade(lines, values, source, base, addr, block)
    ensures AlwaysRunsWell(lines, 34 + StepsFrom(block, 0), base, addr)
    ensures AllEncodable(lines)
    ensures Endings.AlwaysEnds(ending, base)
  {
    var gen := new Gen(base);
    var values, source;
    lines, values, source, block, ending := gen.Program(n, addr);
  }
}
