/** The specification of every 32-bit encoding: one row per instruction, listing the
    fields that identify it. */
module Registry {
  import opened Words
  import opened Bits
  import opened Isa
  import opened Alu
  import opened BitLaws
  import opened BitFields

  /** A row gives opcode7 and any of the other identifying fields; every bit that no given
      field covers is an operand. */
  datatype Entry = Entry(
    op: Opcode, opcode7: U7, f3: Option<U3> := None, f7: Option<U7> := None, rs2: Option<U5> := None,
    f5: Option<U5> := None, f12: Option<U12> := None, rd: Option<U5> := None, rs1: Option<U5> := None)

  // The combinations of fields that the table uses.
  function ByOpcode(op: Opcode, opcode7: U7): Entry { Entry(op, opcode7) }
  function ByF3(op: Opcode, opcode7: U7, f3: U3): Entry { Entry(op, opcode7, Some(f3)) }
  function ByF7(op: Opcode, opcode7: U7, f3: U3, f7: U7): Entry { Entry(op, opcode7, Some(f3), Some(f7)) }
  function ByF7Rs2(op: Opcode, opcode7: U7, f3: U3, f7: U7, rs2: U5): Entry { ByF7(op, opcode7, f3, f7).(rs2 := Some(rs2)) }
  function ByF5(op: Opcode, opcode7: U7, f3: U3, f5: U5): Entry { Entry(op, opcode7, Some(f3), f5 := Some(f5)) }
  function ByF5Rs2(op: Opcode, opcode7: U7, f3: U3, f5: U5, rs2: U5): Entry { ByF5(op, opcode7, f3, f5).(rs2 := Some(rs2)) }
  function ByF12(op: Opcode, opcode7: U7, f3: U3, f12: U12, rd: U5, rs1: U5): Entry {
    Entry(op, opcode7, Some(f3), f12 := Some(f12), rd := Some(rd), rs1 := Some(rs1))
  }

  // ----- Masks of parts of a word -----

  /** The `n` bits from place `lo` on have this value. */
  datatype PartOfWord = Part(lo: nat, n: nat, value: nat)

  type Part = p: PartOfWord | p.lo + p.n <= 32 && p.lo < 32 && p.value < Pow2(p.n) witness Part(0, 0, 0)

  function PartMask(p: Part): Word {
    PartFits(p);
    Sll(Pow2(p.n) - 1, p.lo)
  }

  function PartMatch(p: Part): Word {
    PartFits(p);
    Sll(p.value, p.lo)
  }

  lemma PartFits(p: Part)
    ensures Pow2(p.n) <= 0x1_0000_0000
  {
    Power32();
    PowersGrow(p.n, 32);
  }

  function MaskOf(ps: seq<Part>): Word {
    if ps == [] then 0 else Or(MaskOf(ps[..|ps| - 1]), PartMask(ps[|ps| - 1]))
  }

  function MatchOf(ps: seq<Part>): Word {
    if ps == [] then 0 else Or(MatchOf(ps[..|ps| - 1]), PartMatch(ps[|ps| - 1]))
  }

  predicate Has(w: Word, p: Part) {
    w / Pow2(p.lo) % Pow2(p.n) == p.value
  }

  predicate Covers(p: Part, i: nat) {
    p.lo <= i < p.lo + p.n
  }

  predicate Sets(p: Part, i: nat) {
    Covers(p, i) && Bit(p.value, i - p.lo)
  }

  lemma {:induction false} PartBits(p: Part, i: nat)
    requires i < 32
    ensures Bit(PartMask(p), i) == Covers(p, i) && Bit(PartMatch(p), i) == Sets(p, i)
  {
    PartFits(p);
    UpBit(Pow2(p.n) - 1, p.lo, i);
    UpBit(p.value, p.lo, i);
    if i >= p.lo {
      LowOnes(p.n, i - p.lo, Pow2(p.n) - 1);
      if i >= p.lo + p.n {
        HighBitsZero(p.value, p.n, i - p.lo);
      }
    }
  }

  lemma {:induction false} FieldBit(w: Word, p: Part, j: nat)
    requires j < p.n
    ensures Bit(w / Pow2(p.lo) % Pow2(p.n), j) == Bit(w, p.lo + j)
  {
    QuotientNotNegative(w, Pow2(p.lo));
    BitsDown(w, p.lo, j, w / Pow2(p.lo));
    BitsCut(w / Pow2(p.lo), p.n, j, w / Pow2(p.lo) % Pow2(p.n));
  }

  /** A word has a part exactly when it has its bits. */
  ghost predicate HasBits(w: Word, p: Part) {
    forall j: nat :: j < p.n ==> Bit(w, p.lo + j) == Bit(p.value, j)
  }

  lemma {:induction false} HasIsBits(w: Word, p: Part)
    ensures Has(w, p) <==> HasBits(w, p)
  {
    var v := w / Pow2(p.lo) % Pow2(p.n);
    QuotientNotNegative(w, Pow2(p.lo));
    EuclideanDivision(w / Pow2(p.lo), Pow2(p.n));
    forall j: nat | j < p.n ensures Bit(v, j) == Bit(w, p.lo + j) {
      FieldBit(w, p, j);
    }
    if HasBits(w, p) {
      SameBits(v, p.value, p.n);
    }
  }

  lemma {:induction false} MaskBit(ps: seq<Part>, i: nat)
    requires i < 32
    ensures Bit(MaskOf(ps), i) <==> exists p :: p in ps && Covers(p, i)
  {
    if ps == [] {
      ZeroBits(i);
    } else {
      var init, last := ps[..|ps| - 1], ps[|ps| - 1];
      MaskBit(init, i);
      PartBits(last, i);
      LogicBits(MaskOf(init), PartMask(last), i);
      assert ps == init + [last];
    }
  }

  lemma {:induction false} MatchBit(ps: seq<Part>, i: nat)
    requires i < 32
    ensures Bit(MatchOf(ps), i) <==> exists p :: p in ps && Sets(p, i)
  {
    if ps == [] {
      ZeroBits(i);
    } else {
      var init, last := ps[..|ps| - 1], ps[|ps| - 1];
      MatchBit(init, i);
      PartBits(last, i);
      LogicBits(MatchOf(init), PartMatch(last), i);
      assert ps == init + [last];
    }
  }

  /** A word that has all parts agrees with their match under their mask. */
  lemma {:induction false} AllPartsMatch(ps: seq<Part>, w: Word)
    requires HasAll(w, ps)
    ensures And(w, MaskOf(ps)) == MatchOf(ps)
  {
    Power32();
    forall i: nat | i < 32 ensures Bit(And(w, MaskOf(ps)), i) == Bit(MatchOf(ps), i) {
      LogicBits(w, MaskOf(ps), i);
      MaskBit(ps, i);
      MatchBit(ps, i);
      forall p | p in ps && Covers(p, i) ensures Bit(w, i) == Bit(p.value, i - p.lo) {
        HasIsBits(w, p);
        assert Bit(w, p.lo + (i - p.lo)) == Bit(p.value, i - p.lo);
      }
    }
    SameBits(And(w, MaskOf(ps)), MatchOf(ps), 32);
  }

  /** Wherever another part covers a bit of this one, it sets it alike. */
  ghost predicate Undisputed(ps: seq<Part>, p: Part) {
    forall q, i: nat :: q in ps && Covers(q, i) && Covers(p, i) ==> Sets(q, i) == Sets(p, i)
  }

  /** A word that agrees under the mask has every part that no other one disputes. */
  lemma {:induction false} MatchingPart(ps: seq<Part>, w: Word, p: Part)
    requires And(w, MaskOf(ps)) == MatchOf(ps) && p in ps && Undisputed(ps, p)
    ensures Has(w, p)
  {
    forall i: nat | Covers(p, i) ensures Bit(w, i) == Sets(p, i) {
      MatchingBit(ps, w, p, i);
    }
    SetBitsHave(w, p);
  }

  lemma {:induction false} SetBitsHave(w: Word, p: Part)
    requires forall i: nat :: Covers(p, i) ==> Bit(w, i) == Sets(p, i)
    ensures Has(w, p)
  {
    forall j: nat | j < p.n ensures Bit(w, p.lo + j) == Bit(p.value, j) {
      assert Covers(p, p.lo + j);
    }
    HasIsBits(w, p);
  }

  lemma {:induction false} MatchingBit(ps: seq<Part>, w: Word, p: Part, i: nat)
    requires And(w, MaskOf(ps)) == MatchOf(ps) && p in ps && Undisputed(ps, p) && Covers(p, i)
    ensures Bit(w, i) == Sets(p, i)
  {
    MaskedOnly(w, MaskOf(ps), i);
    MaskBit(ps, i);
    MatchBit(ps, i);
    if Bit(w, i) {
      var q :| q in ps && Sets(q, i);
      assert Sets(q, i) == Sets(p, i);
    }
  }

  /** The match of parts agrees with itself under their mask. */
  lemma {:induction false} MatchUnderMask(ps: seq<Part>)
    ensures And(MatchOf(ps), MaskOf(ps)) == MatchOf(ps)
  {
    Power32();
    forall i: nat | i < 32 ensures Bit(And(MatchOf(ps), MaskOf(ps)), i) == Bit(MatchOf(ps), i) {
      LogicBits(MatchOf(ps), MaskOf(ps), i);
      MaskBit(ps, i);
      MatchBit(ps, i);
    }
    SameBits(And(MatchOf(ps), MaskOf(ps)), MatchOf(ps), 32);
  }

  // ----- Masks of entries -----

  function Given(lo: nat, n: nat, field: Option<int>): (ps: seq<Part>)
    requires lo + n <= 32 && lo < 32 && (field.Some? ==> 0 <= field.value < Pow2(n))
  {
    match field case None => [] case Some(v) => [Part(lo, n, v)]
  }

  lemma FieldSizes()
    ensures Pow2(3) == 8 && Pow2(5) == 0x20 && Pow2(7) == 0x80 && Pow2(12) == 0x1000
  {
    BitFields.SmallPowers();
  }

  /** The fields an entry gives, where they are in a word. */
  function PartsOf(e: Entry): seq<Part> {
    FieldSizes();
    Given(0, 7, Some(e.opcode7)) + Given(12, 3, e.f3) + Given(25, 7, e.f7) + Given(20, 5, e.rs2) + Given(27, 5, e.f5)
    + Given(20, 12, e.f12) + Given(7, 5, e.rd) + Given(15, 5, e.rs1)
  }

  /** The bits an entry constrains. */
  function Mask(e: Entry): Word {
    MaskOf(PartsOf(e))
  }

  /** The values of those bits. */
  function Match(e: Entry): Word {
    MatchOf(PartsOf(e))
  }

  predicate Matches(e: Entry, w: Word) {
    And(w, Mask(e)) == Match(e)
  }

  /** The word, taken apart, has the value that the entry gives in each field it gives. */
  predicate Agrees(e: Entry, w: Fields) {
    && w.opcode7 == e.opcode7
    && (e.f3.Some? ==> w.f3 == e.f3.value)
    && (e.f7.Some? ==> w.f7 == e.f7.value)
    && (e.rs2.Some? ==> w.rs2Field == e.rs2.value)
    && (e.f5.Some? ==> w.f5 == e.f5.value)
    && (e.f12.Some? ==> w.f12 == e.f12.value)
    && (e.rd.Some? ==> w.rdField == e.rd.value)
    && (e.rs1.Some? ==> w.rs1Field == e.rs1.value)
  }

  /** Fields that share bits give them the same value. */
  predicate Consistent(e: Entry) {
    && (e.f7.Some? && e.f5.Some? ==> e.f7.value / 4 == e.f5.value)
    && (e.f12.Some? && e.f7.Some? ==> e.f12.value / 0x20 == e.f7.value)
    && (e.f12.Some? && e.f5.Some? ==> e.f12.value / 0x80 == e.f5.value)
    && (e.f12.Some? && e.rs2.Some? ==> e.f12.value % 0x20 == e.rs2.value)
  }

  /** No two given fields share bits: true of every row of the table. */
  predicate NoOverlap(e: Entry) {
    && !(e.f7.Some? && e.f5.Some?)
    && (e.f12.Some? ==> e.f7.None? && e.f5.None? && e.rs2.None?)
  }

  // ----- Masking and comparing is comparing field by field -----

  lemma PlacePowers()
    ensures Pow2(0) == 1 && Pow2(12) == 0x1000 && Pow2(25) == 0x200_0000 && Pow2(20) == 0x10_0000
    ensures Pow2(27) == 0x800_0000 && Pow2(7) == 0x80 && Pow2(15) == 0x8000
  {
    FieldSizes();
    assert Pow2(15) == 8 * Pow2(12);
    assert Pow2(20) == 0x20 * Pow2(15);
    assert Pow2(25) == 0x20 * Pow2(20);
    assert Pow2(27) == 4 * Pow2(25);
  }

  ghost predicate HasAll(w: Word, ps: seq<Part>) {
    forall p :: p in ps ==> Has(w, p)
  }

  lemma HasBoth(w: Word, a: seq<Part>, b: seq<Part>, both: seq<Part>)
    requires both == a + b
    ensures HasAll(w, both) <==> HasAll(w, a) && HasAll(w, b)
  {
  }

  /** Having a given part is having the field. */
  lemma HasGiven(w: Word, lo: nat, n: nat, field: Option<int>, size: nat, place: nat)
    requires lo + n <= 32 && lo < 32 && (field.Some? ==> 0 <= field.value < Pow2(n)) && size == Pow2(n) && place == Pow2(lo)
    ensures HasAll(w, Given(lo, n, field)) <==> (field.Some? ==> w / place % size == field.value)
  {
    if field.Some? {
      assert Part(lo, n, field.value) in Given(lo, n, field);
    }
  }

  lemma {:induction false} AgreeingFields(e: Entry, w: Word, o: seq<Part>, a: seq<Part>, b: seq<Part>, c: seq<Part>, d: seq<Part>,
                                          f: seq<Part>, g: seq<Part>, h: seq<Part>)
    requires o + a + b + c + d + f + g + h == PartsOf(e)
    ensures HasAll(w, PartsOf(e)) <==>
              HasAll(w, o) && HasAll(w, a) && HasAll(w, b) && HasAll(w, c) && HasAll(w, d) && HasAll(w, f) && HasAll(w, g) && HasAll(w, h)
  {
    HasBoth(w, o, a, o + a);
    HasBoth(w, o + a, b, o + a + b);
    HasBoth(w, o + a + b, c, o + a + b + c);
    HasBoth(w, o + a + b + c, d, o + a + b + c + d);
    HasBoth(w, o + a + b + c + d, f, o + a + b + c + d + f);
    HasBoth(w, o + a + b + c + d + f, g, o + a + b + c + d + f + g);
    HasBoth(w, o + a + b + c + d + f + g, h, PartsOf(e));
  }

  /** The word has the value that the entry gives in each field it gives. */
  predicate FieldsMatch(e: Entry, w: Word) {
    && Opcode7(w) == e.opcode7
    && (e.f3.Some? ==> Funct3(w) == e.f3.value)
    && (e.f7.Some? ==> Funct7(w) == e.f7.value)
    && (e.rs2.Some? ==> Rs2(w) == e.rs2.value)
    && (e.f5.Some? ==> Funct5(w) == e.f5.value)
    && (e.f12.Some? ==> Funct12(w) == e.f12.value)
    && (e.rd.Some? ==> Rd(w) == e.rd.value)
    && (e.rs1.Some? ==> Rs1(w) == e.rs1.value)
  }

  lemma AgreesIsFieldsMatch(e: Entry, w: Word)
    ensures Agrees(e, FieldsOf(w)) == FieldsMatch(e, w)
  {
  }

  lemma LowFields(e: Entry, w: Word)
    ensures HasAll(w, Given(0, 7, Some(e.opcode7))) <==> Opcode7(w) == e.opcode7
    ensures HasAll(w, Given(12, 3, e.f3)) <==> (e.f3.Some? ==> Funct3(w) == e.f3.value)
    ensures HasAll(w, Given(7, 5, e.rd)) <==> (e.rd.Some? ==> Rd(w) == e.rd.value)
    ensures HasAll(w, Given(15, 5, e.rs1)) <==> (e.rs1.Some? ==> Rs1(w) == e.rs1.value)
  {
    PlacePowers();
    FieldSizes();
    HasGiven(w, 0, 7, Some(e.opcode7), 0x80, 1);
    HasGiven(w, 12, 3, e.f3, 8, 0x1000);
    HasGiven(w, 7, 5, e.rd, 0x20, 0x80);
    HasGiven(w, 15, 5, e.rs1, 0x20, 0x8000);
  }

  lemma HighFields(e: Entry, w: Word)
    ensures HasAll(w, Given(25, 7, e.f7)) <==> (e.f7.Some? ==> Funct7(w) == e.f7.value)
    ensures HasAll(w, Given(20, 5, e.rs2)) <==> (e.rs2.Some? ==> Rs2(w) == e.rs2.value)
    ensures HasAll(w, Given(27, 5, e.f5)) <==> (e.f5.Some? ==> Funct5(w) == e.f5.value)
    ensures HasAll(w, Given(20, 12, e.f12)) <==> (e.f12.Some? ==> Funct12(w) == e.f12.value)
  {
    PlacePowers();
    FieldSizes();
    HasGiven(w, 25, 7, e.f7, 0x80, 0x200_0000);
    HasGiven(w, 20, 5, e.rs2, 0x20, 0x10_0000);
    HasGiven(w, 27, 5, e.f5, 0x20, 0x800_0000);
    HasGiven(w, 20, 12, e.f12, 0x1000, 0x10_0000);
  }

  lemma {:induction false} AgreeingParts(e: Entry, w: Word)
    ensures FieldsMatch(e, w) <==> HasAll(w, PartsOf(e))
  {
    FieldSizes();
    LowFields(e, w);
    HighFields(e, w);
    AgreeingFields(e, w, Given(0, 7, Some(e.opcode7)), Given(12, 3, e.f3), Given(25, 7, e.f7), Given(20, 5, e.rs2),
                   Given(27, 5, e.f5), Given(20, 12, e.f12), Given(7, 5, e.rd), Given(15, 5, e.rs1));
  }

  /** A word that has the entry's fields matches under its mask, whatever the fields. */
  lemma AgreesMatches(e: Entry, w: Word)
    requires Agrees(e, FieldsOf(w))
    ensures Matches(e, w)
  {
    AgreesIsFieldsMatch(e, w);
    AgreeingParts(e, w);
    AllPartsMatch(PartsOf(e), w);
  }

  function OrZero(field: Option<int>): int {
    match field case Some(v) => v case None => 0
  }

  /** The top seven and twelve bits of a word with all the fields of a consistent entry. */
  function Top7(e: Entry): U7 {
    if e.f7.Some? then e.f7.value else 4 * OrZero(e.f5)
  }

  function Top12(e: Entry): U12 {
    if e.f12.Some? then e.f12.value else 0x20 * Top7(e) + OrZero(e.rs2)
  }

  function Sample(e: Entry): Word {
    Assembled(e.opcode7, OrZero(e.rd), OrZero(e.f3), OrZero(e.rs1), Top12(e))
  }

  function Assembled(opcode7: U7, rd: U5, f3: U3, rs1: U5, top12: U12): Word {
    opcode7 + 0x80 * rd + 0x1000 * f3 + 0x8000 * rs1 + 0x10_0000 * top12
  }

  lemma AssembledLow(opcode7: U7, rd: U5, f3: U3, rs1: U5, top12: U12)
    ensures var w := Assembled(opcode7, rd, f3, rs1, top12);
            Opcode7(w) == opcode7 && Rd(w) == rd && Funct3(w) == f3 && Rs1(w) == rs1
  {
    var w := Assembled(opcode7, rd, f3, rs1, top12);
    DivModUnique(w, 0x80, rd + 0x20 * f3 + 0x100 * rs1 + 0x2000 * top12, opcode7);
    DivModUnique(rd + 0x20 * f3 + 0x100 * rs1 + 0x2000 * top12, 0x20, f3 + 8 * rs1 + 0x100 * top12, rd);
    DivModUnique(w, 0x1000, f3 + 8 * rs1 + 0x100 * top12, opcode7 + 0x80 * rd);
    DivModUnique(f3 + 8 * rs1 + 0x100 * top12, 8, rs1 + 0x20 * top12, f3);
    DivModUnique(w, 0x8000, rs1 + 0x20 * top12, opcode7 + 0x80 * rd + 0x1000 * f3);
    DivModUnique(rs1 + 0x20 * top12, 0x20, top12, rs1);
  }

  lemma AssembledHigh(low: nat, top12: U12, w: Word)
    requires low < 0x10_0000 && w == low + 0x10_0000 * top12
    ensures Funct12(w) == top12 && Rs2(w) == top12 % 0x20 && Funct7(w) == top12 / 0x20 && Funct5(w) == top12 / 0x80
  {
    DivModUnique(w, 0x10_0000, top12, low);
    DivModUnique(w, 0x200_0000, top12 / 0x20, low + 0x10_0000 * (top12 % 0x20));
    DivModUnique(w, 0x800_0000, top12 / 0x80, low + 0x10_0000 * (top12 % 0x80));
  }

  lemma AssembledFields(opcode7: U7, rd: U5, f3: U3, rs1: U5, top12: U12)
    ensures var w := Assembled(opcode7, rd, f3, rs1, top12);
            && Opcode7(w) == opcode7 && Rd(w) == rd && Funct3(w) == f3 && Rs1(w) == rs1 && Funct12(w) == top12
            && Rs2(w) == top12 % 0x20 && Funct7(w) == top12 / 0x20 && Funct5(w) == top12 / 0x80
  {
    AssembledLow(opcode7, rd, f3, rs1, top12);
    AssembledHigh(opcode7 + 0x80 * rd + 0x1000 * f3 + 0x8000 * rs1, top12, Assembled(opcode7, rd, f3, rs1, top12));
  }

  lemma {:induction false} SampleAgrees(e: Entry)
    requires Consistent(e)
    ensures FieldsMatch(e, Sample(e))
  {
    AssembledFields(e.opcode7, OrZero(e.rd), OrZero(e.f3), OrZero(e.rs1), Top12(e));
    TopFields(e);
  }

  lemma TopFields(e: Entry)
    requires Consistent(e)
    ensures e.f7.Some? ==> Top12(e) / 0x20 == e.f7.value
    ensures e.f5.Some? ==> Top12(e) / 0x80 == e.f5.value
    ensures e.rs2.Some? ==> Top12(e) % 0x20 == e.rs2.value
  {
    if e.f12.None? {
      DivModUnique(Top12(e), 0x20, Top7(e), OrZero(e.rs2));
      DivModUnique(Top12(e), 0x80, Top7(e) / 4, 0x20 * (Top7(e) % 4) + OrZero(e.rs2));
    }
  }

  /** The fields of one word that share bits give them the same value. */
  lemma AgreeingIsConsistent(e: Entry, w: Word)
    requires FieldsMatch(e, w)
    ensures Consistent(e)
  {
    SharedFields(w);
  }

  lemma SharedFields(w: Word)
    ensures Funct7(w) / 4 == Funct5(w) && Funct12(w) / 0x20 == Funct7(w) && Funct12(w) / 0x80 == Funct5(w)
    ensures Funct12(w) % 0x20 == Rs2(w)
  {
    var top12 := w / 0x10_0000;
    assert top12 < 0x1000;
    AssembledHigh(w % 0x10_0000, top12, w);
  }

  /** Parts that one word has do not dispute each other's bits. */
  lemma {:induction false} CommonWord(ps: seq<Part>, w: Word, p: Part)
    requires p in ps && HasAll(w, ps)
    ensures Undisputed(ps, p)
  {
    forall q, i: nat | q in ps && Covers(q, i) && Covers(p, i) ensures Sets(q, i) == Sets(p, i) {
      HasIsBits(w, q);
      HasIsBits(w, p);
      assert Bit(w, q.lo + (i - q.lo)) == Bit(q.value, i - q.lo);
      assert Bit(w, p.lo + (i - p.lo)) == Bit(p.value, i - p.lo);
    }
  }

  lemma {:induction false} MatchesAgrees(e: Entry, w: Word)
    requires Matches(e, w) && Consistent(e)
    ensures Agrees(e, FieldsOf(w))
  {
    SampleAgrees(e);
    AgreeingParts(e, Sample(e));
    forall p | p in PartsOf(e) ensures Has(w, p) {
      CommonWord(PartsOf(e), Sample(e), p);
      MatchingPart(PartsOf(e), w, p);
    }
    AgreeingParts(e, w);
    AgreesIsFieldsMatch(e, w);
  }

  /** No other field reaches into opcode7. */
  lemma {:induction false} MatchOpcode7(e: Entry, w: Word)
    requires Matches(e, w)
    ensures Opcode7(w) == e.opcode7
  {
    var p := Part(0, 7, e.opcode7);
    OpcodeAlone(e);
    MatchingPart(PartsOf(e), w, p);
    PlacePowers();
  }

  lemma {:induction false} OpcodeAlone(e: Entry)
    ensures var p := Part(0, 7, e.opcode7); p.value < Pow2(7) && p in PartsOf(e) && Undisputed(PartsOf(e), p)
  {
    FieldSizes();
    var p := Part(0, 7, e.opcode7);
    assert PartsOf(e)[0] == p;
    forall q | q in PartsOf(e) ensures q == p || q.lo >= 7 {
    }
  }

  lemma OtherOpcode7(e: Entry, w: Word)
    requires e.opcode7 != Opcode7(w)
    ensures !Matches(e, w)
  {
    if Matches(e, w) {
      MatchOpcode7(e, w);
    }
  }

  // ----- When an entry gives overlapping fields -----

  /** When they do not agree, the entry's own pattern matches without having the fields. */
  lemma InconsistentPattern(e: Entry)
    requires !Consistent(e)
    ensures Matches(e, Match(e)) && !Agrees(e, FieldsOf(Match(e)))
  {
    MatchUnderMask(PartsOf(e));
    AgreesIsFieldsMatch(e, Match(e));
    if FieldsMatch(e, Match(e)) {
      AgreeingIsConsistent(e, Match(e));
    }
  }

  /** One such entry: no word has both fields, but its own pattern matches. */
  lemma OverlapExample()
    ensures var e := Entry(A(AMOADD_W), 0x2F, f7 := Some(0), f5 := Some(1));
            Matches(e, Match(e)) && forall w: Word :: !Agrees(e, FieldsOf(w))
  {
    var e := Entry(A(AMOADD_W), 0x2F, f7 := Some(0), f5 := Some(1));
    InconsistentPattern(e);
    forall w: Word ensures !Agrees(e, FieldsOf(w)) {
      SharedFields(w);
    }
  }

  /** `w & mask == match` says that a word has the entry's value in every field the entry
      gives, for all words, exactly when fields that share bits give them the same value. */
  lemma MatchesIsAgrees(e: Entry)
    ensures Consistent(e) <==> forall w: Word :: Matches(e, w) <==> Agrees(e, FieldsOf(w))
  {
    if Consistent(e) {
      forall w: Word ensures Matches(e, w) <==> Agrees(e, FieldsOf(w)) {
        if Matches(e, w) {
          MatchesAgrees(e, w);
        } else if Agrees(e, FieldsOf(w)) {
          AgreesMatches(e, w);
        }
      }
    } else {
      InconsistentPattern(e);
    }
  }

  /** The instruction that a word encoding `e` stands for. */
  function InstructionOf(e: Entry, w: Fields, raw: Word): Instruction {
    if e.op in {I(ECALL), I(EBREAK), I(FENCE), I(FENCE_I)} then Instruction(e.op, raw := raw)
    else
      match FormatOf(e.op)
      case FormatR => Instruction(e.op, w.rd, w.rs1, w.rs2, raw := raw)
      case FormatI =>
        var fromRs2 := e.opcode7 == 0x13 && (w.f3 == 1 || w.f3 == 5);
        Instruction(e.op, w.rd, w.rs1, imm := if fromRs2 then w.rs2 else w.immI, raw := raw)
      case FormatS => Instruction(e.op, rs1 := w.rs1, rs2 := w.rs2, imm := w.immS, raw := raw)
      case FormatB => Instruction(e.op, rs1 := w.rs1, rs2 := w.rs2, imm := w.immB, raw := raw)
      case FormatU => Instruction(e.op, w.rd, imm := w.immU, raw := raw)
      case FormatJ => Instruction(e.op, w.rd, imm := w.immJ, raw := raw)
  }

  // ----- The table -----

  function RowI(op: OpI): (e: Entry)
    ensures e.op == I(op) && NoOverlap(e)
  {
    match op
    case ADD => ByF7(I(op), 0x33, 0, 0)
    case SUB => ByF7(I(op), 0x33, 0, 0x20)
    case SLL => ByF7(I(op), 0x33, 1, 0)
    case SLT => ByF7(I(op), 0x33, 2, 0)
    case SLTU => ByF7(I(op), 0x33, 3, 0)
    case XOR => ByF7(I(op), 0x33, 4, 0)
    case SRL => ByF7(I(op), 0x33, 5, 0)
    case SRA => ByF7(I(op), 0x33, 5, 0x20)
    case OR => ByF7(I(op), 0x33, 6, 0)
    case AND => ByF7(I(op), 0x33, 7, 0)
    case ADDI => ByF3(I(op), 0x13, 0)
    case SLTI => ByF3(I(op), 0x13, 2)
    case SLTIU => ByF3(I(op), 0x13, 3)
    case XORI => ByF3(I(op), 0x13, 4)
    case ORI => ByF3(I(op), 0x13, 6)
    case ANDI => ByF3(I(op), 0x13, 7)
    case SLLI => ByF7(I(op), 0x13, 1, 0)
    case SRLI => ByF7(I(op), 0x13, 5, 0)
    case SRAI => ByF7(I(op), 0x13, 5, 0x20)
    case LB => ByF3(I(op), 0x03, 0)
    case LH => ByF3(I(op), 0x03, 1)
    case LW => ByF3(I(op), 0x03, 2)
    case LBU => ByF3(I(op), 0x03, 4)
    case LHU => ByF3(I(op), 0x03, 5)
    case SB => ByF3(I(op), 0x23, 0)
    case SH => ByF3(I(op), 0x23, 1)
    case SW => ByF3(I(op), 0x23, 2)
    case BEQ => ByF3(I(op), 0x63, 0)
    case BNE => ByF3(I(op), 0x63, 1)
    case BLT => ByF3(I(op), 0x63, 4)
    case BGE => ByF3(I(op), 0x63, 5)
    case BLTU => ByF3(I(op), 0x63, 6)
    case BGEU => ByF3(I(op), 0x63, 7)
    case ECALL => ByF12(I(op), 0x73, 0, 0, 0, 0)
    case EBREAK => ByF12(I(op), 0x73, 0, 1, 0, 0)
    case LUI => ByOpcode(I(op), 0x37)
    case AUIPC => ByOpcode(I(op), 0x17)
    case JAL => ByOpcode(I(op), 0x6F)
    case JALR => ByF3(I(op), 0x67, 0)
    case FENCE => ByF3(I(op), 0x0F, 0)
    case FENCE_I => ByF3(I(op), 0x0F, 1)
  }

  function RowM(op: OpM): (e: Entry)
    ensures e.op == M(op) && NoOverlap(e)
  {
    match op
    case MUL => ByF7(M(op), 0x33, 0, 1)
    case MULH => ByF7(M(op), 0x33, 1, 1)
    case MULHSU => ByF7(M(op), 0x33, 2, 1)
    case MULHU => ByF7(M(op), 0x33, 3, 1)
    case DIV => ByF7(M(op), 0x33, 4, 1)
    case DIVU => ByF7(M(op), 0x33, 5, 1)
    case REM => ByF7(M(op), 0x33, 6, 1)
    case REMU => ByF7(M(op), 0x33, 7, 1)
  }

  function RowA(op: OpA): (e: Entry)
    ensures e.op == A(op) && NoOverlap(e)
  {
    match op
    case LR_W => ByF5Rs2(A(op), 0x2F, 2, 2, 0)
    case SC_W => ByF5(A(op), 0x2F, 2, 3)
    case AMOSWAP_W => ByF5(A(op), 0x2F, 2, 1)
    case AMOADD_W => ByF5(A(op), 0x2F, 2, 0)
    case AMOXOR_W => ByF5(A(op), 0x2F, 2, 4)
    case AMOAND_W => ByF5(A(op), 0x2F, 2, 0xC)
    case AMOOR_W => ByF5(A(op), 0x2F, 2, 8)
    case AMOMIN_W => ByF5(A(op), 0x2F, 2, 0x10)
    case AMOMAX_W => ByF5(A(op), 0x2F, 2, 0x14)
    case AMOMINU_W => ByF5(A(op), 0x2F, 2, 0x18)
    case AMOMAXU_W => ByF5(A(op), 0x2F, 2, 0x1C)
  }

  function RowCsr(op: OpCsr): (e: Entry)
    ensures e.op == Csr(op) && NoOverlap(e)
  {
    match op
    case CSRRW => ByF3(Csr(op), 0x73, 1)
    case CSRRS => ByF3(Csr(op), 0x73, 2)
    case CSRRC => ByF3(Csr(op), 0x73, 3)
    case CSRRWI => ByF3(Csr(op), 0x73, 5)
    case CSRRSI => ByF3(Csr(op), 0x73, 6)
    case CSRRCI => ByF3(Csr(op), 0x73, 7)
  }

  function RowZba(op: OpZba): (e: Entry)
    ensures e.op == Zba(op) && NoOverlap(e)
  {
    match op
    case SH1ADD => ByF7(Zba(op), 0x33, 2, 0x10)
    case SH2ADD => ByF7(Zba(op), 0x33, 4, 0x10)
    case SH3ADD => ByF7(Zba(op), 0x33, 6, 0x10)
  }

  function RowZbb(op: OpZbb): (e: Entry)
    ensures e.op == Zbb(op) && NoOverlap(e)
  {
    match op
    case ANDN => ByF7(Zbb(op), 0x33, 7, 0x20)
    case ORN => ByF7(Zbb(op), 0x33, 6, 0x20)
    case XNOR => ByF7(Zbb(op), 0x33, 4, 0x20)
    case MIN => ByF7(Zbb(op), 0x33, 4, 5)
    case MINU => ByF7(Zbb(op), 0x33, 5, 5)
    case MAX => ByF7(Zbb(op), 0x33, 6, 5)
    case MAXU => ByF7(Zbb(op), 0x33, 7, 5)
    case ROL => ByF7(Zbb(op), 0x33, 1, 0x30)
    case ROR => ByF7(Zbb(op), 0x33, 5, 0x30)
    case ZEXT_H => ByF7Rs2(Zbb(op), 0x33, 4, 4, 0)
    case RORI => ByF7(Zbb(op), 0x13, 5, 0x30)
    case CLZ => ByF7Rs2(Zbb(op), 0x13, 1, 0x30, 0)
    case CTZ => ByF7Rs2(Zbb(op), 0x13, 1, 0x30, 1)
    case CPOP => ByF7Rs2(Zbb(op), 0x13, 1, 0x30, 2)
    case SEXT_B => ByF7Rs2(Zbb(op), 0x13, 1, 0x30, 4)
    case SEXT_H => ByF7Rs2(Zbb(op), 0x13, 1, 0x30, 5)
    case ORC_B => ByF7Rs2(Zbb(op), 0x13, 5, 0x14, 7)
    case REV8 => ByF7Rs2(Zbb(op), 0x13, 5, 0x34, 0x18)
  }

  function RowZbs(op: OpZbs): (e: Entry)
    ensures e.op == Zbs(op) && NoOverlap(e)
  {
    match op
    case BCLR => ByF7(Zbs(op), 0x33, 1, 0x24)
    case BEXT => ByF7(Zbs(op), 0x33, 5, 0x24)
    case BINV => ByF7(Zbs(op), 0x33, 1, 0x34)
    case BSET => ByF7(Zbs(op), 0x33, 1, 0x14)
    case BCLRI => ByF7(Zbs(op), 0x13, 1, 0x24)
    case BEXTI => ByF7(Zbs(op), 0x13, 5, 0x24)
    case BINVI => ByF7(Zbs(op), 0x13, 1, 0x34)
    case BSETI => ByF7(Zbs(op), 0x13, 1, 0x14)
  }

  /** The row of an instruction: every opcode has exactly one. */
  function RowOf(op: Opcode): (e: Entry)
    ensures e.op == op && NoOverlap(e)
  {
    match op
    case I(x) => RowI(x)
    case M(x) => RowM(x)
    case A(x) => RowA(x)
    case Csr(x) => RowCsr(x)
    case Zba(x) => RowZba(x)
    case Zbb(x) => RowZbb(x)
    case Zbs(x) => RowZbs(x)
  }

  /** The instructions in the order of the table. */
  const ORDER: seq<Opcode> :=
    [I(ADD), I(SUB), I(SLL), I(SLT), I(SLTU), I(XOR), I(SRL), I(SRA), I(OR), I(AND)] +
    [M(MUL), M(MULH), M(MULHSU), M(MULHU), M(DIV), M(DIVU), M(REM), M(REMU)] +
    [Zba(SH1ADD), Zba(SH2ADD), Zba(SH3ADD)] +
    [Zbb(ANDN), Zbb(ORN), Zbb(XNOR), Zbb(MIN), Zbb(MINU), Zbb(MAX), Zbb(MAXU), Zbb(ROL), Zbb(ROR), Zbb(ZEXT_H)] +
    [Zbs(BCLR), Zbs(BEXT), Zbs(BINV), Zbs(BSET)] +
    [I(ADDI), I(SLTI), I(SLTIU), I(XORI), I(ORI), I(ANDI), I(SLLI), I(SRLI), I(SRAI)] +
    [Zbb(RORI), Zbb(CLZ), Zbb(CTZ), Zbb(CPOP), Zbb(SEXT_B), Zbb(SEXT_H), Zbb(ORC_B), Zbb(REV8)] +
    [Zbs(BCLRI), Zbs(BEXTI), Zbs(BINVI), Zbs(BSETI)] +
    [I(LB), I(LH), I(LW), I(LBU), I(LHU), I(SB), I(SH), I(SW), I(BEQ), I(BNE), I(BLT), I(BGE), I(BLTU), I(BGEU)] +
    [A(LR_W), A(SC_W), A(AMOSWAP_W), A(AMOADD_W), A(AMOXOR_W), A(AMOAND_W), A(AMOOR_W), A(AMOMIN_W), A(AMOMAX_W), A(AMOMINU_W), A(AMOMAXU_W)] +
    [I(ECALL), I(EBREAK)] +
    [Csr(CSRRW), Csr(CSRRS), Csr(CSRRC), Csr(CSRRWI), Csr(CSRRSI), Csr(CSRRCI)] +
    [I(LUI), I(AUIPC), I(JAL), I(JALR), I(FENCE), I(FENCE_I)]

  /** The table itself. */
  function Table(): seq<Entry> {
    seq(|ORDER|, i requires 0 <= i < |ORDER| => RowOf(ORDER[i]))
  }

  lemma RowConsistent(op: Opcode)
    ensures Consistent(RowOf(op))
  {
  }

  // ----- Searching a table -----

  /** Whether an entry is the one looked for. */
  type Test = Entry -> bool

  /** The first entry that passes. */
  function First(table: seq<Entry>, t: Test): Option<Entry> {
    if table == [] then None else if t(table[0]) then Some(table[0]) else First(table[1..], t)
  }

  lemma {:induction false} FirstSound(table: seq<Entry>, t: Test)
    ensures First(table, t).Some? ==> First(table, t).value in table && t(First(table, t).value)
    ensures First(table, t).None? ==> forall e | e in table :: !t(e)
  {
    if table != [] && !t(table[0]) {
      FirstSound(table[1..], t);
      assert table == [table[0]] + table[1..];
    }
  }

  /** The first entry that passes is the one no earlier entry passes before. */
  lemma {:induction false} FirstAt(table: seq<Entry>, t: Test, i: nat)
    requires i < |table| && t(table[i]) && forall j | 0 <= j < i :: !t(table[j])
    ensures First(table, t) == Some(table[i])
  {
    if i > 0 {
      FirstAt(table[1..], t, i - 1);
    }
  }

  /** The indices of the entries with a given opcode7, in order. */
  function Bucket(table: seq<Entry>, opcode7: U7): seq<nat> {
    if table == [] then []
    else
      var n := |table| - 1;
      Bucket(table[..n], opcode7) + if table[n].opcode7 == opcode7 then [n] else []
  }

  lemma {:induction false} BucketIndices(table: seq<Entry>, opcode7: U7)
    ensures forall k | 0 <= k < |Bucket(table, opcode7)| :: Bucket(table, opcode7)[k] < |table|
    ensures forall j, k | 0 <= j < k < |Bucket(table, opcode7)| :: Bucket(table, opcode7)[j] < Bucket(table, opcode7)[k]
    ensures forall i: nat | i < |table| && table[i].opcode7 == opcode7 :: i in Bucket(table, opcode7)
  {
    if table != [] {
      BucketIndices(table[..|table| - 1], opcode7);
    }
  }

  /** Only entries with this opcode7 pass. */
  ghost predicate Needs(t: Test, opcode7: U7) {
    forall e: Entry :: t(e) ==> e.opcode7 == opcode7
  }

  /** No entry among the first `k` of the bucket passes. */
  ghost predicate NoneBefore(table: seq<Entry>, t: Test, opcode7: U7, k: nat) {
    var bucket := Bucket(table, opcode7);
    k <= |bucket| && forall j | 0 <= j < k :: bucket[j] < |table| && !t(table[bucket[j]])
  }

  /** Entries outside the bucket, or before a bucket entry and not among the earlier ones of
      the bucket, cannot pass. */
  lemma OutsideBucket(table: seq<Entry>, t: Test, opcode7: U7, k: nat, i: nat)
    requires Needs(t, opcode7) && NoneBefore(table, t, opcode7, k) && i < |table|
    requires k < |Bucket(table, opcode7)| ==> i < Bucket(table, opcode7)[k]
    ensures !t(table[i])
  {
    BucketIndices(table, opcode7);
    if table[i].opcode7 == opcode7 {
      var bucket := Bucket(table, opcode7);
      var j :| 0 <= j < |bucket| && bucket[j] == i;
    }
  }

  lemma BucketHit(table: seq<Entry>, t: Test, opcode7: U7, k: nat, i: nat)
    requires Needs(t, opcode7) && NoneBefore(table, t, opcode7, k)
    requires k < |Bucket(table, opcode7)| && i == Bucket(table, opcode7)[k] && i < |table| && t(table[i])
    ensures First(table, t) == Some(table[i])
  {
    forall j | 0 <= j < i ensures !t(table[j]) {
      OutsideBucket(table, t, opcode7, k, j);
    }
    FirstAt(table, t, i);
  }

  lemma BucketMiss(table: seq<Entry>, t: Test, opcode7: U7)
    requires Needs(t, opcode7) && NoneBefore(table, t, opcode7, |Bucket(table, opcode7)|)
    ensures First(table, t) == None
  {
    forall i: nat | i < |table| ensures !t(table[i]) {
      OutsideBucket(table, t, opcode7, |Bucket(table, opcode7)|, i);
    }
    FirstSound(table, t);
  }

  /** Scanning only the entries of the bucket finds the same entry as scanning the table. */
  method Search(table: seq<Entry>, t: Test, opcode7: U7) returns (found: Option<Entry>)
    requires Needs(t, opcode7)
    ensures found == First(table, t)
  {
    var bucket := Bucket(table, opcode7);
    BucketIndices(table, opcode7);
    for k := 0 to |bucket|
      invariant NoneBefore(table, t, opcode7, k)
    {
      var e := table[bucket[k]];
      if t(e) {
        BucketHit(table, t, opcode7, k, bucket[k]);
        return Some(e);
      }
    }
    BucketMiss(table, t, opcode7);
    return None;
  }

  // ----- Looking up a word -----

  /** Whether an entry matches the word under its mask. */
  function MatchTest(w: Word): Test {
    (e: Entry) => Matches(e, w)
  }

  /** The first matching entry. */
  function FirstMatch(table: seq<Entry>, w: Word): Option<Entry> {
    First(table, MatchTest(w))
  }

  lemma FirstMatchSound(table: seq<Entry>, w: Word)
    ensures FirstMatch(table, w).Some? ==> FirstMatch(table, w).value in table && Matches(FirstMatch(table, w).value, w)
    ensures FirstMatch(table, w).None? ==> forall e | e in table :: !Matches(e, w)
  {
    var t := MatchTest(w);
    FirstSound(table, t);
    if FirstMatch(table, w).None? {
      forall e | e in table ensures !Matches(e, w) {
        assert !t(e);
      }
    }
  }

  /** No word matches two different entries. */
  ghost predicate Disjoint(table: seq<Entry>) {
    forall e, f, w: Word :: e in table && f in table && Matches(e, w) && Matches(f, w) ==> e == f
  }

  /** In a disjoint table the order of the entries does not change the search: any two
      tables with the same entries give the same answer, namely the one that matches. */
  lemma OrderDoesNotMatter(table: seq<Entry>, other: seq<Entry>, w: Word)
    requires Disjoint(table) && forall e :: e in table <==> e in other
    ensures FirstMatch(table, w) == FirstMatch(other, w)
    ensures forall e | e in table && Matches(e, w) :: FirstMatch(table, w) == Some(e)
  {
    FirstMatchSound(table, w);
    FirstMatchSound(other, w);
  }

  /** Scanning only the entries that share the word's opcode7 finds the same entry as
      scanning the whole table. */
  method Lookup(table: seq<Entry>, w: Word) returns (found: Option<Entry>)
    ensures found == FirstMatch(table, w)
  {
    var t := MatchTest(w);
    forall e: Entry | t(e) ensures e.opcode7 == Opcode7(w) {
      MatchOpcode7(e, w);
    }
    found := Search(table, t, Opcode7(w));
  }
}
