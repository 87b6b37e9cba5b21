/** Bit fields of a 32-bit instruction word. */
module BitFields {
  import opened Words
  import opened Bits
  import opened Isa
  import opened Alu
  import opened BitLaws

  type U3 = x: int | 0 <= x < 0x8
  type U5 = x: int | 0 <= x < 0x20
  type U7 = x: int | 0 <= x < 0x80
  type U12 = x: int | 0 <= x < 0x1000

  function Opcode7(w: Word): U7 { w % 0x80 }
  function Rd(w: Word): U5 { w / 0x80 % 0x20 }
  function Funct3(w: Word): U3 { w / 0x1000 % 0x8 }
  function Rs1(w: Word): U5 { w / 0x8000 % 0x20 }
  function Rs2(w: Word): U5 { w / 0x10_0000 % 0x20 }
  function Funct7(w: Word): U7 { w / 0x200_0000 % 0x80 }
  function Funct5(w: Word): U5 { w / 0x800_0000 % 0x20 }
  function Funct12(w: Word): U12 { w / 0x10_0000 % 0x1000 }

  // The immediates, as patterns.

  function ImmI(w: Word): Word { Sra(w, 20) }

  function ImmS(w: Word): Word {
    Sra(Sll(Or(Sll(And(Srl(w, 25), 0x7F), 5), And(Srl(w, 7), 0x1F)), 20), 20)
  }

  function ImmB(w: Word): Word {
    var imm := Or(Or(Or(Sll(And(Srl(w, 31), 1), 12), Sll(And(Srl(w, 7), 1), 11)), Sll(And(Srl(w, 25), 0x3F), 5)),
                  Sll(And(Srl(w, 8), 0xF), 1));
    Sra(Sll(imm, 19), 19)
  }

  function ImmU(w: Word): Word { And(w, 0xFFFF_F000) }

  function ImmJ(w: Word): Word {
    var imm := Or(Or(Or(Sll(And(Srl(w, 31), 1), 20), Sll(And(Srl(w, 12), 0xFF), 12)), Sll(And(Srl(w, 20), 1), 11)),
                  Sll(And(Srl(w, 21), 0x3FF), 1));
    Sra(Sll(imm, 11), 11)
  }

  // ----- Bits of shifted and masked words -----

  /** The word with ones in its `n` lowest places. */
  lemma {:induction false} LowOnes(n: nat, i: nat, m: nat)
    requires m == Pow2(n) - 1
    ensures Bit(m, i) == (i < n)
    decreases n
  {
    if n == 0 {
      ZeroBits(i);
    } else if i > 0 {
      DivModUnique(m, 2, Pow2(n - 1) - 1, 1);
      LowOnes(n - 1, i - 1, m / 2);
    }
  }

  lemma SmallPowers()
    ensures Pow2(1) == 2 && Pow2(4) == 0x10 && Pow2(5) == 0x20 && Pow2(6) == 0x40 && Pow2(7) == 0x80
    ensures Pow2(8) == 0x100 && Pow2(10) == 0x400 && Pow2(12) == 0x1000
  {
    assert Pow2(6) == 0x40;
    assert Pow2(10) == 0x10 * Pow2(6);
    assert Pow2(12) == 4 * Pow2(10);
  }

  /** Bit `i` of the `n` bits of a word from place `from` on. */
  lemma {:induction false} MaskedBit(w: Word, from: nat, n: nat, mask: Word, i: nat)
    requires from < 32 && from + n <= 32 && i < 32 && mask == Pow2(n) - 1
    ensures Bit(And(Srl(w, from), mask), i) == (i < n && Bit(w, i + from))
  {
    assert Bit(mask, i) == (i < n) by { LowOnes(n, i, mask); }
    MaskedOnly(Srl(w, from), mask, i);
    DownBit(w, from, i);
  }

  lemma DownBit(w: Word, from: nat, i: nat)
    requires from < 32 && i < 32
    ensures Bit(Srl(w, from), i) == (i + from < 32 && Bit(w, i + from))
  {
    SrlBit(w, from, from, i);
  }

  lemma MaskedOnly(x: Word, mask: Word, i: nat)
    requires i < 32
    ensures Bit(And(x, mask), i) == (Bit(x, i) && Bit(mask, i))
  {
    LogicBits(x, mask, i);
  }

  lemma UpBit(x: Word, to: nat, i: nat)
    requires to < 32 && i < 32
    ensures Bit(Sll(x, to), i) == (i >= to && Bit(x, i - to))
  {
    SllBit(x, to, to, i);
  }

  /** ... and of those put to place `to`. */
  lemma {:induction false} MovedBit(w: Word, from: nat, n: nat, to: nat, mask: Word, i: nat)
    requires from < 32 && to < 32 && from + n <= 32 && i < 32 && mask == Pow2(n) - 1
    ensures Bit(Sll(And(Srl(w, from), mask), to), i) == (to <= i < to + n && Bit(w, i - to + from))
  {
    UpBit(And(Srl(w, from), mask), to, i);
    if i >= to {
      MaskedBit(w, from, n, mask, i - to);
    }
  }

  /** Bit `i` of a word whose top `n` bits were moved down with their sign. */
  lemma {:induction false} ExtendedBit(x: Word, n: nat, i: nat)
    requires n < 32 && i < 32
    ensures Bit(Sra(Sll(x, n), n), i) == Bit(x, if i + n < 32 then i else 31 - n)
  {
    SraBit(Sll(x, n), n, n, i);
    SllBit(x, n, n, if i + n < 32 then i + n else 31);
  }

  // ----- The immediates, bit by bit -----

  /** The place in the word of each bit of an immediate; bit 31 of the word is the sign. */
  function PlaceI(i: nat): nat { if i <= 10 then i + 20 else 31 }
  function PlaceS(i: nat): nat { if i <= 4 then i + 7 else if i <= 10 then i + 20 else 31 }
  function PlaceB(i: nat): nat { if i <= 4 then i + 7 else if i <= 10 then i + 20 else if i == 11 then 7 else 31 }
  function PlaceU(i: nat): nat { i }
  function PlaceJ(i: nat): nat { if i <= 10 then i + 20 else if i == 11 then 20 else if i <= 19 then i else 31 }

  lemma {:induction false} BitsOfI(w: Word, i: nat)
    requires i < 32
    ensures Bit(ImmI(w), i) == Bit(w, PlaceI(i))
  {
    SraBit(w, 20, 20, i);
  }

  lemma {:induction false} BitsOfS(w: Word, i: nat)
    requires i < 32
    ensures Bit(ImmS(w), i) == Bit(w, PlaceS(i))
  {
    SmallPowers();
    var high, low := Sll(And(Srl(w, 25), 0x7F), 5), And(Srl(w, 7), 0x1F);
    var k := if i + 20 < 32 then i else 11;
    ExtendedBit(Or(high, low), 20, i);
    LogicBits(high, low, k);
    MovedBit(w, 25, 7, 5, 0x7F, k);
    MaskedBit(w, 7, 5, 0x1F, k);
  }

  /** Bit `i` of four parts put together. */
  lemma {:induction false} FourBits(a: Word, b: Word, c: Word, d: Word, i: nat)
    requires i < 32
    ensures Bit(Or(Or(Or(a, b), c), d), i) == (Bit(a, i) || Bit(b, i) || Bit(c, i) || Bit(d, i))
  {
    LogicBits(Or(Or(a, b), c), d, i);
    LogicBits(Or(a, b), c, i);
    LogicBits(a, b, i);
  }

  lemma {:induction false} BitsOfB(w: Word, i: nat)
    requires i < 32
    ensures Bit(ImmB(w), i) == (i != 0 && Bit(w, PlaceB(i)))
  {
    var a, b, c, d := Sll(And(Srl(w, 31), 1), 12), Sll(And(Srl(w, 7), 1), 11), Sll(And(Srl(w, 25), 0x3F), 5), Sll(And(Srl(w, 8), 0xF), 1);
    var k := if i + 19 < 32 then i else 12;
    ExtendedBit(Or(Or(Or(a, b), c), d), 19, i);
    FourBits(a, b, c, d, k);
    PartsOfB(w, k);
  }

  lemma {:induction false} PartsOfB(w: Word, k: nat)
    requires k <= 12
    ensures Bit(Sll(And(Srl(w, 31), 1), 12), k) == (k == 12 && Bit(w, 31))
    ensures Bit(Sll(And(Srl(w, 7), 1), 11), k) == (k == 11 && Bit(w, 7))
    ensures Bit(Sll(And(Srl(w, 25), 0x3F), 5), k) == (5 <= k < 11 && Bit(w, k + 20))
    ensures Bit(Sll(And(Srl(w, 8), 0xF), 1), k) == (1 <= k < 5 && Bit(w, k + 7))
  {
    SingleMoved(w, 31, 12, k);
    SingleMoved(w, 7, 11, k);
    SmallPowers();
    MovedBit(w, 25, 6, 5, 0x3F, k);
    MovedBit(w, 8, 4, 1, 0xF, k);
  }

  lemma {:induction false} SingleMoved(w: Word, from: nat, to: nat, i: nat)
    requires from < 32 && to < 32 && i < 32
    ensures Bit(Sll(And(Srl(w, from), 1), to), i) == (i == to && Bit(w, from))
  {
    SmallPowers();
    MovedBit(w, from, 1, to, 1, i);
  }

  lemma {:induction false} BitsOfU(w: Word, i: nat)
    requires i < 32
    ensures Bit(ImmU(w), i) == (i >= 12 && Bit(w, i))
  {
    SmallPowers();
    LogicBits(w, 0xFFFF_F000, i);
    LowOnes(12, i, 0xFFF);
    NotBit(0xFFF, i);
    assert Not(0xFFF) == 0xFFFF_F000;
  }

  lemma {:induction false} BitsOfJ(w: Word, i: nat)
    requires i < 32
    ensures Bit(ImmJ(w), i) == (i != 0 && Bit(w, PlaceJ(i)))
  {
    var a, b, c, d := Sll(And(Srl(w, 31), 1), 20), Sll(And(Srl(w, 12), 0xFF), 12), Sll(And(Srl(w, 20), 1), 11), Sll(And(Srl(w, 21), 0x3FF), 1);
    var k := if i + 11 < 32 then i else 20;
    ExtendedBit(Or(Or(Or(a, b), c), d), 11, i);
    FourBits(a, b, c, d, k);
    PartsOfJ(w, k);
  }

  lemma {:induction false} PartsOfJ(w: Word, k: nat)
    requires k <= 20
    ensures Bit(Sll(And(Srl(w, 31), 1), 20), k) == (k == 20 && Bit(w, 31))
    ensures Bit(Sll(And(Srl(w, 12), 0xFF), 12), k) == (12 <= k < 20 && Bit(w, k))
    ensures Bit(Sll(And(Srl(w, 20), 1), 11), k) == (k == 11 && Bit(w, 20))
    ensures Bit(Sll(And(Srl(w, 21), 0x3FF), 1), k) == (1 <= k < 11 && Bit(w, k + 20))
  {
    SingleMoved(w, 31, 20, k);
    SingleMoved(w, 20, 11, k);
    SmallPowers();
    MovedBit(w, 12, 8, 12, 0xFF, k);
    MovedBit(w, 21, 10, 1, 0x3FF, k);
  }

  /** Branch and jump offsets are even. */
  lemma {:induction false} JumpOffsetsEven(w: Word)
    ensures Signed(ImmB(w)) % 2 == 0 && Signed(ImmJ(w)) % 2 == 0
  {
    BitsOfB(w, 0);
    BitsOfJ(w, 0);
    EvenSigned(ImmB(w));
    EvenSigned(ImmJ(w));
  }

  lemma EvenSigned(w: Word)
    requires !Bit(w, 0)
    ensures Signed(w) % 2 == 0
  {
    assert w % 2 == 0;
  }

  /** A word taken apart: the fields that select an instruction, and its operands. */
  datatype Fields = Fields(
    opcode7: U7, f3: U3, f7: U7, rs2Field: U5, f5: U5, f12: U12, rdField: U5, rs1Field: U5,
    rd: Reg, rs1: Reg, rs2: Reg, immI: Int32, immS: Int32, immB: Int32, immU: Int32, immJ: Int32)

  function FieldsOf(w: Word): Fields {
    Fields(Opcode7(w), Funct3(w), Funct7(w), Rs2(w), Funct5(w), Funct12(w), Rd(w), Rs1(w),
           Rd(w), Rs1(w), Rs2(w),
           Signed(ImmI(w)), Signed(ImmS(w)), Signed(ImmB(w)), Signed(ImmU(w)), Signed(ImmJ(w)))
  }
}
