/** Where the source masks bits and the model divides: each mask of the source is the
    quotient or remainder that stands for it. */
module Masks {
  import opened Words
  import opened Bits
  import opened Isa
  import opened Alu
  import opened BitLaws
  import opened BitFields
  import opened Cache

  /** A mask of the `n` lowest bits is a remainder. */
  lemma {:induction false} LowMask(x: Word, n: nat, mask: Word)
    requires n <= 32 && mask == Pow2(n) - 1
    ensures And(x, mask) == x % Pow2(n)
  {
    var r := x % Pow2(n);
    PowersGrow(n, 32);
    Power32();
    forall i: nat | i < 32 ensures Bit(And(x, mask), i) == Bit(r, i) {
      LogicBits(x, mask, i);
      LowOnes(n, i, mask);
      if i < n {
        BitsCut(x, n, i, r);
      } else {
        HighBitsZero(r, n, i);
      }
    }
    SameBits(And(x, mask), r, 32);
  }

  /** A mask of all bits but those clears them. */
  lemma {:induction false} HighMask(x: Word, n: nat, mask: Word)
    requires n <= 32 && mask == 0x1_0000_0000 - Pow2(n)
    ensures And(x, mask) == x - x % Pow2(n)
  {
    var r := Cleared(x, Pow2(n));
    Power32();
    forall i: nat | i < 32 ensures Bit(And(x, mask), i) == Bit(r, i) {
      LogicBits(x, mask, i);
      HighOnes(n, i, mask);
      ClearedBit(x, n, i);
    }
    SameBits(And(x, mask), r, 32);
  }

  function Cleared(x: Word, p: nat): (r: Word)
    requires p > 0
    ensures r == x / p * p
  {
    EuclideanDivision(x, p);
    QuotientNotNegative(x, p);
    Products(p, x / p);
    x - x % p
  }

  lemma {:induction false} ClearedBit(x: Word, n: nat, i: nat)
    ensures Bit(Cleared(x, Pow2(n)), i) == (i >= n && Bit(x, i))
  {
    QuotientNotNegative(x, Pow2(n));
    var q := x / Pow2(n);
    BitsUp(q, n, i);
    if i >= n {
      BitsDown(x, n, i - n, q);
    }
  }

  lemma {:induction false} HighOnes(n: nat, i: nat, mask: Word)
    requires n <= 32 && i < 32 && mask == 0x1_0000_0000 - Pow2(n)
    ensures Bit(mask, i) == (i >= n)
  {
    Power32();
    LowOnes(n, i, Pow2(n) - 1);
    BitsOfComplement(Pow2(n) - 1, 32, i);
  }

  /** A shift and a mask take out a field. */
  lemma {:induction false} FieldMask(w: Word, from: nat, n: nat, place: nat, size: nat)
    requires from < 32 && n <= 32 && place == Pow2(from) && size == Pow2(n) <= 0x1_0000_0000
    ensures And(Srl(w, from), size - 1) == w / place % size
  {
    ShiftDivides(w, from, place);
    LowMask(Srl(w, from), n, size - 1);
  }

  lemma ShiftDivides(w: Word, from: nat, place: nat)
    requires from < 32 && place == Pow2(from)
    ensures Srl(w, from) == w / place
  {
    QuotientBelow(w, place);
  }

  lemma QuotientBelow(w: Word, d: nat)
    requires d > 0
    ensures 0 <= w / d < 0x1_0000_0000
  {
    QuotientNotNegative(w, d);
    EuclideanDivision(w, d);
    Products(d, w / d);
  }

  /** Two low bits tell a compressed instruction; the target of JALR loses bit 0; the word
      that a byte is in loses two bits of its address; a CSR number is twelve bits. */
  lemma {:induction false} AddressMasks(x: Word)
    ensures IsCompressed(x) <==> And(x, 3) != 3
    ensures And(x, 0xFFFF_FFFE) == x - x % 2 && And(x, 0xFFFF_FFFC) == x - x % 4
    ensures And(x, 0xFFF) == x % 0x1000
  {
    SmallPowers();
    assert Pow2(2) == 4;
    LowMask(x, 2, 3);
    HighMask(x, 1, 0xFFFF_FFFE);
    HighMask(x, 2, 0xFFFF_FFFC);
    LowMask(x, 12, 0xFFF);
  }

  /** With a power of two of slots, the slot of a pc is what masking pc / 2 gives. */
  lemma {:induction false} SlotMask(pc: Word, k: nat)
    requires k < 32
    ensures 0 < Pow2(k) <= 0x8000_0000 && SlotOf(pc, Pow2(k)) == And(Srl(pc, 1), Pow2(k) - 1)
  {
    PowersGrow(k, 31);
    Power31();
    SmallPowers();
    FieldMask(pc, 1, k, 2, Pow2(k));
  }
}
