/** What the bit-manipulation instructions do to each bit of a word. */
module BitLaws {
  import opened Words
  import opened Bits
  import opened Isa
  import opened Alu

  // ----- Logic and shifts -----

  lemma NotBit(a: Word, i: nat)
    requires i < 32
    ensures Bit(Not(a), i) == !Bit(a, i)
  {
    Power32();
    BitsOfComplement(a, 32, i);
  }

  /** The logical instructions work on each bit by itself. */
  lemma LogicBits(x: Word, y: Word, i: nat)
    requires i < 32
    ensures Bit(And(x, y), i) == (Bit(x, i) && Bit(y, i))
    ensures Bit(Or(x, y), i) == (Bit(x, i) || Bit(y, i))
    ensures Bit(Xor(x, y), i) == (Bit(x, i) != Bit(y, i))
  {
    BitOfBitwise((p, q) => p && q, x, y, i);
    BitOfBitwise((p, q) => p || q, x, y, i);
    BitOfBitwise((p, q) => p != q, x, y, i);
  }

  /** ANDN, ORN and XNOR work on the complement of the second operand. */
  lemma NegatedLogicBits(x: Word, y: Word, i: nat)
    requires i < 32
    ensures Bit(ComputeZbb(ANDN, x, y), i) == (Bit(x, i) && !Bit(y, i))
    ensures Bit(ComputeZbb(ORN, x, y), i) == (Bit(x, i) || !Bit(y, i))
    ensures Bit(ComputeZbb(XNOR, x, y), i) == (Bit(x, i) == Bit(y, i))
  {
    NotBit(y, i);
    LogicBits(x, Not(y), i);
  }

  lemma SllBit(x: Word, n: Word, s: nat, i: nat)
    requires s == n % 32 && i < 32
    ensures Bit(Sll(x, n), i) == (i >= s && Bit(x, i - s))
  {
    var w := x * Pow2(s);
    Power32();
    Products(x, Pow2(s));
    BitsUp(x, s, i);
    assert Sll(x, n) == w % 0x1_0000_0000;
    BitsCut(w, 32, i, Sll(x, n));
  }

  lemma SrlBit(x: Word, n: Word, s: nat, i: nat)
    requires s == n % 32 && i < 32
    ensures Bit(Srl(x, n), i) == (i + s < 32 && Bit(x, i + s))
  {
    Power32();
    EuclideanDivision(x, Pow2(s));
    QuotientNotNegative(x, Pow2(s));
    BitsDown(x, s, i, x / Pow2(s));
    BitsCut(x / Pow2(s), 32, i, Srl(x, n));
    if i + s >= 32 {
      HighBitsZero(x, 32, i + s);
    }
  }

  /** Rounding down a negative quotient is complementing that of the complement. */
  lemma NegativeQuotient(x: Word, p: nat)
    requires p > 0
    ensures (x - 0x1_0000_0000) / p == -(Not(x) / p) - 1
  {
    var k := Not(x);
    EuclideanDivision(k, p);
    Distribute(p, -(k / p), -1);
    DivModUnique(x - 0x1_0000_0000, p, -(k / p) - 1, p - 1 - k % p);
  }

  lemma NegativeShift(x: Word, n: Word)
    requires x >= 0x8000_0000
    ensures Sra(x, n) == Not(Srl(Not(x), n))
  {
    var p := Pow2(n % 32);
    NegativeQuotient(x, p);
    EuclideanDivision(Not(x), p);
    QuotientNotNegative(Not(x), p);
    Products(p - 1, Not(x) / p);
    assert p * (Not(x) / p) == (p - 1) * (Not(x) / p) + Not(x) / p;
    assert Srl(Not(x), n) == Not(x) / p;
  }

  /** The sign. */
  lemma TopBit(x: Word)
    ensures Bit(x, 31) == (x >= 0x8000_0000)
  {
    BitIsShift(x, 31);
    Power31();
  }

  lemma Power31()
    ensures Pow2(31) == 0x8000_0000
  {
    Power32();
    assert Pow2(32) == 2 * Pow2(31);
  }

  lemma {:induction false} SraBit(x: Word, n: Word, s: nat, i: nat)
    requires s == n % 32 && i < 32
    ensures Bit(Sra(x, n), i) == Bit(x, if i + s < 32 then i + s else 31)
  {
    TopBit(x);
    if x >= 0x8000_0000 {
      NegativeShift(x, n);
      NotBit(Srl(Not(x), n), i);
      SrlBit(Not(x), n, s, i);
      NotBit(x, if i + s < 32 then i + s else 31);
    } else {
      SrlBit(x, n, s, i);
      assert Sra(x, n) == Srl(x, n);
    }
  }

  // ----- Rotates -----

  /** The amounts of the two shifts of a rotate by s. */
  predicate Amounts(s: nat, back: nat) {
    s < 32 && back == if s == 0 then 0 else 32 - s
  }

  lemma BackAmount(n: Word)
    ensures Amounts(n % 32, Back(n))
  {
    var q, s := n / 32, n % 32;
    if s == 0 {
      DivModUnique(Bits32(0 - n), 32, if n == 0 then 0 else 0x800_0000 - q, 0);
    } else {
      DivModUnique(Bits32(0 - n), 32, 0x800_0000 - q - 1, 32 - s);
    }
  }

  lemma BitRight(x: Word, down: Word, up: Word, s: nat, back: nat, i: nat)
    requires i < 32 && Amounts(s, back)
    requires Bit(down, i) == (i + s < 32 && Bit(x, i + s))
    requires Bit(up, i) == (i >= back && Bit(x, i - back))
    ensures Bit(Or(down, up), i) == Bit(x, if i + s < 32 then i + s else i + s - 32)
  {
    LogicBits(down, up, i);
  }

  lemma BitLeft(x: Word, up: Word, down: Word, s: nat, back: nat, i: nat)
    requires i < 32 && Amounts(s, back)
    requires Bit(up, i) == (i >= s && Bit(x, i - s))
    requires Bit(down, i) == (i + back < 32 && Bit(x, i + back))
    ensures Bit(Or(up, down), i) == Bit(x, if i >= s then i - s else i - s + 32)
  {
    LogicBits(up, down, i);
  }

  /** ROR moves bit i + n, counted around, to bit i. */
  lemma RotateRightBit(x: Word, n: Word, i: nat)
    requires i < 32
    ensures Bit(Ror(x, n), i) == Bit(x, (i + n) % 32)
  {
    var s, back := n % 32, Back(n);
    BackAmount(n);
    SrlBit(x, n, s, i);
    SllBit(x, back, back, i);
    BitRight(x, Srl(x, n), Sll(x, back), s, back, i);
    AroundUp(i, n, s);
  }

  lemma AroundUp(i: nat, n: nat, s: nat)
    requires i < 32 && s == n % 32
    ensures (i + n) % 32 == if i + s < 32 then i + s else i + s - 32
  {
    DivModUnique(i + n, 32, if i + s < 32 then n / 32 else n / 32 + 1, if i + s < 32 then i + s else i + s - 32);
  }

  /** ROL moves bit i - n, counted around, to bit i. */
  lemma RotateLeftBit(x: Word, n: Word, i: nat)
    requires i < 32
    ensures Bit(Rol(x, n), i) == Bit(x, (i - n) % 32)
  {
    var s, back := n % 32, Back(n);
    BackAmount(n);
    SllBit(x, n, s, i);
    SrlBit(x, back, back, i);
    BitLeft(x, Sll(x, n), Srl(x, back), s, back, i);
    AroundDown(i, n, s);
  }

  lemma AroundDown(i: nat, n: nat, s: nat)
    requires i < 32 && s == n % 32
    ensures (i - n) % 32 == if i >= s then i - s else i - s + 32
  {
    DivModUnique(i - n, 32, if i >= s then 0 - n / 32 else 0 - n / 32 - 1, if i >= s then i - s else i - s + 32);
  }

  lemma RotateBackBit(x: Word, n: Word, i: nat)
    requires i < 32
    ensures Bit(Ror(Rol(x, n), n), i) == Bit(x, i)
    ensures Bit(Rol(Ror(x, n), n), i) == Bit(x, i)
  {
    var s, j, k := n % 32, (i + n) % 32, (i - n) % 32;
    AroundUp(i, n, s);
    AroundDown(j, n, s);
    RotateRightBit(Rol(x, n), n, i);
    RotateLeftBit(x, n, j);
    AroundDown(i, n, s);
    AroundUp(k, n, s);
    RotateLeftBit(Ror(x, n), n, i);
    RotateRightBit(x, n, k);
  }

  /** Rotating one way and back gives the word back, for every amount. */
  lemma RotateBack(x: Word, n: Word)
    ensures Ror(Rol(x, n), n) == x
    ensures Rol(Ror(x, n), n) == x
  {
    var there, back := Ror(Rol(x, n), n), Rol(Ror(x, n), n);
    Power32();
    forall i: nat | i < 32
      ensures Bit(there, i) == Bit(x, i) && Bit(back, i) == Bit(x, i)
    {
      RotateBackBit(x, n, i);
    }
    SameBits(there, x, 32);
    SameBits(back, x, 32);
  }

  /** ROR and RORI move bit i + n, counted around, to bit i; ROL moves it back. */
  lemma RotateBits(x: Word, n: Word, i: nat)
    requires i < 32
    ensures Bit(ComputeZbb(ROR, x, n), i) == Bit(x, (i + n) % 32)
    ensures Bit(ComputeZbb(RORI, x, n), i) == Bit(x, (i + n) % 32)
    ensures Bit(ComputeZbb(ROL, x, n), i) == Bit(x, (i - n) % 32)
  {
    RotateRightBit(x, n, i);
    RotateLeftBit(x, n, i);
  }

  /** ZEXT.H keeps the low sixteen bits. */
  lemma LowHalfBits(x: Word, i: nat)
    requires i < 32
    ensures Bit(ComputeZbb(ZEXT_H, x, 0), i) == (i < 16 && Bit(x, i))
  {
    var v := x % 0x1_0000;
    assert Pow2(8) == 0x100;
    assert Pow2(16) == 0x100 * Pow2(8);
    if i < 16 {
      BitsCut(x, 16, i, v);
    } else {
      HighBitsZero(v, 16, i);
    }
  }

  // ----- Single bits -----

  lemma {:induction false} BitsOfOne(i: nat)
    ensures Bit(1, i) == (i == 0)
  {
    if i > 0 {
      ZeroBits(i - 1);
    }
  }

  lemma OneBit(n: Word, i: nat)
    requires i < 32
    ensures Bit(Sll(1, n), i) == (i == n % 32)
  {
    SllBit(1, n, n % 32, i);
    if i >= n % 32 {
      BitsOfOne(i - n % 32);
    }
  }

  /** BSET, BCLR and BINV and their immediate forms set, clear and flip bit n and no other;
      BEXT and BEXTI read it. */
  lemma SingleBits(op: OpZbs, x: Word, n: Word, i: nat)
    requires i < 32
    ensures op == BSET || op == BSETI ==> Bit(ComputeZbs(op, x, n), i) == (i == n % 32 || Bit(x, i))
    ensures op == BCLR || op == BCLRI ==> Bit(ComputeZbs(op, x, n), i) == (i != n % 32 && Bit(x, i))
    ensures op == BINV || op == BINVI ==> Bit(ComputeZbs(op, x, n), i) == (if i == n % 32 then !Bit(x, i) else Bit(x, i))
    ensures op == BEXT || op == BEXTI ==> ComputeZbs(op, x, n) == if Bit(x, n % 32) then 1 else 0
  {
    MaskedBits(x, n, i);
    ExtractedBit(x, n);
  }

  lemma MaskedBits(x: Word, n: Word, i: nat)
    requires i < 32
    ensures Bit(Or(x, Sll(1, n)), i) == (i == n % 32 || Bit(x, i))
    ensures Bit(And(x, Not(Sll(1, n))), i) == (i != n % 32 && Bit(x, i))
    ensures Bit(Xor(x, Sll(1, n)), i) == (if i == n % 32 then !Bit(x, i) else Bit(x, i))
  {
    var m := Sll(1, n);
    OneBit(n, i);
    NotBit(m, i);
    LogicBits(x, m, i);
    LogicBits(x, Not(m), i);
  }

  lemma ExtractedBit(x: Word, n: Word)
    ensures Srl(x, n) % 2 == if Bit(x, n % 32) then 1 else 0
  {
    SrlBit(x, n, n % 32, 0);
  }

  /** The immediate forms are the same operations. */
  lemma SingleBitImmediates(x: Word, n: Word)
    ensures ComputeZbs(BSETI, x, n) == ComputeZbs(BSET, x, n)
    ensures ComputeZbs(BCLRI, x, n) == ComputeZbs(BCLR, x, n)
    ensures ComputeZbs(BINVI, x, n) == ComputeZbs(BINV, x, n)
    ensures ComputeZbs(BEXTI, x, n) == ComputeZbs(BEXT, x, n)
  {
  }

  /** CPOP is the number of positions that hold a one. */
  lemma Population(w: Word)
    ensures ComputeZbb(CPOP, w, 0) == |Positions(w, 32)|
  {
    Power32();
    OnesArePositions(w, 32);
    PositionsBound(w, 32);
  }

  lemma {:induction false} PositionsBound(w: nat, n: nat)
    ensures |Positions(w, n)| <= n
  {
    if n > 0 {
      PositionsBound(w, n - 1);
    }
  }
}
