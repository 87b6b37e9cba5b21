/** The corpus's 64-bit arithmetic: Newton's integer square root, and modular product and
    power by doubling, with the wrap-around of 64-bit addition written out. */
module Arith64 {
  import opened Words

  const HALF: int := 0x8000_0000_0000_0000

  // --- Integer square root ---

  /** A Newton step from above stays at or above the root. */
  lemma NewtonStaysAbove(n: nat, x: nat, q: nat, y: nat)
    requires n < x * (q + 1) && x + q < 2 * (y + 1)
    ensures n < (y + 1) * (y + 1)
  {
    var s, d := x + q + 1, x - (q + 1);
    assert s * s - d * d == 4 * (x * (q + 1));
    assert d * d >= 0;
    Squares(s, 2 * (y + 1));
    assert (2 * (y + 1)) * (2 * (y + 1)) == 4 * ((y + 1) * (y + 1));
  }

  lemma Squares(a: nat, b: nat)
    requires a <= b
    ensures a * a <= b * b
  {
    assert b * b - a * a == (b - a) * (b + a);
  }

  /** What the quotient says about the product. */
  lemma Quotient(n: nat, x: nat)
    requires x > 0
    ensures n < x * (n / x + 1)
    ensures x * (n / x) <= n
  {
    assert n == x * (n / x) + n % x;
  }

  /** The sum in a Newton step does not overflow: it is at most `n`. */
  lemma NewtonSum(n: nat, x: nat)
    requires n >= 2 && 1 <= x && 2 * x <= n + 1 && n < Square(x + 1)
    ensures x + n / x <= n || x + n / x <= 4
    ensures 0 <= n / x && x + n / x <= n + 1
  {
    Quotient(n, x);
    if x >= 2 {
      assert 2 * (n / x) <= x * (n / x);
    } else {
      assert n / x <= 3;
    }
  }

  function Square(x: nat): nat {
    x * x
  }

  /** One Newton step, and what the loop needs of it. */
  function Newton(n: nat, x: nat): nat
    requires x > 0
  {
    (x + n / x) / 2
  }

  lemma NewtonStep(n: nat, x: nat)
    requires n >= 2 && x > 0
    ensures n < Square(Newton(n, x) + 1) && Newton(n, x) > 0
  {
    Quotient(n, x);
    var q, y := n / x, Newton(n, x);
    assert 2 * y <= x + q < 2 * y + 2;
    NewtonStaysAbove(n, x, q, y);
  }

  /** A step that does not go down has reached the root. */
  lemma NewtonStops(n: nat, x: nat)
    requires x > 0 && Newton(n, x) >= x
    ensures Square(x) <= n
  {
    Quotient(n, x);
    assert n / x >= x;
    assert x * x <= x * (n / x);
  }

  method Isqrt(n: DWord) returns (r: Word)
    ensures Square(r) <= n < Square(r + 1)
  {
    var x: DWord, y: DWord := n, n / 2 + n % 2;
    if n < 2 {
      return n;
    }
    NewtonStart(n);
    while y < x
      invariant 1 <= x && 1 <= y && n < Square(x + 1) && n < Square(y + 1)
      invariant y == Newton(n, x) && 2 * y <= n + 1
      decreases x
    {
      x := y;
      NewtonRound(n, x);
      var sum: DWord := x + n / x;
      y := sum / 2;
    }
    NewtonStops(n, x);
    RootFits(x, n);
    r := x;
  }

  /** From `n` itself. */
  lemma NewtonStart(n: DWord)
    requires n >= 2
    ensures n / 2 + n % 2 == Newton(n, n) >= 1 && 2 * Newton(n, n) <= n + 1
    ensures n < Square(n + 1) && n < Square(Newton(n, n) + 1)
  {
    assert n / n == 1;
    NewtonStep(n, n);
    assert (n + 1) * (n + 1) == (n + 1) * n + n + 1;
  }

  /** What one turn of the loop keeps; its sum fits 64 bits. */
  lemma NewtonRound(n: DWord, x: nat)
    requires n >= 2 && 1 <= x && 2 * x <= n + 1 && n < Square(x + 1)
    ensures n / x >= 0 && x + n / x < 0x1_0000_0000_0000_0000
    ensures Newton(n, x) >= 1 && 2 * Newton(n, x) <= n + 1 && n < Square(Newton(n, x) + 1)
  {
    NewtonSum(n, x);
    NewtonStep(n, x);
  }

  lemma RootFits(x: nat, n: DWord)
    requires Square(x) <= n
    ensures x < 0x1_0000_0000
  {
    if x >= 0x1_0000_0000 {
      Squares(0x1_0000_0000, x);
    }
  }

  // --- Product and power modulo m ---

  /** 64-bit addition; at most one wrap is possible. */
  function Add64(a: DWord, b: DWord): DWord {
    if a + b < 0x1_0000_0000_0000_0000 then a + b else a + b - 0x1_0000_0000_0000_0000
  }

  /** The sum, reduced once: what the code does both to add and to double. */
  function AddMod(a: DWord, b: DWord, m: DWord): DWord {
    var s := Add64(a, b);
    if s >= m then s - m else s
  }

  /** The loop of the product: what is added to `r` while the bits of `b` are used up. */
  function MulLoop(r: DWord, a: DWord, b: DWord, m: DWord): DWord
    decreases b
  {
    if b == 0 then r
    else MulLoop(if b % 2 == 1 then AddMod(r, a, m) else r, AddMod(a, a, m), b / 2, m)
  }

  function Residue(a: DWord, m: DWord): (r: DWord)
    requires m > 0
    ensures r < m && r == a % m
  {
    a % m
  }

  function MulModOf(a: DWord, b: DWord, m: DWord): DWord
    requires m > 0
  {
    MulLoop(0, Residue(a, m), b, m)
  }

  method MulMod(a0: DWord, b0: DWord, m: DWord) returns (r: DWord)
    requires m > 0
    ensures r == MulModOf(a0, b0, m)
  {
    r := 0;
    var a, b := Residue(a0, m), b0;
    while b != 0
      invariant MulLoop(r, a, b, m) == MulModOf(a0, b0, m)
      decreases b
    {
      if b % 2 == 1 {
        r := AddMod(r, a, m);
      }
      a := AddMod(a, a, m);
      b := b / 2;
    }
  }

  /** The loop of the power. */
  function PowLoop(r: DWord, b: DWord, e: DWord, m: DWord): DWord
    requires m > 0
    decreases e
  {
    if e == 0 then r
    else PowLoop(if e % 2 == 1 then MulModOf(r, b, m) else r, MulModOf(b, b, m), e / 2, m)
  }

  function PowModOf(b: DWord, e: DWord, m: DWord): DWord
    requires m > 0
  {
    PowLoop(Residue(1, m), Residue(b, m), e, m)
  }

  method PowMod(b0: DWord, e0: DWord, m: DWord) returns (r: DWord)
    requires m > 0
    ensures r == PowModOf(b0, e0, m)
  {
    r := Residue(1, m);
    var b, e := Residue(b0, m), e0;
    while e != 0
      invariant PowLoop(r, b, e, m) == PowModOf(b0, e0, m)
      decreases e
    {
      if e % 2 == 1 {
        r := MulMod(r, b, m);
      }
      b := MulMod(b, b, m);
      e := e / 2;
    }
  }

  // --- When they are exact ---

  /** Terms that differ by a multiple of m have the same remainder. */
  lemma Congruent(x: int, y: int, m: nat, k: int)
    requires m > 0 && x == y + m * k
    ensures x % m == y % m
  {
    assert y == m * (y / m) + y % m;
    assert m * (y / m + k) == m * (y / m) + m * k;
    DivModUnique(x, m, y / m + k, y % m);
  }

  /** A reduced factor can stand for the factor. */
  lemma ReducedFactor(x: nat, y: nat, m: nat)
    requires m > 0
    ensures (x % m) * y % m == x * y % m
  {
    var q, r := x / m, x % m;
    assert x * y == r * y + m * (q * y) by {
      assert x == m * q + r;
    }
    Congruent(x * y, r * y, m, q * y);
  }

  /** How many times m goes into a sum of two residues. */
  function Carry(a: nat, b: nat, m: nat): nat {
    if a + b < m then 0 else 1
  }

  lemma AddModExact(a: DWord, b: DWord, m: DWord)
    requires 0 < m <= HALF && a < m && b < m
    ensures AddMod(a, b, m) < m && AddMod(a, b, m) == a + b - m * Carry(a, b, m)
  {
  }

  lemma {:induction false} MulLoopExact(r: DWord, a: DWord, b: DWord, m: DWord)
    requires 0 < m <= HALF && r < m && a < m
    ensures MulLoop(r, a, b, m) == (r + a * b) % m
    decreases b
  {
    if b == 0 {
      DivModUnique(r, m, 0, r);
    } else {
      var r' := if b % 2 == 1 then AddMod(r, a, m) else r;
      var k := if b % 2 == 1 then Carry(r, a, m) else 0;
      var a', l := AddMod(a, a, m), Carry(a, a, m);
      OneBitUsed(r, a, b, m, r', k);
      AddModExact(a, a, m);
      MulLoopExact(r', a', b / 2, m);
      Halving(r, a, b, r', a', m, k, l);
    }
  }

  lemma OneBitUsed(r: DWord, a: DWord, b: DWord, m: DWord, r': DWord, k: nat)
    requires 0 < m <= HALF && r < m && a < m
    requires r' == (if b % 2 == 1 then AddMod(r, a, m) else r) && k == if b % 2 == 1 then Carry(r, a, m) else 0
    ensures r' < m && r' == r + a * (b % 2) - m * k
  {
    AddModExact(r, a, m);
  }

  /** Using up one bit of b changes the sum by a multiple of m only. */
  lemma Halving(r: nat, a: nat, b: nat, r': nat, a': nat, m: nat, k: nat, l: nat)
    requires m > 0 && r' == r + a * (b % 2) - m * k && a' == a + a - m * l
    ensures (r' + a' * (b / 2)) % m == (r + a * b) % m
  {
    var c, bit := b / 2, b % 2;
    assert a * b == a * bit + (a + a) * c by {
      assert b == bit + 2 * c;
    }
    assert a' * c == (a + a) * c - m * (l * c);
    assert m * (k + l * c) == m * k + m * (l * c);
    Congruent(r + a * b, r' + a' * c, m, k + l * c);
  }

  function Pow(b: nat, e: nat): nat {
    if e == 0 then 1 else b * Pow(b, e - 1)
  }

  lemma {:induction false} PowOfSquare(b: nat, c: nat)
    ensures Pow(b * b, c) == Pow(b, 2 * c)
    decreases c
  {
    if c > 0 {
      PowOfSquare(b, c - 1);
      assert Pow(b, 2 * c) == b * Pow(b, 2 * c - 1) == b * (b * Pow(b, 2 * c - 2));
      assert b * (b * Pow(b, 2 * c - 2)) == b * b * Pow(b, 2 * c - 2);
    }
  }

  /** A reduced factor on the right. */
  lemma ReducedRight(x: nat, y: nat, y': nat, m: nat)
    requires m > 0 && y % m == y' % m
    ensures x * y % m == x * y' % m
  {
    ReducedFactor(y, x, m);
    ReducedFactor(y', x, m);
    assert y * x == x * y && y' * x == x * y';
  }

  lemma {:induction false} ReducedBase(x: nat, m: nat, c: nat)
    requires m > 0
    ensures Pow(x % m, c) % m == Pow(x, c) % m
    decreases c
  {
    if c > 0 {
      var p, p' := Pow(x, c - 1), Pow(x % m, c - 1);
      ReducedBase(x, m, c - 1);
      ReducedFactor(x, p', m);
      ReducedRight(x, p, p', m);
    }
  }

  lemma MulModExact(a: DWord, b: DWord, m: DWord)
    requires 0 < m <= HALF
    ensures MulModOf(a, b, m) == a * b % m
  {
    MulLoopExact(0, Residue(a, m), b, m);
    ReducedFactor(a, b, m);
  }

  lemma MulModBelow(a: DWord, b: DWord, m: DWord)
    requires 0 < m <= HALF
    ensures MulModOf(a, b, m) < m
  {
    MulModExact(a, b, m);
  }

  lemma {:induction false} PowLoopExact(r: DWord, b: DWord, e: DWord, m: DWord)
    requires 0 < m <= HALF && r < m
    ensures PowLoop(r, b, e, m) == r * Pow(b, e) % m
    decreases e
  {
    if e == 0 {
      DivModUnique(r, m, 0, r);
    } else {
      var c := e / 2;
      var r' := if e % 2 == 1 then MulModOf(r, b, m) else r;
      MulModBelow(r, b, m);
      MulModExact(r, b, m);
      MulModExact(b, b, m);
      PowLoopExact(r', MulModOf(b, b, m), c, m);
      PowOfSquare(b, c);
      PowStep(r, b, c, m);
      assert e % 2 == 1 ==> Pow(b, e) == b * Pow(b, 2 * c);
    }
  }

  lemma PowStep(r: nat, b: nat, c: nat, m: nat)
    requires m > 0
    ensures r * Pow(b * b % m, c) % m == r * Pow(b * b, c) % m
    ensures (r * b % m) * Pow(b * b % m, c) % m == r * (b * Pow(b * b, c)) % m
  {
    var p, p' := Pow(b * b, c), Pow(b * b % m, c);
    ReducedBase(b * b, m, c);
    ReducedRight(r, p', p, m);
    ReducedFactor(r * b, p', m);
    ReducedRight(r * b, p', p, m);
    assert r * b * p == r * (b * p);
  }

  lemma PowModExact(b: DWord, e: DWord, m: DWord)
    requires 0 < m <= HALF
    ensures PowModOf(b, e, m) == Pow(b, e) % m
  {
    PowLoopExact(Residue(1, m), Residue(b, m), e, m);
    ReducedFactor(1, Pow(b % m, e), m);
    ReducedBase(b, m, e);
  }

  // --- Beyond 2^63 the doubling overflows ---

  lemma SmallPowers()
    ensures Pow2(1) == 2 && Pow2(2) == 4 && Pow2(4) == 16 && Pow2(8) == 256 && Pow2(16) == 0x1_0000
    ensures Pow2(32) == 0x1_0000_0000 && Pow2(63) == HALF
  {
    assert Pow2(8) == 256;
    EightMore(8);
    EightMore(16);
    EightMore(24);
    EightMore(32);
    EightMore(40);
    EightMore(48);
    assert Pow2(63) == 128 * Pow2(56);
  }

  lemma EightMore(i: nat)
    ensures Pow2(i + 8) == 256 * Pow2(i)
  {
    assert Pow2(i + 2) == 4 * Pow2(i) by {
      assert Pow2(i + 1) == 2 * Pow2(i);
    }
    assert Pow2(i + 4) == 16 * Pow2(i) by {
      assert Pow2(i + 3) == 8 * Pow2(i);
    }
    assert Pow2(i + 6) == 64 * Pow2(i) by {
      assert Pow2(i + 5) == 32 * Pow2(i);
    }
    assert Pow2(i + 7) == 128 * Pow2(i);
  }

  lemma PowersFit(i: nat)
    requires i <= 63
    ensures Pow2(i) <= HALF && (i < 63 ==> Pow2(i + 1) <= HALF) && (i == 63 ==> Pow2(i) == HALF)
  {
    SmallPowers();
    PowersGrow(i, 63);
    if i < 63 {
      PowersGrow(i + 1, 63);
    }
  }

  /** Doubling below 2^63 is exact for such a modulus; 2^63 doubles to zero. */
  lemma Doubling(a: DWord, m: DWord)
    requires m > HALF
    ensures a + a <= HALF ==> AddMod(a, a, m) == a + a
    ensures a == HALF ==> AddMod(a, a, m) == 0
    ensures a <= HALF ==> AddMod(0, a, m) == a
  {
  }

  /** Above 2^63, a product of powers of two is still right while it stays below 2^64, and
      zero when it is 2^64. */
  lemma {:induction false} ProductOfPowers(i: nat, j: nat, a: DWord, b: DWord, m: DWord)
    requires m > HALF && i + j <= 64 && i <= 63 && a == Pow2(i) && b == Pow2(j)
    ensures MulLoop(0, a, b, m) == if i + j == 64 then 0 else Pow2(i + j)
    decreases j
  {
    PowersFit(i);
    Doubling(a, m);
    if j == 0 {
      assert b == 1 && MulLoop(0, a, 1, m) == MulLoop(a, AddMod(a, a, m), 0, m);
    } else {
      assert b == 2 * Pow2(j - 1) && b % 2 == 0 && b / 2 == Pow2(j - 1);
      if i < 63 {
        ProductOfPowers(i + 1, j - 1, AddMod(a, a, m), b / 2, m);
      } else {
        ProductOfZero(m);
      }
    }
  }

  lemma ProductOfZero(m: DWord)
    requires m > 0
    ensures MulLoop(0, 0, 1, m) == 0
  {
    assert AddMod(0, 0, m) == 0;
  }

  lemma SquareOfPower(i: nat, a: DWord, m: DWord)
    requires m > HALF && i <= 32 && a == Pow2(i)
    ensures MulModOf(a, a, m) == if i == 32 then 0 else Pow2(i + i)
  {
    SmallPowers();
    PowersGrow(i, 32);
    DivModUnique(a, m, 0, a);
    ProductOfPowers(i, i, a, a, m);
  }

  /** The remainder of 2^64 that the code misses. */
  lemma TwoTo64(m: DWord)
    requires m > HALF
    ensures 0x1_0000_0000_0000_0000 % m != 0
  {
    DivModUnique(0x1_0000_0000_0000_0000, m, 1, 0x1_0000_0000_0000_0000 - m);
  }

  /** The modular product is exact on all operands exactly for moduli up to 2^63. */
  lemma MulModExactIff(m: DWord)
    requires m > 0
    ensures (forall a: DWord, b: DWord :: MulModOf(a, b, m) == a * b % m) <==> m <= HALF
  {
    if m <= HALF {
      forall a: DWord, b: DWord ensures MulModOf(a, b, m) == a * b % m {
        MulModExact(a, b, m);
      }
    } else {
      SmallPowers();
      SquareOfPower(32, 0x1_0000_0000, m);
      TwoTo64(m);
      assert MulModOf(0x1_0000_0000, 0x1_0000_0000, m) == 0;
    }
  }

  lemma TwoToThe64(m: DWord)
    requires m > HALF
    ensures PowModOf(2, 64, m) == 0
  {
    SmallPowers();
    SquareOfPower(1, 2, m);
    SquareOfPower(2, 4, m);
    SquareOfPower(4, 16, m);
    SquareOfPower(8, 256, m);
    SquareOfPower(16, 0x1_0000, m);
    SquareOfPower(32, 0x1_0000_0000, m);
    DivModUnique(1, m, 0, 1);
    DivModUnique(2, m, 0, 2);
    assert MulModOf(1, 0, m) == 0;
    var z := MulModOf(0, 0, m);
    assert PowLoop(1, 0, 1, m) == PowLoop(0, z, 0, m) == 0;
    assert PowLoop(1, 0x1_0000_0000, 2, m) == PowLoop(1, 0, 1, m);
    assert PowLoop(1, 0x1_0000, 4, m) == PowLoop(1, 0x1_0000_0000, 2, m);
    assert PowLoop(1, 256, 8, m) == PowLoop(1, 0x1_0000, 4, m);
    assert PowLoop(1, 16, 16, m) == PowLoop(1, 256, 8, m);
    assert PowLoop(1, 4, 32, m) == PowLoop(1, 16, 16, m);
    assert PowLoop(1, 2, 64, m) == PowLoop(1, 4, 32, m);
  }

  lemma {:induction false} PowIsPow2(e: nat)
    ensures Pow(2, e) == Pow2(e)
  {
    if e > 0 {
      PowIsPow2(e - 1);
    }
  }

  /** ... and so is the modular power. */
  lemma PowModExactIff(m: DWord)
    requires m > 0
    ensures (forall b: DWord, e: DWord :: PowModOf(b, e, m) == Pow(b, e) % m) <==> m <= HALF
  {
    if m <= HALF {
      forall b: DWord, e: DWord ensures PowModOf(b, e, m) == Pow(b, e) % m {
        PowModExact(b, e, m);
      }
    } else {
      TwoToThe64(m);
      TwoTo64(m);
      SmallPowers();
      PowIsPow2(64);
      assert Pow2(64) == 2 * Pow2(63);
      assert PowModOf(2, 64, m) != Pow(2, 64) % m;
    }
  }
}
