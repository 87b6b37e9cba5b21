/** Bits of natural numbers, and operations that work on each bit by itself. */
module Bits {
  import opened Words

  function Bit(w: nat, i: nat): bool
    decreases i
  {
    if i == 0 then w % 2 == 1 else Bit(w / 2, i - 1)
  }

  function Value(b: bool): nat {
    if b then 1 else 0
  }

  /** A two-bit operation that gives 0 on two zeros. */
  type BitOp = f: (bool, bool) -> bool | !f(false, false) witness (x, y) => x && y

  /** The operation on each pair of bits. */
  function Bitwise(f: BitOp, a: nat, b: nat): nat
    decreases a + b
  {
    if a == 0 && b == 0 then 0 else Value(f(a % 2 == 1, b % 2 == 1)) + 2 * Bitwise(f, a / 2, b / 2)
  }

  /** Bit i of the result depends on bit i of the operands and on nothing else. */
  lemma {:induction false} BitOfBitwise(f: BitOp, a: nat, b: nat, i: nat)
    ensures Bit(Bitwise(f, a, b), i) == f(Bit(a, i), Bit(b, i))
    decreases i
  {
    var r := Bitwise(f, a, b);
    if a == 0 && b == 0 {
      ZeroBits(i);
    } else {
      var v := Value(f(a % 2 == 1, b % 2 == 1));
      DivModUnique(r, 2, Bitwise(f, a / 2, b / 2), v);
      if i > 0 {
        BitOfBitwise(f, a / 2, b / 2, i - 1);
      }
    }
  }

  lemma {:induction false} ZeroBits(i: nat)
    ensures !Bit(0, i)
  {
    if i > 0 {
      ZeroBits(i - 1);
    }
  }

  lemma {:induction false} BitwiseBound(f: BitOp, a: nat, b: nat, n: nat)
    requires a < Pow2(n) && b < Pow2(n)
    ensures Bitwise(f, a, b) < Pow2(n)
    decreases n
  {
    if n > 0 && !(a == 0 && b == 0) {
      BitwiseBound(f, a / 2, b / 2, n - 1);
    }
  }

  /** Bit i is what a shift right by i leaves in the lowest place. */
  lemma {:induction false} BitIsShift(w: nat, i: nat)
    ensures Bit(w, i) <==> w / Pow2(i) % 2 == 1
    decreases i
  {
    if i > 0 {
      BitIsShift(w / 2, i - 1);
      DivideTwice(w, 2, Pow2(i - 1));
    }
  }

  /** Two numbers of n bits with the same bits are the same. */
  lemma {:induction false} SameBits(a: nat, b: nat, n: nat)
    requires a < Pow2(n) && b < Pow2(n) && forall i: nat :: i < n ==> Bit(a, i) == Bit(b, i)
    ensures a == b
    decreases n
  {
    if n > 0 {
      assert Bit(a, 0) == Bit(b, 0);
      forall i: nat | i < n - 1 ensures Bit(a / 2, i) == Bit(b / 2, i) {
        assert Bit(a, i + 1) == Bit(b, i + 1);
      }
      SameBits(a / 2, b / 2, n - 1);
    }
  }

  lemma {:induction false} HighBitsZero(w: nat, n: nat, i: nat)
    requires w < Pow2(n) && n <= i
    ensures !Bit(w, i)
    decreases n
  {
    if n == 0 {
      ZeroBits(i);
    } else {
      HighBitsZero(w / 2, n - 1, i - 1);
    }
  }

  /** Multiplying by 2^k moves every bit up by k. */
  lemma {:induction false} BitsUp(w: nat, k: nat, i: nat)
    ensures Bit(w * Pow2(k), i) == (i >= k && Bit(w, i - k))
    decreases k
  {
    if k > 0 {
      Associate(w, 2, Pow2(k - 1));
      Associate(2, w, Pow2(k - 1));
      DivModUnique(w * Pow2(k), 2, w * Pow2(k - 1), 0);
      if i > 0 {
        BitsUp(w, k - 1, i - 1);
      }
    }
  }

  /** Dividing by 2^k moves every bit down by k. */
  lemma {:induction false} BitsDown(w: nat, k: nat, i: nat, q: nat)
    requires q == w / Pow2(k)
    ensures Bit(q, i) == Bit(w, i + k)
    decreases k
  {
    if k > 0 {
      DivideTwice(w, 2, Pow2(k - 1));
      BitsDown(w / 2, k - 1, i, q);
    }
  }

  /** Cutting to n bits keeps the bits below n. */
  lemma {:induction false} BitsCut(w: nat, n: nat, i: nat, r: nat)
    requires i < n && r == w % Pow2(n)
    ensures Bit(r, i) == Bit(w, i)
    decreases i
  {
    DivideTwice(w, 2, Pow2(n - 1));
    if i > 0 {
      EuclideanDivision(w / 2, Pow2(n - 1));
      BitsCut(w / 2, n - 1, i - 1, w / 2 % Pow2(n - 1));
    }
  }

  /** The complement in n bits flips every bit. */
  lemma {:induction false} BitsOfComplement(w: nat, n: nat, i: nat)
    requires w < Pow2(n) && i < n
    ensures Bit(Pow2(n) - 1 - w, i) == !Bit(w, i)
    decreases n
  {
    if i > 0 {
      BitsOfComplement(w / 2, n - 1, i - 1);
    }
  }

  /** The positions below n that hold a one. */
  function Positions(w: nat, n: nat): (s: set<nat>)
    ensures s == set i: nat | i < n && Bit(w, i)
  {
    if n == 0 then {} else Positions(w, n - 1) + if Bit(w, n - 1) then {n - 1} else {}
  }

  function Ones(w: nat): nat {
    if w == 0 then 0 else w % 2 + Ones(w / 2)
  }

  lemma {:induction false} PositionsCount(w: nat, n: nat)
    ensures n > 0 ==> |Positions(w, n)| == w % 2 + |Positions(w / 2, n - 1)|
    decreases n
  {
    if n == 1 {
      assert Positions(w, 1) == Positions(w, 0) + if Bit(w, 0) then {0} else {};
    } else if n > 1 {
      PositionsCount(w, n - 1);
    }
  }

  /** Adding up the lowest bits counts the positions that hold a one. */
  lemma {:induction false} OnesArePositions(w: nat, n: nat)
    requires w < Pow2(n)
    ensures Ones(w) == |Positions(w, n)|
    decreases n
  {
    if n > 0 {
      OnesArePositions(w / 2, n - 1);
      PositionsCount(w, n);
    }
  }
}
