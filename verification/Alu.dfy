/** The combinational part of every extension: what an instruction writes to `rd`, as a
    function of its operands. */
module Alu {
  import opened Words
  import opened Bits
  import opened Isa

  /** A bit operation on two words. */
  function Logic(f: BitOp, a: Word, b: Word): Word {
    Power32();
    BitwiseBound(f, a, b, 32);
    Bitwise(f, a, b)
  }

  function Xor(a: Word, b: Word): Word { Logic((x, y) => x != y, a, b) }
  function Or(a: Word, b: Word): Word { Logic((x, y) => x || y, a, b) }
  function And(a: Word, b: Word): Word { Logic((x, y) => x && y, a, b) }
  function Not(a: Word): Word { 0x1_0000_0000 - 1 - a }

  /** Shifts use the low five bits of the amount. */
  function Sll(a: Word, n: Word): Word { Bits32(a * Pow2(n % 32)) }
  function Srl(a: Word, n: Word): Word { Bits32(a / Pow2(n % 32)) }
  function Sra(a: Word, n: Word): Word { Bits32(Signed(a) / Pow2(n % 32)) }

  function Flag(b: bool): Word { if b then 1 else 0 }

  /** RV32I register and immediate arithmetic, LUI and AUIPC. */
  function ComputeI(op: OpI, rs1: Word, rs2: Word, imm: Int32, pc: Word): Word
    requires IsComputeI(op)
  {
    var u := Bits32(imm);
    match op
    case ADD => Add32(rs1, rs2)
    case SUB => Bits32(rs1 - rs2)
    case SLL => Sll(rs1, rs2)
    case SLT => Flag(Signed(rs1) < Signed(rs2))
    case SLTU => Flag(rs1 < rs2)
    case XOR => Xor(rs1, rs2)
    case SRL => Srl(rs1, rs2)
    case SRA => Sra(rs1, rs2)
    case OR => Or(rs1, rs2)
    case AND => And(rs1, rs2)
    case ADDI => Add32(rs1, u)
    case SLTI => Flag(Signed(rs1) < imm)
    case SLTIU => Flag(rs1 < u)
    case XORI => Xor(rs1, u)
    case ORI => Or(rs1, u)
    case ANDI => And(rs1, u)
    case SLLI => Sll(rs1, u)
    case SRLI => Srl(rs1, u)
    case SRAI => Sra(rs1, u)
    case LUI => u
    case AUIPC => Add32(pc, u)
  }

  predicate IsComputeI(op: OpI) {
    op in {ADD, SUB, SLL, SLT, SLTU, XOR, SRL, SRA, OR, AND, ADDI, SLTI, SLTIU, XORI, ORI, ANDI,
           SLLI, SRLI, SRAI, LUI, AUIPC}
  }

  predicate BranchTaken(op: OpI, rs1: Word, rs2: Word)
    requires op in {BEQ, BNE, BLT, BGE, BLTU, BGEU}
  {
    match op
    case BEQ => rs1 == rs2
    case BNE => rs1 != rs2
    case BLT => Signed(rs1) < Signed(rs2)
    case BGE => Signed(rs1) >= Signed(rs2)
    case BLTU => rs1 < rs2
    case BGEU => rs1 >= rs2
  }

  /** Division rounding toward zero, and its remainder. */
  function TruncDiv(a: int, b: int): int
    requires b != 0
  {
    if a >= 0 then a / b else -(-a / b)
  }

  function TruncRem(a: int, b: int): int
    requires b != 0
  {
    if a >= 0 then a % b else -(-a % b)
  }

  const INT_MIN: int := -0x8000_0000

  /** RV32M. The multiply-high forms keep the upper half of a 64-bit wrapping product. */
  function ComputeM(op: OpM, rs1: Word, rs2: Word): Word {
    var a, b := Signed(rs1), Signed(rs2);
    match op
    case MUL => Bits32(rs1 * rs2)
    case MULH => High(a * b)
    case MULHSU => High(a * rs2)
    case MULHU => High(rs1 * rs2)
    case DIV => Bits32(if b == 0 then -1 else if a == INT_MIN && b == -1 then INT_MIN else TruncDiv(a, b))
    case DIVU => if rs2 == 0 then 0x1_0000_0000 - 1 else rs1 / rs2
    case REM => Bits32(if b == 0 then a else if a == INT_MIN && b == -1 then 0 else TruncRem(a, b))
    case REMU => if rs2 == 0 then rs1 else rs1 % rs2
  }

  /** Bits 63..32 of a 64-bit wrapping product. */
  function High(product: int): Word {
    product % 0x1_0000_0000_0000_0000 / 0x1_0000_0000
  }

  function ComputeZba(op: OpZba, rs1: Word, rs2: Word): Word {
    match op
    case SH1ADD => Add32(Bits32(rs1 * 2), rs2)
    case SH2ADD => Add32(Bits32(rs1 * 4), rs2)
    case SH3ADD => Add32(Bits32(rs1 * 8), rs2)
  }

  /** The number of significant bits. */
  function BitLength(w: nat): nat {
    if w == 0 then 0 else 1 + BitLength(w / 2)
  }

  function TrailingZeros(w: nat): nat {
    if w == 0 || w % 2 == 1 then 0 else 1 + TrailingZeros(w / 2)
  }

  function SextByte(b: int): Word {
    var x := b % 256;
    Bits32(if x < 0x80 then x else x - 256)
  }

  function SextHalf(h: int): Word {
    var x := h % 0x1_0000;
    Bits32(if x < 0x8000 then x else x - 0x1_0000)
  }

  function Full(b: bool): Byte { if b then 0xFF else 0 }

  /** Rotates: the bits shifted out at one end come in at the other. The complementary
      amount wraps, so that a rotate by 0 keeps the word. */
  function Back(n: Word): Word { Bits32(0 - n) % 32 }
  function Rol(x: Word, n: Word): Word { Or(Sll(x, n), Srl(x, Back(n))) }
  function Ror(x: Word, n: Word): Word { Or(Srl(x, n), Sll(x, Back(n))) }

  function ComputeZbb(op: OpZbb, rs1: Word, src2: Word): Word {
    var b0, b1, b2, b3 := rs1 % 256, rs1 / 0x100 % 256, rs1 / 0x1_0000 % 256, rs1 / 0x100_0000;
    match op
    case ANDN => And(rs1, Not(src2))
    case ORN => Or(rs1, Not(src2))
    case XNOR => Xor(rs1, Not(src2))
    case CLZ => Bits32(32 - BitLength(rs1))
    case CTZ => Bits32(if rs1 == 0 then 32 else TrailingZeros(rs1))
    case CPOP => Bits32(Ones(rs1))
    case MAX => if Signed(rs1) >= Signed(src2) then rs1 else src2
    case MAXU => if rs1 >= src2 then rs1 else src2
    case MIN => if Signed(rs1) <= Signed(src2) then rs1 else src2
    case MINU => if rs1 <= src2 then rs1 else src2
    case SEXT_B => SextByte(rs1)
    case SEXT_H => SextHalf(rs1)
    case ZEXT_H => rs1 % 0x1_0000
    case ROL => Rol(rs1, src2)
    case ROR => Ror(rs1, src2)
    case RORI => Ror(rs1, src2)
    case ORC_B => Full(b0 != 0) + 0x100 * Full(b1 != 0) + 0x1_0000 * Full(b2 != 0) + 0x100_0000 * Full(b3 != 0)
    case REV8 => b3 + 0x100 * b2 + 0x1_0000 * b1 + 0x100_0000 * b0
  }

  function ComputeZbs(op: OpZbs, rs1: Word, src2: Word): Word {
    match op
    case BCLR | BCLRI => And(rs1, Not(Sll(1, src2)))
    case BEXT | BEXTI => Srl(rs1, src2) % 2
    case BINV | BINVI => Xor(rs1, Sll(1, src2))
    case BSET | BSETI => Or(rs1, Sll(1, src2))
  }

  /** The value an AMO stores, given the old word. */
  function ComputeAmo(op: OpA, was: Word, rs2: Word): Word
    requires op != LR_W && op != SC_W
  {
    match op
    case AMOSWAP_W => rs2
    case AMOADD_W => Add32(was, rs2)
    case AMOXOR_W => Xor(was, rs2)
    case AMOAND_W => And(was, rs2)
    case AMOOR_W => Or(was, rs2)
    case AMOMIN_W => if Signed(was) <= Signed(rs2) then was else rs2
    case AMOMAX_W => if Signed(was) >= Signed(rs2) then was else rs2
    case AMOMINU_W => if was <= rs2 then was else rs2
    case AMOMAXU_W => if was >= rs2 then was else rs2
  }

  // ----- Multiplication is exact -----

  lemma SameResidue(x: int, y: int, k: int)
    requires x == y + 0x1_0000_0000 * k
    ensures x % 0x1_0000_0000 == y % 0x1_0000_0000
  {
  }

  /** Splitting a 64-bit product into two words and reassembling it. */
  lemma SplitSigned(product: int)
    requires -0x8000_0000_0000_0000 <= product < 0x8000_0000_0000_0000
    ensures 0x1_0000_0000 * Signed(High(product)) + product % 0x1_0000_0000 == product
  {
    var w := if product < 0 then product + 0x1_0000_0000_0000_0000 else product;
    assert product % 0x1_0000_0000_0000_0000 == w;
    SameResidue(w, product, if product < 0 then 0x1_0000_0000 else 0);
  }

  lemma SplitUnsigned(product: int)
    requires 0 <= product < 0x1_0000_0000_0000_0000
    ensures 0x1_0000_0000 * High(product) + product % 0x1_0000_0000 == product
  {
    assert product % 0x1_0000_0000_0000_0000 == product;
  }

  lemma SmallerProduct(x: nat, y: nat, la: nat, lb: nat)
    requires x <= la && y <= lb
    ensures 0 <= x * y <= la * lb
  {
    Products(x, y);
    Distribute(la, y, lb - y);
    Products(la, lb - y);
    Distribute(y, x, la - x);
    Products(y, la - x);
  }

  lemma NegatedProduct(b: int, k: int)
    ensures b * (0 - k) == 0 - b * k
    ensures (0 - b) * k == 0 - b * k
  {
  }

  lemma ProductBounds(a: int, b: int, la: nat, lb: nat)
    requires 0 - la <= a <= la && 0 - lb <= b <= lb
    ensures -(la * lb) <= a * b <= la * lb
  {
    var x, y := if a < 0 then 0 - a else a, if b < 0 then 0 - b else b;
    SmallerProduct(x, y, la, lb);
    NegatedProduct(x, y);
    NegatedProduct(0 - x, y);
  }

  /** The low word of a product depends only on the operands' residues. */
  lemma LowWord(rs1: Word, rs2: Word)
    ensures (Signed(rs1) * Signed(rs2)) % 0x1_0000_0000 == (rs1 * rs2) % 0x1_0000_0000
    ensures (Signed(rs1) * rs2) % 0x1_0000_0000 == (rs1 * rs2) % 0x1_0000_0000
  {
    var a, b := Signed(rs1), Signed(rs2);
    var i, j := if a == rs1 then 0 else 1, if b == rs2 then 0 else 1;
    assert a * rs2 == rs1 * rs2 + 0x1_0000_0000 * (-i * rs2);
    SameResidue(a * rs2, rs1 * rs2, -i * rs2);
    assert a * b == a * rs2 + 0x1_0000_0000 * (-j * a);
    SameResidue(a * b, a * rs2, -j * a);
  }

  /** MUL and MULH are together the exact signed product, which fits 64 bits: the 64-bit
      multiplication never wraps. */
  lemma MulhExact(rs1: Word, rs2: Word)
    ensures -0x8000_0000_0000_0000 <= Signed(rs1) * Signed(rs2) < 0x8000_0000_0000_0000
    ensures 0x1_0000_0000 * Signed(ComputeM(MULH, rs1, rs2)) + ComputeM(MUL, rs1, rs2) == Signed(rs1) * Signed(rs2)
  {
    ProductBounds(Signed(rs1), Signed(rs2), 0x8000_0000, 0x8000_0000);
    LowWord(rs1, rs2);
    SplitSigned(Signed(rs1) * Signed(rs2));
  }

  /** MUL and MULHSU: the product of a signed and an unsigned operand. */
  lemma MulhsuExact(rs1: Word, rs2: Word)
    ensures -0x8000_0000_0000_0000 <= Signed(rs1) * rs2 < 0x8000_0000_0000_0000
    ensures 0x1_0000_0000 * Signed(ComputeM(MULHSU, rs1, rs2)) + ComputeM(MUL, rs1, rs2) == Signed(rs1) * rs2
  {
    ProductBounds(Signed(rs1), rs2, 0x8000_0000, 0xFFFF_FFFF);
    LowWord(rs1, rs2);
    SplitSigned(Signed(rs1) * rs2);
  }

  /** MUL and MULHU: the unsigned product. */
  lemma MulhuExact(rs1: Word, rs2: Word)
    ensures rs1 * rs2 < 0x1_0000_0000_0000_0000
    ensures 0x1_0000_0000 * ComputeM(MULHU, rs1, rs2) + ComputeM(MUL, rs1, rs2) == rs1 * rs2
  {
    SmallerProduct(rs1, rs2, 0xFFFF_FFFF, 0xFFFF_FFFF);
    var product := rs1 * rs2;
    assert product <= 0xFFFF_FFFE_0000_0001;
    SplitUnsigned(product);
  }

  // ----- Division -----

  lemma QuotientFits(m: nat, b: int)
    requires b != 0
    ensures b == 1 ==> m / b == m
    ensures b == -1 ==> m / b == 0 - m
    ensures b >= 2 ==> 0 <= 2 * (m / b) <= m
    ensures b <= -2 ==> 0 - m <= 2 * (m / b) <= 0
  {
    var k, r := m / b, m % b;
    assert m == b * k + r;
    if b >= 2 {
      MulSign(b, k);
    } else if b <= -2 {
      MulSign(-b, -k);
      assert b * k == -b * -k;
    }
  }

  lemma MulSign(b: int, k: int)
    requires b >= 2
    ensures k < 0 ==> b * k <= -b
    ensures k >= 0 ==> 2 * k <= b * k
  {
  }

  lemma SignedOfBits(i: Int32)
    ensures Signed(Bits32(i)) == i
  {
  }

  lemma Euclid(m: nat, b: int)
    requires b != 0
    ensures m == b * (m / b) + m % b && 0 <= m % b && (if b > 0 then m % b < b else m % b < 0 - b)
  {
  }

  /** `q` and `r` divide `a` by `b` rounding toward zero: the remainder is smaller than the
      divisor and takes the dividend's sign. */
  predicate Truncates(a: int, b: int, q: int, r: int) {
    a == b * q + r
    && (if b > 0 then 0 - b < r < b else b < r < 0 - b)
    && (r != 0 ==> (r < 0 <==> a < 0))
  }

  lemma TruncatedDivision(a: int, b: int)
    requires b != 0
    ensures Truncates(a, b, TruncDiv(a, b), TruncRem(a, b))
  {
    var m := if a < 0 then 0 - a else a;
    Euclid(m, b);
    if a < 0 {
      NegatedProduct(b, m / b);
      assert TruncDiv(a, b) == 0 - m / b && TruncRem(a, b) == 0 - m % b;
    }
  }

  lemma TruncatedFits(a: Int32, b: Int32)
    requires b != 0 && !(a == INT_MIN && b == -1)
    ensures -0x8000_0000 <= TruncDiv(a, b) < 0x8000_0000
  {
    QuotientFits(if a < 0 then 0 - a else a, b);
  }

  lemma TruncatedRemFits(a: Int32, b: Int32)
    requires b != 0
    ensures -0x8000_0000 <= TruncRem(a, b) < 0x8000_0000
  {
    Euclid(if a < 0 then 0 - a else a, b);
  }

  /** Signed division: the quotient rounds toward zero and the remainder takes the
      dividend's sign. Division by zero and INT_MIN / -1 have their defined results, and
      on every input dividend = divisor * quotient + remainder modulo 2^32. */
  lemma DivideSigned(rs1: Word, rs2: Word)
    ensures var a, b := Signed(rs1), Signed(rs2);
            var q, r := Signed(ComputeM(DIV, rs1, rs2)), Signed(ComputeM(REM, rs1, rs2));
            && (b == 0 ==> q == -1 && r == a)
            && (a == INT_MIN && b == -1 ==> q == INT_MIN && r == 0)
            && (b != 0 && !(a == INT_MIN && b == -1) ==> Truncates(a, b, q, r))
            && Bits32(b * q + r) == rs1
  {
    var a, b := Signed(rs1), Signed(rs2);
    assert Bits32(a) == rs1;
    if b != 0 && !(a == INT_MIN && b == -1) {
      var q, r := TruncDiv(a, b), TruncRem(a, b);
      TruncatedDivision(a, b);
      TruncatedFits(a, b);
      TruncatedRemFits(a, b);
      SignedOfBits(q);
      SignedOfBits(r);
      assert Signed(ComputeM(DIV, rs1, rs2)) == q && Signed(ComputeM(REM, rs1, rs2)) == r;
    }
  }

  lemma DivideUnsigned(rs1: Word, rs2: Word)
    ensures var q, r := ComputeM(DIVU, rs1, rs2), ComputeM(REMU, rs1, rs2);
            && (rs2 == 0 ==> q == 0x1_0000_0000 - 1 && r == rs1)
            && (rs2 != 0 ==> rs1 == rs2 * q + r && r < rs2)
  {
  }

  // ----- Counting, sign extension and byte order -----

  lemma {:induction false} BitLengthBounds(w: nat)
    ensures w < Pow2(BitLength(w))
    ensures w > 0 ==> BitLength(w) >= 1 && Pow2(BitLength(w) - 1) <= w
  {
    if w > 0 {
      BitLengthBounds(w / 2);
      assert Pow2(BitLength(w)) == 2 * Pow2(BitLength(w / 2));
      if w >= 2 {
        assert Pow2(BitLength(w) - 1) == 2 * Pow2(BitLength(w / 2) - 1);
      }
    }
  }

  lemma {:induction false} BitLengthFits(w: nat, n: nat)
    requires w < Pow2(n)
    ensures BitLength(w) <= n
    decreases n
  {
    if w > 0 {
      BitLengthFits(w / 2, n - 1);
    }
  }

  lemma {:induction false} WordBits(w: Word)
    ensures BitLength(w) <= 32 && ComputeZbb(CLZ, w, 0) == 32 - BitLength(w)
  {
    Power32();
    BitLengthFits(w, 32);
  }

  /** CLZ counts the zeros above the highest set bit. */
  lemma {:induction false} LeadingZeros(w: Word, n: Word)
    requires n == ComputeZbb(CLZ, w, 0)
    ensures n <= 32 && (n == 32 <==> w == 0) && w < Pow2(32 - n) && (w > 0 ==> Pow2(31 - n) <= w)
  {
    WordBits(w);
    BitLengthBounds(w);
  }

  lemma {:induction false} LowestBit(w: nat)
    requires w > 0
    ensures w % Pow2(TrailingZeros(w)) == 0 && w / Pow2(TrailingZeros(w)) % 2 == 1
    ensures TrailingZeros(w) < BitLength(w)
  {
    if w % 2 == 0 {
      LowestBit(w / 2);
      DivideTwice(w, 2, Pow2(TrailingZeros(w / 2)));
    }
  }

  /** CTZ counts the zeros below the lowest set bit. */
  lemma {:induction false} LowZeros(w: Word, n: Word)
    requires n == ComputeZbb(CTZ, w, 0)
    ensures n <= 32 && (n == 32 <==> w == 0) && (w > 0 ==> w % Pow2(n) == 0 && w / Pow2(n) % 2 == 1)
  {
    if w > 0 {
      LowestBit(w);
      WordBits(w);
      assert n == TrailingZeros(w);
    }
  }

  /** SEXT.B and SEXT.H keep the low byte or halfword and its sign. */
  lemma SignExtendsByte(w: Word)
    ensures var b := Signed(ComputeZbb(SEXT_B, w, 0)); -0x80 <= b < 0x80 && b % 0x100 == w % 0x100
  {
    assert ComputeZbb(SEXT_B, w, 0) == SextByte(w);
  }

  lemma SignExtendsHalf(w: Word)
    ensures var h := Signed(ComputeZbb(SEXT_H, w, 0)); -0x8000 <= h < 0x8000 && h % 0x1_0000 == w % 0x1_0000
  {
    assert ComputeZbb(SEXT_H, w, 0) == SextHalf(w);
  }

  /** The bytes of a word, and a word from its bytes. */
  lemma BytesOf(v: Word)
    ensures v == Join4(v % 256, v / 0x100 % 256, v / 0x1_0000 % 256, v / 0x100_0000)
  {
    var q1 := v / 0x100;
    var q2 := q1 / 0x100;
    var q3 := q2 / 0x100;
    DivModUnique(v, 0x1_0000, q2, v % 0x100 + 0x100 * (q1 % 0x100));
    DivModUnique(v, 0x100_0000, q3, v % 0x100 + 0x100 * (q1 % 0x100) + 0x1_0000 * (q2 % 0x100));
  }

  lemma BytesOfJoin(b0: Byte, b1: Byte, b2: Byte, b3: Byte)
    ensures var v := Join4(b0, b1, b2, b3);
            v % 256 == b0 && v / 0x100 % 256 == b1 && v / 0x1_0000 % 256 == b2 && v / 0x100_0000 == b3
  {
    var v := Join4(b0, b1, b2, b3);
    DivModUnique(v, 0x100, b1 + 0x100 * b2 + 0x1_0000 * b3, b0);
    DivModUnique(b1 + 0x100 * b2 + 0x1_0000 * b3, 0x100, b2 + 0x100 * b3, b1);
    DivModUnique(v, 0x1_0000, b2 + 0x100 * b3, b0 + 0x100 * b1);
    DivModUnique(b2 + 0x100 * b3, 0x100, b3, b2);
    DivModUnique(v, 0x100_0000, b3, b0 + 0x100 * b1 + 0x1_0000 * b2);
  }

  lemma Reversed(w: Word)
    ensures ComputeZbb(REV8, w, 0) == Join4(w / 0x100_0000, w / 0x1_0000 % 256, w / 0x100 % 256, w % 256)
  {
  }

  /** REV8 reverses the byte order ... */
  lemma ByteReverse(w: Word, r: Word)
    requires r == ComputeZbb(REV8, w, 0)
    ensures r % 256 == w / 0x100_0000 && r / 0x100 % 256 == w / 0x1_0000 % 256
    ensures r / 0x1_0000 % 256 == w / 0x100 % 256 && r / 0x100_0000 == w % 256
  {
    Reversed(w);
    BytesOfJoin(w / 0x100_0000, w / 0x1_0000 % 256, w / 0x100 % 256, w % 256);
  }

  /** ... and doing it twice gives the word back. */
  lemma ByteReverseTwice(w: Word)
    ensures ComputeZbb(REV8, ComputeZbb(REV8, w, 0), 0) == w
  {
    var r := ComputeZbb(REV8, w, 0);
    ByteReverse(w, r);
    Reversed(r);
    BytesOf(w);
  }
}
