/** Laws that tie instructions to each other and to the integers they stand for, stated
    without repeating how each is computed. */
module Laws {
  import opened Words
  import opened Isa
  import opened Alu
  import opened Machine

  // ----- Arithmetic and comparison -----

  lemma WrapUp(x: Word, y: Word)
    ensures Add32(x, y) == if x + y < 0x1_0000_0000 then x + y else x + y - 0x1_0000_0000
    ensures Bits32(x - y) == if x >= y then x - y else x - y + 0x1_0000_0000
  {
  }

  /** SUB undoes ADD, and ADD undoes SUB. */
  lemma SubtractUndoesAdd(x: Word, y: Word, imm: Int32, pc: Word)
    ensures ComputeI(SUB, ComputeI(ADD, x, y, imm, pc), y, imm, pc) == x
    ensures ComputeI(ADD, ComputeI(SUB, x, y, imm, pc), y, imm, pc) == x
  {
    WrapUp(x, y);
    WrapUp(Add32(x, y), y);
    WrapUp(Bits32(x - y), y);
  }

  /** The shift-and-add instructions scale the first operand by 2, 4 and 8. */
  lemma ScaledSums(x: Word, y: Word)
    ensures ComputeZba(SH1ADD, x, y) == (2 * x + y) % 0x1_0000_0000
    ensures ComputeZba(SH2ADD, x, y) == (4 * x + y) % 0x1_0000_0000
    ensures ComputeZba(SH3ADD, x, y) == (8 * x + y) % 0x1_0000_0000
  {
    WrappedTerm(2 * x, y);
    WrappedTerm(4 * x, y);
    WrappedTerm(8 * x, y);
  }

  lemma WrappedTerm(s: nat, y: Word)
    ensures Add32(Bits32(s), y) == (s + y) % 0x1_0000_0000
  {
    var q := s / 0x1_0000_0000 + (Bits32(s) + y) / 0x1_0000_0000;
    DivModUnique(s + y, 0x1_0000_0000, q, Add32(Bits32(s), y));
  }

  /** MIN and MAX give one of the operands, at most or at least both as signed numbers, MINU
      and MAXU as unsigned ones. */
  lemma Extremes(x: Word, y: Word)
    ensures var v := ComputeZbb(MIN, x, y); (v == x || v == y) && Signed(v) <= Signed(x) && Signed(v) <= Signed(y)
    ensures var v := ComputeZbb(MAX, x, y); (v == x || v == y) && Signed(v) >= Signed(x) && Signed(v) >= Signed(y)
    ensures var v := ComputeZbb(MINU, x, y); (v == x || v == y) && v <= x && v <= y
    ensures var v := ComputeZbb(MAXU, x, y); (v == x || v == y) && v >= x && v >= y
  {
  }

  /** ORC.B fills each byte that holds any one bit. */
  lemma FilledBytes(b0: Byte, b1: Byte, b2: Byte, b3: Byte)
    ensures ComputeZbb(ORC_B, Join4(b0, b1, b2, b3), 0)
            == Join4(if b0 == 0 then 0 else 255, if b1 == 0 then 0 else 255, if b2 == 0 then 0 else 255, if b3 == 0 then 0 else 255)
  {
    BytesOfJoin(b0, b1, b2, b3);
  }

  function RegisterForm(op: OpI): OpI {
    match op
    case ADDI => ADD
    case SLTI => SLT
    case SLTIU => SLTU
    case XORI => XOR
    case ORI => OR
    case ANDI => AND
    case SLLI => SLL
    case SRLI => SRL
    case SRAI => SRA
    case _ => op
  }

  /** An immediate form is the register form with the sign-extended immediate. */
  lemma ImmediateForms(op: OpI, x: Word, y: Word, imm: Int32, pc: Word, u: Word)
    requires op in {ADDI, SLTI, SLTIU, XORI, ORI, ANDI, SLLI, SRLI, SRAI} && u == Bits32(imm)
    ensures ComputeI(op, x, y, imm, pc) == ComputeI(RegisterForm(op), x, u, 0, pc)
  {
    SignedOfBits(imm);
  }

  /** A branch is taken exactly when its complement is not, BLT and BLTU when SLT and SLTU
      give 1, and BEQ when the difference is zero. */
  lemma BranchesAndComparisons(x: Word, y: Word, imm: Int32, pc: Word)
    ensures BranchTaken(BNE, x, y) == !BranchTaken(BEQ, x, y)
    ensures BranchTaken(BGE, x, y) == !BranchTaken(BLT, x, y)
    ensures BranchTaken(BGEU, x, y) == !BranchTaken(BLTU, x, y)
    ensures BranchTaken(BLT, x, y) <==> ComputeI(SLT, x, y, imm, pc) == 1
    ensures BranchTaken(BLTU, x, y) <==> ComputeI(SLTU, x, y, imm, pc) == 1
    ensures BranchTaken(BEQ, x, y) <==> ComputeI(SUB, x, y, imm, pc) == 0
  {
  }

  /** The two comparisons disagree exactly on words of different sign. */
  lemma SignedAndUnsigned(x: Word, y: Word)
    ensures (BranchTaken(BLT, x, y) != BranchTaken(BLTU, x, y)) <==> (x < 0x8000_0000) != (y < 0x8000_0000)
  {
  }

  // ----- Shifts -----

  lemma {:induction false} PowersSplit(i: nat, j: nat)
    ensures Pow2(i + j) == Pow2(i) * Pow2(j)
    decreases j
  {
    if j > 0 {
      PowersSplit(i, j - 1);
      Associate(Pow2(i), 2, Pow2(j - 1));
      Associate(2, Pow2(i), Pow2(j - 1));
    }
  }

  lemma WordPower(n: nat)
    requires n <= 32
    ensures Pow2(n) * Pow2(32 - n) == 0x1_0000_0000
  {
    PowersSplit(n, 32 - n);
    Power32();
  }

  /** Multiplying by p modulo p * q and dividing again keeps the residue modulo q. */
  lemma UpAndDown(x: nat, p: nat, q: nat)
    requires p > 0 && q > 0
    ensures p * q > 0 && x * p % (p * q) / p == x % q
  {
    DivideTwice(x * p, p, q);
    DivModUnique(x * p, p, x, 0);
  }

  lemma RemainderShrinks(x: nat, q: nat)
    requires q > 0
    ensures 0 <= x % q <= x
  {
    EuclideanDivision(x, q);
    QuotientShrinks(x, q);
    Products(q, x / q);
  }

  /** Shifting left and back keeps exactly the low 32 - n bits. */
  lemma ShiftLeftAndBack(x: Word, n: Word, p: nat, q: nat)
    requires n < 32 && p == Pow2(n) && q == Pow2(32 - n)
    ensures Srl(Sll(x, n), n) == x % q
  {
    WordPower(n);
    UpAndDown(x, p, q);
    RemainderShrinks(x, q);
    assert n % 32 == n;
    assert Sll(x, n) / p == x % q;
  }

  /** Division by a positive number moves toward zero, or stays. */
  lemma QuotientShrinks(i: int, p: nat)
    requires p > 0
    ensures i >= 0 ==> 0 <= i / p <= i
    ensures i < 0 ==> i <= i / p < 0
  {
    EuclideanDivision(i, p);
    TowardZero(i, p, i / p, i % p);
  }

  lemma TowardZero(i: int, p: nat, q: int, r: int)
    requires p > 0 && i == p * q + r && 0 <= r < p
    ensures i >= 0 ==> 0 <= q <= i
    ensures i < 0 ==> i <= q < 0
  {
    Multiples(p, q);
    assert p * q == q + (p - 1) * q;
    Products(p - 1, q);
  }

  /** SRA rounds the signed value down to a multiple of the power of two. */
  lemma ArithmeticShift(x: Word, n: Word, p: nat)
    requires n < 32 && p == Pow2(n)
    ensures var s := Signed(Sra(x, n)); p * s <= Signed(x) < p * s + p
  {
    var i := Signed(x);
    QuotientShrinks(i, p);
    assert n % 32 == n;
    SignedOfBits(i / p);
    assert Signed(Sra(x, n)) == i / p;
    EuclideanDivision(i, p);
  }

  // ----- Memory -----

  /** A value stored is the value loaded, cut to the width. */
  lemma {:induction false} StoreThenLoad(a: Arch, addr: Word, width: Width, value: Word)
    requires Refusal(a, Store(addr, width, value)) == None
    ensures var b := Perform(a, Store(addr, width, value));
            LoadLe(b.mem, addr, width) == value % Pow256(width)
  {
    var bytes := ToLe(value, width);
    assert Splice(a.mem, addr, bytes)[addr..addr + width] == bytes;
    LeCut(value, width);
  }

  /** Encoding a value and reading it back gives its low bytes. */
  lemma {:induction false} LeCut(v: nat, n: nat)
    ensures FromLe(ToLe(v, n)) == v % Pow256(n)
    decreases n
  {
    if n > 0 {
      LeCut(v / 256, n - 1);
      assert ToLe(v, n)[1..] == ToLe(v / 256, n - 1);
      DivideTwice(v, 256, Pow256(n - 1));
    }
  }

  /** A load from bytes that a store does not touch sees what was there. */
  lemma LoadElsewhere(a: Arch, addr: Word, width: Width, value: Word, other: Word, w: Width)
    requires Refusal(a, Store(addr, width, value)) == None && other + w <= |a.mem|
    requires other + w <= addr || addr + width <= other
    ensures var b := Perform(a, Store(addr, width, value)); LoadLe(b.mem, other, w) == LoadLe(a.mem, other, w)
  {
    ElsewhereKept(a.mem, addr, ToLe(value, width), other, w);
  }

  lemma ElsewhereKept(mem: seq<Byte>, addr: nat, bytes: seq<Byte>, other: nat, w: nat)
    requires addr + |bytes| <= |mem| && other + w <= |mem| && (other + w <= addr || addr + |bytes| <= other)
    ensures Splice(mem, addr, bytes)[other..other + w] == mem[other..other + w]
  {
  }

  /** An AMO gives the old word to rd and leaves the new one in memory. */
  lemma {:induction false} AmoUpdates(a: Arch, rd: Reg, addr: Word, op: OpA, operand: Word)
    requires op != LR_W && op != SC_W && Refusal(a, Amo(rd, addr, op, operand)) == None
    ensures var b := Perform(a, Amo(rd, addr, op, operand));
            LoadLe(b.mem, addr, 4) == ComputeAmo(op, LoadLe(a.mem, addr, 4), operand)
            && (rd != 0 ==> b.regs[rd] == LoadLe(a.mem, addr, 4))
  {
    var v := ComputeAmo(op, LoadLe(a.mem, addr, 4), operand);
    assert Splice(a.mem, addr, ToLe(v, 4))[addr..addr + 4] == ToLe(v, 4);
    PowersOf256();
    LeRoundTrip(v, 4);
  }

  // ----- CSRs -----

  /** The two halves of a counter are the number of retired instructions. */
  lemma CountersJoin(a: Arch)
    ensures ReadCsr(a, 0xC00) + 0x1_0000_0000 * ReadCsr(a, 0xC80) == a.cycles
    ensures ReadCsr(a, 0xC02) == ReadCsr(a, 0xC00) && ReadCsr(a, 0xC82) == ReadCsr(a, 0xC80)
  {
  }

  /** A value swapped into mscratch is what the next read returns. */
  lemma ScratchRoundTrip(a: Arch, rd: Reg, value: Word)
    ensures Refusal(a, CsrAccess(rd, CSRRW, MSCRATCH, value, true)) == None
    ensures var b := Perform(a, CsrAccess(rd, CSRRW, MSCRATCH, value, true));
            ReadCsr(b, MSCRATCH) == value && (rd != 0 ==> b.regs[rd] == ReadCsr(a, MSCRATCH))
  {
  }
}
