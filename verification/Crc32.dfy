/** The corpus's two CRC-32 implementations, one driven by a 256-entry table and one bit by
    bit, and the shift-register definition that both meet (section 8 of RFC 1952). */
module Crc32 {
  // --- Shift registers over any words with an addition ---

  /** What a shift register is made of: one shift, the addition of words, and the lowest
      bit of a word and the word without it. */
  datatype Kit<!T> = Kit(shift: T -> T, add: (T, T) -> T, low: T -> T, half: T -> T)

  function Shifts<T>(kit: Kit<T>, c: T, k: nat): T
    decreases k
  {
    if k == 0 then c else kit.shift(Shifts(kit, c, k - 1))
  }

  /** `b` without its `k` lowest bits. */
  function Drop<T>(kit: Kit<T>, b: T, k: nat): T
    decreases k
  {
    if k == 0 then b else kit.half(Drop(kit, b, k - 1))
  }

  /** The register after the `k` lowest bits of `b` were fed in, lowest first. */
  function Feed<T>(kit: Kit<T>, c: T, b: T, k: nat): T
    decreases k
  {
    if k == 0 then c else kit.shift(kit.add(Feed(kit, c, b, k - 1), kit.low(Drop(kit, b, k - 1))))
  }

  /** A shift of a sum is the sum of the shifts. */
  ghost predicate Linear<T(!new)>(kit: Kit<T>) {
    forall a, b :: kit.shift(kit.add(a, b)) == kit.add(kit.shift(a), kit.shift(b))
  }

  /** Only the lowest bit of an addend meets the feedback; the others just move down. */
  ghost predicate FeedsLowBit<T(!new)>(kit: Kit<T>) {
    forall a, b :: kit.shift(kit.add(a, b)) == kit.add(kit.shift(kit.add(a, kit.low(b))), kit.half(b))
  }

  /** `rest` is a word without its lowest bit, left in place. */
  ghost predicate Decomposes<T(!new)>(kit: Kit<T>, rest: T -> T) {
    && (forall a, b :: kit.add(a, b) == kit.add(kit.add(a, kit.low(b)), rest(b)))
    && (forall b :: kit.shift(rest(b)) == kit.half(b))
  }

  lemma LinearFeedsLowBit<T(!new)>(kit: Kit<T>, rest: T -> T)
    requires Linear(kit) && Decomposes(kit, rest)
    ensures FeedsLowBit(kit)
  {
    forall a, b ensures kit.shift(kit.add(a, b)) == kit.add(kit.shift(kit.add(a, kit.low(b))), kit.half(b)) {
      assert kit.add(a, b) == kit.add(kit.add(a, kit.low(b)), rest(b));
    }
  }

  lemma {:induction false} ShiftsLinear<T(!new)>(kit: Kit<T>, a: T, b: T, k: nat)
    requires Linear(kit)
    ensures Shifts(kit, kit.add(a, b), k) == kit.add(Shifts(kit, a, k), Shifts(kit, b, k))
    decreases k
  {
    if k > 0 {
      ShiftsLinear(kit, a, b, k - 1);
    }
  }

  /** Feeding bits one at a time is adding them all first and then shifting, but for the
      bits not fed yet. */
  lemma {:induction false} FeedIsShifts<T(!new)>(kit: Kit<T>, c: T, b: T, k: nat)
    requires FeedsLowBit(kit)
    ensures Shifts(kit, kit.add(c, b), k) == kit.add(Feed(kit, c, b, k), Drop(kit, b, k))
    decreases k
  {
    if k > 0 {
      FeedIsShifts(kit, c, b, k - 1);
    }
  }

  lemma {:induction false} DropSplits<T>(kit: Kit<T>, b: T, k: nat, j: nat)
    ensures Drop(kit, b, k + j) == Drop(kit, Drop(kit, b, k), j)
    decreases j
  {
    if j > 0 {
      DropSplits(kit, b, k, j - 1);
    }
  }

  /** As long as the low bits are zero, shifting only drops them. */
  lemma {:induction false} ShiftsDrop<T>(kit: Kit<T>, a: T, k: nat)
    requires forall i: nat :: i < k ==> kit.shift(Drop(kit, a, i)) == kit.half(Drop(kit, a, i))
    ensures Shifts(kit, a, k) == Drop(kit, a, k)
    decreases k
  {
    if k > 0 {
      ShiftsDrop(kit, a, k - 1);
    }
  }

  // --- CRC-32 ---

  function Shift(c: bv32): bv32 {
    if c & 1 == 1 then 0xEDB88320 ^ (c >> 1) else c >> 1
  }

  function Xor(a: bv32, b: bv32): bv32 {
    a ^ b
  }

  function Low(a: bv32): bv32 {
    a & 1
  }

  function Half(a: bv32): bv32 {
    a >> 1
  }

  const CRC: Kit<bv32> := Kit(Shift, Xor, Low, Half)

  /** A register that took in a message bit by bit. */
  function Fed<T>(kit: Kit<T>, word: bv8 -> T, c: T, message: seq<bv8>): T
    decreases |message|
  {
    if message == [] then c else
      var n := |message| - 1;
      Feed(kit, Fed(kit, word, c, message[..n]), word(message[n]), 8)
  }

  function Widen(b: bv8): bv32 {
    b as bv32
  }

  /** The CRC-32 of a message. */
  function Crc(message: seq<bv8>): bv32 {
    Fed(CRC, Widen, 0xFFFFFFFF, message) ^ 0xFFFFFFFF
  }

  /** The feedback polynomial, lowest power in the highest bit: x^26 + x^23 + x^22 + x^16 + x^12 +
      x^11 + x^10 + x^8 + x^7 + x^5 + x^4 + x^2 + x + 1. */
  lemma Polynomial()
    ensures Shift(1) == (1 << 5) | (1 << 8) | (1 << 9) | (1 << 15) | (1 << 19) | (1 << 20) | (1 << 21)
                        | (1 << 23) | (1 << 24) | (1 << 26) | (1 << 27) | (1 << 29) | (1 << 30) | (1 << 31)
  {
  }

  /** A register that starts with all ones and is complemented at the end. */
  lemma EmptyMessage()
    ensures Crc([]) == 0
  {
  }

  // --- The CRC-32 register is linear ---

  lemma SameLowBits(a: bv32, b: bv32)
    requires a & 1 == b & 1
    ensures (a ^ b) & 1 == 0
  {
  }

  lemma DifferentLowBits(a: bv32, b: bv32)
    requires a & 1 != b & 1
    ensures (a ^ b) & 1 == 1
  {
  }

  lemma ShiftOddOdd(a: bv32, b: bv32)
    requires a & 1 == 1 && b & 1 == 1
    ensures Shift(a ^ b) == Shift(a) ^ Shift(b)
  {
    SameLowBits(a, b);
    assert Shift(a) == 0xEDB88320 ^ (a >> 1);
    assert Shift(b) == 0xEDB88320 ^ (b >> 1);
    assert Shift(a ^ b) == (a ^ b) >> 1;
  }

  lemma ShiftOddEven(a: bv32, b: bv32)
    requires a & 1 == 1 && b & 1 == 0
    ensures Shift(a ^ b) == Shift(a) ^ Shift(b)
  {
    DifferentLowBits(a, b);
  }

  lemma ShiftEvenEven(a: bv32, b: bv32)
    requires a & 1 == 0 && b & 1 == 0
    ensures Shift(a ^ b) == Shift(a) ^ Shift(b)
  {
    SameLowBits(a, b);
  }

  lemma LowBit(a: bv32)
    ensures a & 1 == 0 || a & 1 == 1
  {
  }

  lemma Commutes(a: bv32, b: bv32)
    ensures a ^ b == b ^ a
  {
  }

  lemma ShiftLinear(a: bv32, b: bv32)
    ensures Shift(a ^ b) == Shift(a) ^ Shift(b)
  {
    LowBit(a);
    LowBit(b);
    if a & 1 == 1 && b & 1 == 1 {
      ShiftOddOdd(a, b);
    } else if a & 1 == 1 {
      ShiftOddEven(a, b);
    } else if b & 1 == 1 {
      ShiftOddEven(b, a);
      Commutes(a, b);
      Commutes(Shift(a), Shift(b));
    } else {
      ShiftEvenEven(a, b);
    }
  }

  lemma LowAndRest(x: bv32, y: bv32)
    ensures x ^ y == (x ^ (y & 1)) ^ (y & 0xFFFFFFFE)
  {
  }

  lemma RestIsEven(y: bv32)
    ensures (y & 0xFFFFFFFE) & 1 == 0
  {
  }

  lemma RestShifted(y: bv32)
    ensures (y & 0xFFFFFFFE) >> 1 == y >> 1
  {
  }

  lemma ShiftRest(y: bv32)
    ensures Shift(y & 0xFFFFFFFE) == y >> 1
  {
    RestIsEven(y);
    RestShifted(y);
  }

  lemma ShiftXor(a: bv32, b: bv32)
    ensures Shift(Xor(a, b)) == Xor(Shift(a), Shift(b))
  {
    assert Xor(a, b) == a ^ b;
    assert Xor(Shift(a), Shift(b)) == Shift(a) ^ Shift(b);
    ShiftLinear(a, b);
  }

  lemma CrcLinear()
    ensures Linear(CRC)
  {
    forall a, b ensures CRC.shift(CRC.add(a, b)) == CRC.add(CRC.shift(a), CRC.shift(b)) {
      ShiftXor(a, b);
      assert CRC.add(a, b) == Xor(a, b);
      assert CRC.shift(a) == Shift(a) && CRC.shift(b) == Shift(b);
      assert CRC.shift(Xor(a, b)) == Shift(Xor(a, b));
    }
  }

  function Rest(b: bv32): bv32 {
    b & 0xFFFFFFFE
  }

  lemma CrcFeedsLowBit()
    ensures Linear(CRC) && FeedsLowBit(CRC)
  {
    CrcLinear();
    CrcDecomposes();
    LinearFeedsLowBit(CRC, Rest);
  }

  lemma XorLowAndRest(a: bv32, b: bv32)
    ensures Xor(a, b) == Xor(Xor(a, Low(b)), Rest(b))
  {
    LowAndRest(a, b);
  }

  lemma ShiftOfRest(b: bv32)
    ensures Shift(Rest(b)) == Half(b)
  {
    ShiftRest(b);
  }

  lemma CrcDecomposes()
    ensures Decomposes(CRC, Rest)
  {
    forall a, b ensures CRC.add(a, b) == CRC.add(CRC.add(a, CRC.low(b)), Rest(b)) {
      XorLowAndRest(a, b);
    }
    forall b ensures CRC.shift(Rest(b)) == CRC.half(b) {
      ShiftOfRest(b);
    }
  }

  // --- Eight shifts at once ---

  function Upper(c: bv32): bv32 {
    (c >> 8) << 8
  }

  lemma UpperDropped(c: bv32, i: nat)
    requires i < 8
    ensures Low(Drop(CRC, Upper(c), i)) == 0
  {
    match i
    case 0 => assert Low(Drop(CRC, Upper(c), 0)) == 0;
    case 1 => assert Low(Drop(CRC, Upper(c), 1)) == 0;
    case 2 => assert Low(Drop(CRC, Upper(c), 2)) == 0;
    case 3 => assert Low(Drop(CRC, Upper(c), 3)) == 0;
    case 4 => assert Low(Drop(CRC, Upper(c), 4)) == 0;
    case 5 => assert Low(Drop(CRC, Upper(c), 5)) == 0;
    case 6 => assert Low(Drop(CRC, Upper(c), 6)) == 0;
    case 7 => assert Low(Drop(CRC, Upper(c), 7)) == 0;
  }

  lemma ShiftTwo(b: bv32)
    ensures (b >> 1) >> 1 == b >> 2
  {
  }

  lemma ShiftFour(b: bv32)
    ensures (b >> 2) >> 2 == b >> 4
  {
  }

  lemma ShiftEight(b: bv32)
    ensures (b >> 4) >> 4 == b >> 8
  {
  }

  lemma DropTwo(b: bv32)
    ensures Drop(CRC, b, 2) == b >> 2
  {
    assert Drop(CRC, b, 1) == b >> 1;
    ShiftTwo(b);
  }

  lemma DropFour(b: bv32)
    ensures Drop(CRC, b, 4) == b >> 4
  {
    DropSplits(CRC, b, 2, 2);
    DropTwo(b);
    DropTwo(b >> 2);
    ShiftFour(b);
  }

  /** Dropping eight bits one at a time is one shift by eight. */
  lemma DropEight(b: bv32)
    ensures Drop(CRC, b, 8) == b >> 8
  {
    DropSplits(CRC, b, 4, 4);
    DropFour(b);
    DropFour(b >> 4);
    ShiftEight(b);
  }

  lemma UpperShifted(c: bv32)
    ensures Upper(c) >> 8 == c >> 8
  {
  }

  lemma UpperDroppedAll(c: bv32)
    ensures Drop(CRC, Upper(c), 8) == c >> 8
  {
    DropEight(Upper(c));
    UpperShifted(c);
  }

  lemma ByteShifted(b: bv8)
    ensures Widen(b) >> 8 == 0
  {
  }

  lemma ByteDropped(b: bv8)
    ensures Drop(CRC, Widen(b), 8) == 0
  {
    DropEight(Widen(b));
    ByteShifted(b);
  }

  lemma ShiftEven(a: bv32)
    requires Low(a) == 0
    ensures CRC.shift(a) == CRC.half(a)
  {
  }

  lemma ShiftsOfUpper(c: bv32)
    ensures Shifts(CRC, Upper(c), 8) == c >> 8
  {
    forall i: nat | i < 8
      ensures CRC.shift(Drop(CRC, Upper(c), i)) == CRC.half(Drop(CRC, Upper(c), i))
    {
      UpperDropped(c, i);
      ShiftEven(Drop(CRC, Upper(c), i));
    }
    ShiftsDrop(CRC, Upper(c), 8);
    UpperDroppedAll(c);
  }

  lemma LowByteAndUpper(c: bv32)
    ensures Xor(Widen(LowByte(c)), Upper(c)) == c
  {
  }

  /** A byte fed in, shift by shift. */
  function Round(c: bv32, b: bv8): bv32 {
    EightTimes(Xor(c, Widen(b)))
  }

  function EightTimes(c: bv32): bv32 {
    var two := Shift(Shift(c));
    var four := Shift(Shift(two));
    var six := Shift(Shift(four));
    Shift(Shift(six))
  }

  lemma TwoMore<T>(kit: Kit<T>, c: T, k: nat)
    ensures Shifts(kit, c, k + 2) == kit.shift(kit.shift(Shifts(kit, c, k)))
  {
    assert Shifts(kit, c, k + 1) == kit.shift(Shifts(kit, c, k));
  }

  lemma TwoMoreShifts(c: bv32, k: nat, d: bv32)
    requires Shifts(CRC, c, k) == d
    ensures Shifts(CRC, c, k + 2) == Shift(Shift(d))
  {
    TwoMore(CRC, c, k);
  }

  lemma ShiftsEightTimes(c: bv32)
    ensures Shifts(CRC, c, 8) == EightTimes(c)
  {
    var two := Shift(Shift(c));
    var four := Shift(Shift(two));
    TwoMoreShifts(c, 0, c);
    TwoMoreShifts(c, 2, two);
    TwoMoreShifts(c, 4, four);
    TwoMoreShifts(c, 6, Shift(Shift(four)));
  }

  lemma FeedRound(c: bv32, b: bv8)
    ensures Feed(CRC, c, Widen(b), 8) == Round(c, b)
  {
    FeedByte(c, b);
    ShiftsEightTimes(Xor(c, Widen(b)));
  }

  /** `s` holds the register before each byte and behind the last. */
  ghost predicate Rounds(message: seq<bv8>, s: seq<bv32>) {
    |s| == |message| + 1 && forall i :: 0 <= i < |message| ==> Round(s[i], message[i]) == s[i + 1]
  }

  lemma {:induction false} RoundsFed(message: seq<bv8>, s: seq<bv32>)
    requires Rounds(message, s)
    ensures Fed(CRC, Widen, s[0], message) == s[|message|]
    decreases |message|
  {
    var n := |message| - 1;
    if n >= 0 {
      RoundsFed(message[..n], s[..n + 1]);
      FeedRound(s[n], message[n]);
    }
  }

  lemma {:induction false} FedSplits<T>(kit: Kit<T>, word: bv8 -> T, c: T, first: seq<bv8>, second: seq<bv8>)
    ensures Fed(kit, word, c, first + second) == Fed(kit, word, Fed(kit, word, c, first), second)
    decreases |second|
  {
    var both, n, m := first + second, |first + second| - 1, |second| - 1;
    if second == [] {
      assert both == first;
    } else {
      assert both[..n] == first + second[..m] && both[n] == second[m];
      FedSplits(kit, word, c, first, second[..m]);
    }
  }

  /** Three parts, with the register behind each. */
  lemma {:induction false} FedInParts<T>(kit: Kit<T>, word: bv8 -> T, c0: T, a: seq<bv8>, c1: T, b: seq<bv8>, c2: T, d: seq<bv8>, c3: T)
    requires Fed(kit, word, c0, a) == c1 && Fed(kit, word, c1, b) == c2 && Fed(kit, word, c2, d) == c3
    ensures Fed(kit, word, c0, a + b + d) == c3
  {
    FedSplits(kit, word, c0, a, b);
    FedSplits(kit, word, c0, a + b, d);
  }

  lemma FirstRounds()
    ensures Fed(CRC, Widen, 0xFFFFFFFF, [0x31, 0x32, 0x33]) == 0x77B79C2D
  {
    RoundsFed([0x31, 0x32, 0x33], [0xFFFFFFFF, 0x7C231048, 0xB0ACBB32, 0x77B79C2D]);
  }

  lemma SecondRounds()
    ensures Fed(CRC, Widen, 0x77B79C2D, [0x34, 0x35, 0x36]) == 0xF68D2C9E
  {
    RoundsFed([0x34, 0x35, 0x36], [0x77B79C2D, 0x641C1F5C, 0x340AC5E3, 0xF68D2C9E]);
  }

  lemma ThirdRounds()
    ensures Fed(CRC, Widen, 0xF68D2C9E, [0x37, 0x38, 0x39]) == 0x340BC6D9
  {
    RoundsFed([0x37, 0x38, 0x39], [0xF68D2C9E, 0xAFFC9660, 0x651F2550, 0x340BC6D9]);
  }

  /** The CRC-32 of the characters "123456789" is CBF43926. */
  lemma CheckValue()
    ensures Crc([0x31, 0x32, 0x33] + [0x34, 0x35, 0x36] + [0x37, 0x38, 0x39]) == 0xCBF43926
  {
    FirstRounds();
    SecondRounds();
    ThirdRounds();
    FedInParts(CRC, Widen, 0xFFFFFFFF, [0x31, 0x32, 0x33], 0x77B79C2D, [0x34, 0x35, 0x36], 0xF68D2C9E, [0x37, 0x38, 0x39], 0x340BC6D9);
  }

  function LowByte(c: bv32): bv8 {
    (c & 0xFF) as bv8
  }

  function TableEntry(b: bv8): bv32 {
    Shifts(CRC, Widen(b), 8)
  }

  /** Eight shifts of any register are one table look-up on its low byte. */
  lemma EightShifts(c: bv32)
    ensures Shifts(CRC, c, 8) == Xor(TableEntry(LowByte(c)), c >> 8)
  {
    LowByteAndUpper(c);
    CrcLinear();
    ShiftsLinear(CRC, Widen(LowByte(c)), Upper(c), 8);
    ShiftsOfUpper(c);
  }

  lemma NothingLeft(x: bv32)
    ensures Xor(x, 0) == x
  {
  }

  /** Feeding a byte is adding it and shifting eight times ... */
  lemma FeedByte(c: bv32, b: bv8)
    ensures Feed(CRC, c, Widen(b), 8) == Shifts(CRC, Xor(c, Widen(b)), 8)
  {
    CrcFeedsLowBit();
    FeedIsShifts(CRC, c, Widen(b), 8);
    ByteDropped(b);
    NothingLeft(Feed(CRC, c, Widen(b), 8));
  }

  lemma ByteIsBelow(c: bv32, b: bv8)
    ensures Xor(c, Widen(b)) >> 8 == c >> 8
  {
  }

  /** ... and so it is one table look-up. */
  lemma FeedByTable(c: bv32, b: bv8)
    ensures Feed(CRC, c, Widen(b), 8) == Xor(TableEntry(LowByte(Xor(c, Widen(b)))), c >> 8)
  {
    FeedByte(c, b);
    EightShifts(Xor(c, Widen(b)));
    ByteIsBelow(c, b);
  }

  // --- The two implementations ---

  ghost predicate Filled(table: array<bv32>)
    reads table
  {
    table.Length == 256 && forall b: bv8 :: table[b as int] == TableEntry(b)
  }

  /** The inner loop for one entry. */
  method MakeEntry(i: bv8) returns (c: bv32)
    ensures c == TableEntry(i)
  {
    c := Widen(i);
    for k := 0 to 8
      invariant c == Shifts(CRC, Widen(i), k)
    {
      c := Shift(c);
    }
  }

  method MakeTable(table: array<bv32>)
    requires table.Length == 256
    modifies table
    ensures Filled(table)
  {
    for i := 0 to 256
      invariant forall b: bv8 :: b as int < i ==> table[b as int] == TableEntry(b)
    {
      var c := MakeEntry(i as bv8);
      table[i] := c;
      forall b: bv8 | b as int < i + 1
        ensures table[b as int] == TableEntry(b)
      {
        if b as int == i {
          assert (b as int) as bv8 == b;
        }
      }
    }
  }

  method CrcTab(table: array<bv32>, p: seq<bv8>) returns (r: bv32)
    requires Filled(table)
    ensures r == Crc(p)
  {
    var c: bv32 := 0xFFFFFFFF;
    for i := 0 to |p|
      invariant c == Fed(CRC, Widen, 0xFFFFFFFF, p[..i])
    {
      FeedByTable(c, p[i]);
      assert p[..i + 1][..i] == p[..i];
      c := Xor(table[LowByte(Xor(c, Widen(p[i]))) as int], c >> 8);
    }
    assert p[..|p|] == p;
    r := c ^ 0xFFFFFFFF;
  }

  /** The conditional exclusive-or, written with a mask that is all ones or all zeros. */
  function MaskShift(c: bv32): bv32 {
    (c >> 1) ^ (0xEDB88320 & (0 - (c & 1)))
  }

  lemma MaskOdd(c: bv32)
    requires c & 1 == 1
    ensures MaskShift(c) == 0xEDB88320 ^ (c >> 1)
  {
    assert 0 - (c & 1) == 0xFFFFFFFF;
    Commutes(c >> 1, 0xEDB88320);
  }

  lemma MaskEven(c: bv32)
    requires c & 1 == 0
    ensures MaskShift(c) == c >> 1
  {
    assert 0 - (c & 1) == 0;
    NothingLeft(c >> 1);
  }

  lemma MaskShiftIsShift(c: bv32)
    ensures MaskShift(c) == Shift(c)
  {
    LowBit(c);
    if c & 1 == 1 {
      MaskOdd(c);
    } else {
      MaskEven(c);
    }
  }

  method CrcBit(p: seq<bv8>) returns (r: bv32)
    ensures r == Crc(p)
  {
    var c: bv32 := 0xFFFFFFFF;
    for i := 0 to |p|
      invariant c == Fed(CRC, Widen, 0xFFFFFFFF, p[..i])
    {
      FeedByte(c, p[i]);
      assert p[..i + 1][..i] == p[..i];
      c := Xor(c, Widen(p[i]));
      ghost var start := c;
      for k := 0 to 8
        invariant c == Shifts(CRC, start, k)
      {
        MaskShiftIsShift(c);
        c := MaskShift(c);
      }
    }
    assert p[..|p|] == p;
    r := !c;
  }
}
