/** Fixed-width machine integers, two's-complement views and the byte orders that the
    VM, its snapshots and its device-tree writer use. Words are mathematical integers
    with an explicit range, so every wrap-around is written out. */
module Words {
  datatype Option<+T> = None | Some(value: T)

  type Byte = x: int | 0 <= x < 0x100
  type Half = x: int | 0 <= x < 0x1_0000
  type Word = x: int | 0 <= x < 0x1_0000_0000
  type DWord = x: int | 0 <= x < 0x1_0000_0000_0000_0000
  type Int32 = x: int | -0x8000_0000 <= x < 0x8000_0000
  /** The size of a memory access. */
  type Width = w: int | w == 1 || w == 2 || w == 4 witness 1

  /** Wrapping 32-bit addition. */
  function Add32(a: int, b: int): Word {
    (a + b) % 0x1_0000_0000
  }

  /** The 32-bit pattern of any integer, that is, its residue. */
  function Bits32(i: int): Word {
    i % 0x1_0000_0000
  }

  /** The two's-complement reading of a 32-bit pattern. */
  function Signed(w: Word): (i: int)
    ensures -0x8000_0000 <= i < 0x8000_0000
  {
    if w < 0x8000_0000 then w else w - 0x1_0000_0000
  }

  function Pow2(n: nat): (p: nat)
    ensures p >= 1
  {
    if n == 0 then 1 else 2 * Pow2(n - 1)
  }

  lemma {:induction false} PowersGrow(n: nat, m: nat)
    requires n <= m
    ensures Pow2(n) <= Pow2(m)
    decreases m
  {
    if n < m {
      PowersGrow(n, m - 1);
    }
  }

  lemma Power32()
    ensures Pow2(32) == 0x1_0000_0000
  {
    assert Pow2(8) == 256;
    assert Pow2(16) == 256 * Pow2(8);
    assert Pow2(24) == 256 * Pow2(16);
    assert Pow2(32) == 256 * Pow2(24);
  }

  function Pow256(n: nat): (p: nat)
    ensures p >= 1
  {
    if n == 0 then 1 else 256 * Pow256(n - 1)
  }

  function Zeros(n: nat): (s: seq<Byte>)
    ensures |s| == n
  {
    seq(n, i => 0)
  }

  /** Pieces of bytes, one after the other. */
  function Joined(pieces: seq<seq<Byte>>): seq<Byte> {
    if pieces == [] then [] else Joined(pieces[..|pieces| - 1]) + pieces[|pieces| - 1]
  }

  /** The `n` low bytes of `v`, least significant first. */
  function ToLe(v: nat, n: nat): (s: seq<Byte>)
    ensures |s| == n
    decreases n
  {
    if n == 0 then [] else [v % 256] + ToLe(v / 256, n - 1)
  }

  function FromLe(s: seq<Byte>): nat {
    if s == [] then 0 else s[0] + 256 * FromLe(s[1..])
  }

  /** The `n` low bytes of `v`, most significant first. */
  function ToBe(v: nat, n: nat): (s: seq<Byte>)
    ensures |s| == n
    decreases n
  {
    if n == 0 then [] else ToBe(v / 256, n - 1) + [v % 256]
  }

  function FromBe(s: seq<Byte>): nat {
    if s == [] then 0 else 256 * FromBe(s[..|s| - 1]) + s[|s| - 1]
  }

  lemma {:induction false} FromLeBound(s: seq<Byte>)
    ensures FromLe(s) < Pow256(|s|)
  {
    if s != [] {
      FromLeBound(s[1..]);
    }
  }

  /** Little-endian encoding loses nothing: decoding gives the value back. */
  lemma {:induction false} LeRoundTrip(v: nat, n: nat)
    requires v < Pow256(n)
    ensures FromLe(ToLe(v, n)) == v
    decreases n
  {
    if n != 0 {
      LeRoundTrip(v / 256, n - 1);
      assert ToLe(v, n)[1..] == ToLe(v / 256, n - 1);
    }
  }

  /** ... and decoding bytes and encoding the value gives the bytes back. */
  lemma {:induction false} LeBytesRoundTrip(s: seq<Byte>)
    ensures ToLe(FromLe(s), |s|) == s
  {
    if s != [] {
      LeBytesRoundTrip(s[1..]);
      DivModUnique(FromLe(s), 256, FromLe(s[1..]), s[0]);
    }
  }

  lemma {:induction false} BeRoundTrip(v: nat, n: nat)
    requires v < Pow256(n)
    ensures FromBe(ToBe(v, n)) == v
    decreases n
  {
    if n != 0 {
      BeRoundTrip(v / 256, n - 1);
      assert ToBe(v, n)[..n - 1] == ToBe(v / 256, n - 1);
    }
  }

  lemma Multiples(d: int, e: int)
    requires d > 0
    ensures e >= 1 ==> d * e >= d
    ensures e <= -1 ==> d * e <= -d
  {
    if e >= 1 {
      assert d * e == d + d * (e - 1);
    } else if e <= -1 {
      assert d * e == d * (e + 1) - d;
    }
  }

  /** Quotient and remainder are the only pair that fits. */
  lemma DivModUnique(x: int, d: int, q: int, r: int)
    requires 0 <= r < d && x == d * q + r
    ensures x / d == q && x % d == r
  {
    var e := x / d - q;
    EuclideanDivision(x, d);
    Distribute(d, q, e);
    Multiples(d, e);
  }

  lemma SmallRemainder(v: nat, m: nat)
    requires v < m
    ensures v % m == v
  {
    DivModUnique(v, m, 0, v);
  }

  lemma Distribute(a: int, b: int, c: int)
    ensures a * (b + c) == a * b + a * c
  {
  }

  lemma Associate(a: int, b: int, c: int)
    ensures a * (b * c) == a * b * c
  {
  }

  lemma EuclideanDivision(x: int, d: int)
    requires d > 0
    ensures x == d * (x / d) + x % d && 0 <= x % d < d
  {
  }

  lemma QuotientNotNegative(x: nat, d: nat)
    requires d > 0
    ensures x / d >= 0
  {
  }

  /** A whole number of `a`s below a * b leaves room for one more. */
  lemma RoomForOne(a: nat, y: nat, b: nat)
    requires y < b
    ensures a * y + a <= a * b
  {
    Distribute(a, y + 1, b - y - 1);
    Distribute(a, y, 1);
    Products(a, b - y - 1);
  }

  lemma Products(a: nat, q: int)
    ensures q >= 0 ==> a * q >= 0
    ensures q < 0 ==> a * q <= 0
  {
  }

  /** Dividing by a product is dividing twice, and taking a remainder commutes with it. */
  lemma DivideTwice(v: nat, a: nat, b: nat)
    requires a > 0 && b > 0
    ensures a * b > 0
    ensures v / a / b == v / (a * b)
    ensures v / a % b == v % (a * b) / a
    ensures v % a == v % (a * b) % a
  {
    var x, r := v / a, v % a;
    var q, y := x / b, x % b;
    var ab, ay := a * b, a * y;
    EuclideanDivision(v, a);
    EuclideanDivision(x, b);
    RoomForOne(a, y, b);
    Products(a, y);
    assert v == ab * q + (ay + r) by {
      Distribute(a, b * q, y);
      Associate(a, b, q);
    }
    DivModUnique(v, ab, q, ay + r);
    DivModUnique(ay + r, a, y, r);
  }

  /** A big-endian number is its high bytes followed by its low bytes. */
  lemma {:induction false} BeSplits(high: nat, low: nat, n: nat, k: nat)
    requires low < Pow256(k)
    ensures ToBe(high * Pow256(k) + low, n + k) == ToBe(high, n) + ToBe(low, k)
    decreases k
  {
    if k > 0 {
      var p := Pow256(k - 1);
      var v := high * p + low / 256;
      assert high * Pow256(k) == 256 * (high * p) by {
        Associate(high, 256, p);
        Associate(256, high, p);
      }
      DivModUnique(high * Pow256(k) + low, 256, v, low % 256);
      BeSplits(high, low / 256, n, k - 1);
    }
  }

  /** Each big-endian byte is a shift away. */
  lemma {:induction false} BeByte(v: nat, n: nat, i: nat)
    requires i < n
    ensures ToBe(v, n)[i] == v / Pow256(n - 1 - i) % 256
    decreases n
  {
    if i < n - 1 {
      BeByte(v / 256, n - 1, i);
      DivideTwice(v, 256, Pow256(n - 2 - i));
    }
  }

  lemma PowersOf256()
    ensures Pow256(1) == 0x100 && Pow256(2) == 0x1_0000 && Pow256(4) == 0x1_0000_0000 && Pow256(8) == 0x1_0000_0000_0000_0000
  {
    assert Pow256(3) == 0x100_0000;
    assert Pow256(6) == 0x1_0000_0000_0000;
  }

  lemma RepeatedDivision(v: nat)
    ensures v / 256 / 256 == v / 0x1_0000
    ensures v / 256 / 256 / 256 == v / 0x100_0000
  {
  }

  lemma LeSingle(v: nat)
    ensures ToLe(v, 1) == [v % 256]
  {
    assert ToLe(v / 256, 0) == [];
  }

  /** The bytes of a halfword and of a word, spelled out. */
  lemma LeBytes(v: nat)
    ensures ToLe(v, 2) == [v % 256, v / 0x100 % 256]
    ensures ToLe(v, 4) == [v % 256, v / 0x100 % 256, v / 0x1_0000 % 256, v / 0x100_0000 % 256]
  {
    RepeatedDivision(v);
    var a := v / 256;
    var b := a / 256;
    var c := b / 256;
    LeSingle(a);
    LeSingle(c);
    assert ToLe(b, 2) == [b % 256] + ToLe(c, 1);
    assert ToLe(a, 3) == [a % 256] + ToLe(b, 2);
  }

  /** The value of two and of four bytes, spelled out. */
  function Join2(b0: int, b1: int): int {
    b0 + 0x100 * b1
  }

  function Join4(b0: int, b1: int, b2: int, b3: int): int {
    b0 + 0x100 * b1 + 0x1_0000 * b2 + 0x100_0000 * b3
  }

  /** The same, of the bytes at an offset. */
  function HalfAt(s: seq<Byte>, at: nat): int
    requires at + 2 <= |s|
  {
    Join2(s[at], s[at + 1])
  }

  function WordAt(s: seq<Byte>, at: nat): int
    requires at + 4 <= |s|
  {
    Join4(s[at], s[at + 1], s[at + 2], s[at + 3])
  }

  lemma {:induction false} LeValues(s: seq<Byte>)
    ensures |s| == 1 ==> FromLe(s) == s[0]
    ensures |s| == 2 ==> FromLe(s) == Join2(s[0], s[1])
    ensures |s| == 4 ==> FromLe(s) == Join4(s[0], s[1], s[2], s[3])
  {
    if |s| == 4 {
      assert s[1..][1..] == s[2..] && s[2..][1..] == s[3..] && s[3..][1..] == [];
      assert FromLe(s[3..]) == s[3];
      assert FromLe(s[2..]) == Join2(s[2], s[3]);
    } else if |s| == 2 {
      assert s[1..][1..] == [];
      assert FromLe(s[1..]) == s[1];
    } else if |s| == 1 {
      assert s[1..] == [];
    }
  }

  /** Little-endian integers at an offset. */
  function U16(s: seq<Byte>, offset: nat): Half
    requires offset + 2 <= |s|
  {
    FromLeBound(s[offset..offset + 2]);
    PowersOf256();
    FromLe(s[offset..offset + 2])
  }

  function U32(s: seq<Byte>, offset: nat): Word
    requires offset + 4 <= |s|
  {
    FromLeBound(s[offset..offset + 4]);
    PowersOf256();
    FromLe(s[offset..offset + 4])
  }
}
