/** Streaming SHA-256: a context absorbs a message in pieces of any size and pads it at
    the end. The block function is a parameter, so the results hold for every one. */
module Sha256 {
  import opened Words

  /** The chaining value after one more 64-byte block. */
  type BlockFn = (seq<Word>, seq<Byte>) -> seq<Word>

  const IV: seq<Word> := [0x6a09e667, 0xbb67ae85, 0x3c6ef372, 0xa54ff53a, 0x510e527f, 0x9b05688c, 0x1f83d9ab, 0x5be0cd19]

  /** The block function folded over the whole blocks of a message. */
  function Chain(f: BlockFn, h: seq<Word>, m: seq<Byte>): seq<Word>
    decreases |m|
  {
    if |m| < 64 then h else Chain(f, f(h, m[..64]), m[64..])
  }

  /** The part of a message after its last whole block. */
  function Rest(m: seq<Byte>): (r: seq<Byte>)
    ensures |r| < 64
    decreases |m|
  {
    if |m| < 64 then m else Rest(m[64..])
  }

  /** How many zero bytes follow the 0x80 marker (section 5.1.1 of FIPS 180-4). */
  function ZeroCount(n: nat): nat {
    (55 - n) % 64
  }

  /** The two words hold the length in bits of `n` bytes, modulo 2^64. */
  ghost predicate Counts(lo: Word, hi: Word, n: nat) {
    exists wraps: nat :: CountsUpTo(lo, hi, n, wraps)
  }

  ghost predicate CountsUpTo(lo: Word, hi: Word, n: nat, wraps: nat) {
    8 * n == lo + 0x1_0000_0000 * (hi + 0x1_0000_0000 * wraps)
  }

  function Padded(m: seq<Byte>): seq<Byte> {
    m + [0x80] + Zeros(ZeroCount(|m|)) + ToBe(8 * |m|, 8)
  }

  function Hash(f: BlockFn, m: seq<Byte>): seq<Word> {
    Chain(f, IV, Padded(m))
  }

  // --- What the padding is ---

  lemma ZerosReachTheLength(n: nat)
    ensures (n + 1 + ZeroCount(n)) % 64 == 56
    ensures (n + 1 + ZeroCount(n) + 8) % 64 == 0
  {
    var q := (55 - n) / 64;
    assert 55 - n == 64 * q + ZeroCount(n);
    DivModUnique(n + 1 + ZeroCount(n), 64, 0 - q, 56);
    DivModUnique(n + 1 + ZeroCount(n) + 8, 64, 1 - q, 0);
  }

  /** The buffer is full but for the length field exactly when all zeros are in. */
  lemma ZerosLeft(n: nat, z: nat)
    requires z <= ZeroCount(n)
    ensures (n + 1 + z) % 64 == 56 <==> z == ZeroCount(n)
  {
    ZerosReachTheLength(n);
  }

  /** The padded message is whole blocks ... */
  lemma PaddingFillsBlocks(m: seq<Byte>)
    ensures |Padded(m)| % 64 == 0
  {
    ZerosReachTheLength(|m|);
  }

  /** ... and no smaller number of zero bytes would do. */
  lemma FewestZeros(n: nat, k: nat)
    requires (n + 1 + k + 8) % 64 == 0
    ensures ZeroCount(n) <= k
  {
  }

  /** Two messages never pad to the same blocks, not even when the length field wraps:
      messages of equal padded length differ by less than a block, which shows in the
      length field. */
  lemma PaddingInjective(m: seq<Byte>, n: seq<Byte>)
    requires Padded(m) == Padded(n)
    ensures m == n
  {
    var p, l := Padded(m), |Padded(m)| - 8;
    assert p[l..] == ToBe(8 * |m|, 8) && p[l..] == ToBe(8 * |n|, 8);
    LowBytesTell(|m|, |n|);
    assert m == p[..|m|] && n == p[..|n|];
  }

  lemma LowBytesTell(m: nat, n: nat)
    requires ToBe(8 * m, 8) == ToBe(8 * n, 8)
    requires m + ZeroCount(m) == n + ZeroCount(n)
    ensures m == n
  {
    BeByte(8 * m, 8, 6);
    BeByte(8 * n, 8, 6);
    BeByte(8 * m, 8, 7);
    BeByte(8 * n, 8, 7);
    PowersOf256();
    NearAndAlike(8 * m, 8 * n);
  }

  lemma NearAndAlike(a: nat, b: nat)
    requires a % 256 == b % 256 && a / 256 % 256 == b / 256 % 256
    requires -512 < a - b < 512
    ensures a == b
  {
    var x, y := a / 256, b / 256;
    assert -2 <= x - y <= 2;
    assert x - y == 256 * (x / 256 - y / 256);
  }

  /** The padding is a one bit, zero bits, and the length in bits as eight bytes. */
  lemma PaddingShape(m: seq<Byte>)
    ensures var p := Padded(m);
            && p[..|m|] == m && p[|m|] == 0x80
            && (forall i :: |m| < i < |p| - 8 ==> p[i] == 0)
            && p[|p| - 8..] == ToBe(8 * |m|, 8)
  {
  }

  /** `x` is the first 32 bits of the fractional part of the square root of `n`. */
  predicate RootFraction(n: nat, whole: nat, x: Word) {
    var r := whole * 0x1_0000_0000 + x;
    whole * whole <= n < (whole + 1) * (whole + 1) && r * r <= n * 0x1_0000_0000_0000_0000 < (r + 1) * (r + 1)
  }

  /** The initial value is made from the square roots of the first eight primes (section 5.3.3
      of FIPS 180-4). */
  lemma InitialValue()
    ensures |IV| == 8
    ensures RootFraction(2, 1, IV[0]) && RootFraction(3, 1, IV[1]) && RootFraction(5, 2, IV[2]) && RootFraction(7, 2, IV[3])
    ensures RootFraction(11, 3, IV[4]) && RootFraction(13, 3, IV[5]) && RootFraction(17, 4, IV[6]) && RootFraction(19, 4, IV[7])
  {
  }

  // --- The chain over a growing message ---

  lemma {:induction false} RestLength(m: seq<Byte>)
    ensures |Rest(m)| == |m| % 64
    decreases |m|
  {
    if |m| >= 64 {
      RestLength(m[64..]);
    }
  }

  /** Bytes that do not complete a block stay pending; those that do are folded in. */
  lemma {:induction false} Absorbing(f: BlockFn, h: seq<Word>, m: seq<Byte>, t: seq<Byte>)
    requires |Rest(m)| + |t| <= 64
    ensures |Rest(m)| + |t| < 64 ==> Rest(m + t) == Rest(m) + t && Chain(f, h, m + t) == Chain(f, h, m)
    ensures |Rest(m)| + |t| == 64 ==> Rest(m + t) == [] && Chain(f, h, m + t) == f(Chain(f, h, m), Rest(m) + t)
    decreases |m|
  {
    if |m| >= 64 {
      assert (m + t)[..64] == m[..64] && (m + t)[64..] == m[64..] + t;
      Absorbing(f, f(h, m[..64]), m[64..], t);
    } else if |m| + |t| == 64 {
      assert (m + t)[..64] == m + t;
      assert (m + t)[64..] == [];
    }
  }

  /** The two-word length counter: a carry shows as a low word that got smaller. */
  lemma CountBits(lo: Word, hi: Word, n: nat, k: nat)
    requires Counts(lo, hi, n) && k <= 64
    ensures var lo' := Add32(lo, 8 * k); Counts(lo', if lo' < lo then Add32(hi, 1) else hi, n + k)
  {
    var wraps: nat :| CountsUpTo(lo, hi, n, wraps);
    var lo' := Add32(lo, 8 * k);
    if lo' >= lo {
      assert CountsUpTo(lo', hi, n + k, wraps);
    } else if hi + 1 < 0x1_0000_0000 {
      assert CountsUpTo(lo', hi + 1, n + k, wraps);
    } else {
      assert CountsUpTo(lo', 0, n + k, wraps + 1);
    }
  }

  /** The length field is the two words of the counter, high word first. */
  lemma LengthField(lo: Word, hi: Word, n: nat)
    requires Counts(lo, hi, n)
    ensures ToBe(8 * n, 8) == ToBe(hi, 4) + ToBe(lo, 4)
  {
    var wraps: nat :| CountsUpTo(lo, hi, n, wraps);
    PowersOf256();
    TwoHalves(8 * n, hi + 0x1_0000_0000 * wraps, lo, hi, wraps, 4);
  }

  lemma TwoHalves(v: nat, high: nat, lo: nat, hi: nat, wraps: nat, k: nat)
    requires lo < Pow256(k) && hi < Pow256(k)
    requires high == wraps * Pow256(k) + hi && v == high * Pow256(k) + lo
    ensures ToBe(v, k + k) == ToBe(hi, k) + ToBe(lo, k)
  {
    BeSplits(high, lo, k, k);
    BeSplits(wraps, hi, 0, k);
    assert ToBe(wraps, 0) == [];
  }

  lemma NothingAbsorbed(f: BlockFn)
    ensures Chain(f, IV, []) == IV && Rest([]) == [] && Counts(0, 0, 0)
  {
    assert CountsUpTo(0, 0, 0, 0);
  }

  /** The source's context structure; `absorbed` is the message fed so far. */
  class Context {
    const compress: BlockFn
    var h: seq<Word>
    const buf: array<Byte>
    var lenLo: Word
    var lenHi: Word
    var fill: nat
    ghost var absorbed: seq<Byte>

    ghost predicate Valid()
      reads this, buf
    {
      buf.Length == 64 && fill == |Rest(absorbed)| && fill < 64 && buf[..fill] == Rest(absorbed)
      && h == Chain(compress, IV, absorbed)
      && Counts(lenLo, lenHi, |absorbed|)
    }

    constructor (f: BlockFn)
      ensures Valid() && fresh(buf) && absorbed == [] && compress == f
    {
      NothingAbsorbed(f);
      compress := f;
      h := IV;
      buf := new Byte[64](i => 0);
      lenLo, lenHi, fill, absorbed := 0, 0, 0, [];
    }

    method Init()
      requires buf.Length == 64
      modifies this
      ensures Valid() && absorbed == []
    {
      NothingAbsorbed(compress);
      h := IV;
      lenLo, lenHi, fill, absorbed := 0, 0, 0, [];
    }

    /** The two-word count of bits, `take` bytes further. */
    method Count(take: nat)
      requires take <= 64
      requires Counts(lenLo, lenHi, |absorbed|)
      modifies this`lenLo, this`lenHi
      ensures Counts(lenLo, lenHi, |absorbed| + take)
    {
      CountBits(lenLo, lenHi, |absorbed|, take);
      var was := lenLo;
      lenLo := Add32(lenLo, 8 * take);
      if lenLo < was {
        lenHi := Add32(lenHi, 1);
      }
    }

    /** One turn of the update loop: a piece that fits into the buffer. */
    method Take(p: seq<Byte>)
      requires Valid() && fill + |p| <= 64
      modifies this, buf
      ensures Valid() && absorbed == old(absorbed) + p
    {
      Absorbing(compress, IV, absorbed, p);
      forall i | 0 <= i < |p| {
        buf[fill + i] := p[i];
      }
      assert buf[..fill + |p|] == Rest(old(absorbed)) + p;
      fill := fill + |p|;
      Count(|p|);
      absorbed := absorbed + p;
      if fill == 64 {
        assert buf[..] == buf[..fill];
        h := compress(h, buf[..]);
        fill := 0;
      }
    }

    method Update(p: seq<Byte>)
      requires Valid()
      modifies this, buf
      ensures Valid() && absorbed == old(absorbed) + p
    {
      var done := 0;
      while done < |p|
        invariant 0 <= done <= |p|
        invariant Valid() && absorbed == old(absorbed) + p[..done]
      {
        var take := 64 - fill;
        if take > |p| - done {
          take := |p| - done;
        }
        ghost var before := absorbed;
        Take(p[done..done + take]);
        assert before + p[done..done + take] == old(absorbed) + p[..done + take];
        done := done + take;
      }
      assert p[..done] == p;
    }

    /** The digest is the block function folded over the padded message. */
    method Final() returns (digest: seq<Word>)
      requires Valid()
      modifies this, buf
      ensures Valid() && absorbed == Padded(old(absorbed))
      ensures digest == Hash(compress, old(absorbed))
    {
      ghost var m := absorbed;
      var lo, hi := lenLo, lenHi;
      Update([0x80]);
      ghost var zeros := 0;
      while fill != 56
        invariant Valid() && absorbed == m + [0x80] + Zeros(zeros)
        invariant zeros <= ZeroCount(|m|)
        decreases ZeroCount(|m|) - zeros
      {
        ZerosLeft(|m|, zeros);
        RestLength(absorbed);
        assert Zeros(zeros) + [0] == Zeros(zeros + 1);
        Update([0]);
        zeros := zeros + 1;
      }
      ZerosLeft(|m|, zeros);
      RestLength(absorbed);
      LengthField(lo, hi, |m|);
      var length := LengthBytes(hi, lo);
      Update(length);
      digest := h;
    }
  }

  /** The eight bytes of the length field, high word first. */
  method LengthBytes(hi: Word, lo: Word) returns (field: seq<Byte>)
    ensures field == ToBe(hi, 4) + ToBe(lo, 4)
  {
    var bytes := new Byte[8](i => 0);
    for i := 0 to 4
      invariant forall k :: 0 <= k < i ==> bytes[k] == ToBe(hi, 4)[k]
      invariant forall k :: 0 <= k < i ==> bytes[4 + k] == ToBe(lo, 4)[k]
    {
      BeByte(hi, 4, i);
      BeByte(lo, 4, i);
      bytes[i] := hi / Pow256(3 - i) % 256;
      bytes[4 + i] := lo / Pow256(3 - i) % 256;
    }
    field := bytes[..];
  }

  /** However a message is cut into updates, the digest is that of the whole message. */
  method DigestOf(f: BlockFn, pieces: seq<seq<Byte>>) returns (digest: seq<Word>)
    ensures digest == Hash(f, Joined(pieces))
  {
    var c := new Context(f);
    for i := 0 to |pieces|
      invariant c.Valid() && c.absorbed == Joined(pieces[..i]) && c.compress == f && fresh(c) && fresh(c.buf)
    {
      c.Update(pieces[i]);
      assert pieces[..i + 1][..i] == pieces[..i];
    }
    assert pieces[..|pieces|] == pieces;
    digest := c.Final();
  }
}
