/** The padding that the four `finalize` functions feed, against the standards' bit-level definition. */
module Padding {
  import opened Bytes
  import Bits

  /** What distinguishes the four hashers: block and length-field sizes in bytes, the constant of the padding
      formula, the byte order of the length and the digest, and the number and size of the state words. */
  datatype Variant = Variant(blockSize: nat, fieldSize: nat, padBase: nat, bigEndian: bool, words: nat, wordSize: nat)

  const SHA1 := Variant(64, 8, 119, true, 5, 4)
  const SHA256 := Variant(64, 8, 119, true, 8, 4)
  const SHA512 := Variant(128, 16, 239, true, 8, 8)
  const RIPEMD160 := Variant(64, 8, 119, false, 5, 4)

  predicate Known(v: Variant) {
    v == SHA1 || v == SHA256 || v == SHA512 || v == RIPEMD160
  }

  // ---- what the code computes ----

  /** `(119 - (total_bytes_ % block_size_)) % block_size_`, or the same with 239. */
  function ZeroCount(v: Variant, total: nat): nat
    requires Known(v)
  {
    (v.padBase - total % v.blockSize) % v.blockSize
  }

  /** `total_bytes_ << 3` in 64 bits. */
  function BitCount(total: nat): (bits: nat)
    ensures bits < TWO_64
  {
    total * 8 % TWO_64
  }

  /** The bit count in the last eight bytes of the zeroed field. */
  function LengthField(v: Variant, total: nat): (f: seq<byte>)
    requires Known(v)
    ensures |f| == v.fieldSize
  {
    var bits := BitCount(total);
    Zeros(v.fieldSize - 8) + if v.bigEndian then BigEndian(bits, 8) else LittleEndian(bits, 8)
  }

  /** The bytes fed after a message of `n` bytes, with `n` as counted by a 64-bit size_t. */
  function Suffix(v: Variant, n: nat): seq<byte>
    requires Known(v)
  {
    [0x80] + Zeros(ZeroCount(v, n % TWO_64)) + LengthField(v, n % TWO_64)
  }

  function Padded(v: Variant, m: seq<byte>): seq<byte>
    requires Known(v)
  {
    m + Suffix(v, |m|)
  }

  // ---- what the standards say ----

  /** Sections 5.1.1 and 5.1.2 of FIPS 180-4: k is the smallest non-negative solution of
      l + 1 + k = 448 mod 512 (896 mod 1024), all counted in bits. */
  ghost predicate IsZeroBitCount(v: Variant, l: nat, k: nat)
    requires Known(v)
  {
    && EndsAtField(v, l, k)
    && forall j: nat | j < k :: !EndsAtField(v, l, j)
  }

  /** l message bits, a one bit and k zero bits leave exactly the length field of the last block free. */
  ghost predicate EndsAtField(v: Variant, l: nat, k: nat)
    requires Known(v)
  {
    if v == SHA512 then (l + 1 + k) % 1024 == 896 else (l + 1 + k) % 512 == 448
  }

  /** `p` is the standard's padding of an n-byte message: a one bit and k zero bits, which for whole bytes
      are 0x80 and zero bytes, then the bit length. The big-endian variants need a length that fits the
      field; section 3.2 of RFC 1320 keeps the low-order 64 bits instead, low-order byte first. */
  ghost predicate IsStandardSuffix(v: Variant, n: nat, p: seq<byte>)
    requires Known(v)
  {
    exists zeros: nat ::
      && IsZeroBitCount(v, 8 * n, 7 + 8 * zeros)
      && p == [0x80] + Zeros(zeros) + StandardField(v, n)
  }

  lemma ModMod(n: nat, v: Variant)
    requires Known(v)
    ensures n % TWO_64 % v.blockSize == n % v.blockSize
    ensures BitCount(n % TWO_64) == BitCount(n)
  {
    hide Zeros;
    if v == SHA512 { Mod128(n); } else { Mod64(n); }
    Times8(n);
  }

  lemma Mod64(n: nat)
    ensures n % 0x1_0000_0000_0000_0000 % 64 == n % 64
  {
    var k, low := n / 0x1_0000_0000_0000_0000 * 0x400_0000_0000_0000, n % 0x1_0000_0000_0000_0000;
    assert n == 64 * (k + low / 64) + low % 64;
    Bits.Residue(64, k + low / 64, low % 64);
  }

  lemma Mod128(n: nat)
    ensures n % 0x1_0000_0000_0000_0000 % 128 == n % 128
  {
    var k, low := n / 0x1_0000_0000_0000_0000 * 0x200_0000_0000_0000, n % 0x1_0000_0000_0000_0000;
    assert n == 128 * (k + low / 128) + low % 128;
    Bits.Residue(128, k + low / 128, low % 128);
  }

  lemma Times8(n: nat)
    ensures n % 0x1_0000_0000_0000_0000 * 8 % 0x1_0000_0000_0000_0000 == n * 8 % 0x1_0000_0000_0000_0000
  {
    var k := n / 0x1_0000_0000_0000_0000 * 8;
    assert n * 8 == 0x1_0000_0000_0000_0000 * k + n % 0x1_0000_0000_0000_0000 * 8;
  }

  lemma ZeroCountValue(v: Variant, n: nat)
    requires Known(v)
    ensures var r, top := n % v.blockSize, v.blockSize - v.fieldSize;
            ZeroCount(v, n) == if r < top then top - 1 - r else v.blockSize + top - 1 - r
    ensures ZeroCount(v, n % TWO_64) == ZeroCount(v, n) < v.blockSize
  {
    ModMod(n, v);
    hide Zeros, BigEndian, LittleEndian;
    if v == SHA512 {
      assert ZeroCount(v, n) == (239 - n % 128) % 128;
    } else {
      assert ZeroCount(v, n) == (119 - n % 64) % 64;
    }
  }

  lemma WholeBlocks64(n: nat, x: nat)
    ensures (8 * (n - n % 64) + x) % 512 == x % 512
  {
    var q := n / 64;
    assert 8 * (n - n % 64) == 512 * q;
  }

  lemma WholeBlocks128(n: nat, x: nat)
    ensures (8 * (n - n % 128) + x) % 1024 == x % 1024
  {
    var q := n / 128;
    assert 8 * (n - n % 128) == 1024 * q;
  }

  lemma EndsAtFieldCases(v: Variant, n: nat, k: nat)
    requires Known(v)
    requires k < 8 * v.blockSize
    ensures EndsAtField(v, 8 * n, k)
       <==> (|| 8 * (n % v.blockSize) + 1 + k == 8 * (v.blockSize - v.fieldSize)
             || 8 * (n % v.blockSize) + 1 + k == 8 * (2 * v.blockSize - v.fieldSize))
  {
    if v == SHA512 {
      var x := 8 * (n % 128) + 1 + k;
      WholeBlocks128(n, x);
      assert 8 * n + 1 + k == 8 * (n - n % 128) + x;
      SmallResidue(1024, x);
    } else {
      var x := 8 * (n % 64) + 1 + k;
      WholeBlocks64(n, x);
      assert 8 * n + 1 + k == 8 * (n - n % 64) + x;
      SmallResidue(512, x);
    }
  }

  lemma SmallResidue(modulus: nat, x: nat)
    requires x < 2 * modulus && modulus > 0
    ensures x % modulus == if x < modulus then x else x - modulus
  {
    if x < modulus { SmallQuotient(modulus, x, 0); } else { SmallQuotient(modulus, x, 1); }
  }

  lemma SmallQuotient(modulus: nat, x: nat, q: nat)
    requires modulus > 0 && q < 2 && q * modulus <= x < (q + 1) * modulus
    ensures x % modulus == x - q * modulus
  {}

  /** The code's byte count is the standard's bit count. */
  lemma ZeroCountIsStandard(v: Variant, n: nat)
    requires Known(v)
    ensures IsZeroBitCount(v, 8 * n, 7 + 8 * ZeroCount(v, n))
  {
    ZeroCountValue(v, n);
    hide EndsAtField, ZeroCount;
    var z := ZeroCount(v, n);
    EndsAtFieldCases(v, n, 7 + 8 * z);
    forall j: nat | j < 7 + 8 * z
      ensures !EndsAtField(v, 8 * n, j)
    {
      EndsAtFieldCases(v, n, j);
    }
  }

  lemma {:induction false} Pow256Facts()
    ensures Pow256(8) == TWO_64 && Pow256(16) == TWO_64 * TWO_64
  {
    assert Pow256(4) == TWO_32;
    Pow256Sum(4, 4);
    Pow256Sum(8, 8);
  }

  lemma {:induction false} Pow256Sum(a: nat, b: nat)
    ensures Pow256(a + b) == Pow256(a) * Pow256(b)
  {
    if a > 0 {
      Pow256Sum(a - 1, b);
    }
  }

  /** What the standard stores in the length field. */
  function StandardField(v: Variant, n: nat): (f: seq<byte>)
    requires Known(v)
    ensures |f| == v.fieldSize
  {
    if v.bigEndian then BigEndian(8 * n, v.fieldSize) else LittleEndian(8 * n % TWO_64, 8)
  }

  lemma BitCountValue(n: nat)
    ensures BitCount(n) == 8 * n % TWO_64
    ensures 8 * n < TWO_64 ==> BitCount(n) == 8 * n
  {}

  lemma NoZeros(b: seq<byte>)
    ensures Zeros(0) + b == b
  {}

  /** A 16-byte field whose upper half is zero holds what fits the lower half, and nothing else. */
  lemma WideField(value: nat, bits: nat)
    requires value < Pow256(16) && bits == value % TWO_64
    ensures Zeros(8) + BigEndian(bits, 8) == BigEndian(value, 16) <==> value < TWO_64
  {
    Pow256Facts();
    hide Pow256, BigEndian, Zeros;
    BigEndianZeroExtend(bits, 8, 8);
    if BigEndian(bits, 16) == BigEndian(value, 16) {
      BigEndianInjective(value, bits, 16);
    }
  }

  /** The eight stored bytes are the standard's field exactly while the bit count fits 64 bits, except that
      RFC 1320 asks for no more than that. */
  lemma LengthFieldIsStandard(v: Variant, n: nat)
    requires Known(v) && (v.bigEndian ==> 8 * n < Pow256(v.fieldSize))
    ensures LengthField(v, n % TWO_64) == StandardField(v, n) <==> (v == SHA512 ==> 8 * n < TWO_64)
  {
    ModMod(n, v);
    BitCountValue(n);
    Pow256Facts();
    var bits := BitCount(n);
    hide Pow256, BigEndian, LittleEndian, BitCount, Zeros;
    if v == SHA512 {
      WideField(8 * n, bits);
    } else {
      NoZeros(BigEndian(bits, 8));
      NoZeros(LittleEndian(bits, 8));
    }
  }

  lemma SameField(y: nat, f: seq<byte>, z: nat, g: seq<byte>)
    requires |f| == |g| && [0x80] + Zeros(y) + f == [0x80] + Zeros(z) + g
    ensures y == z && f == g
  {
    var a, b := [0x80] + Zeros(y), [0x80] + Zeros(z);
    hide Zeros;
    assert |a| == 1 + y && |b| == 1 + z;
    assert f == (a + f)[1 + y..] && g == (b + g)[1 + z..];
  }

  /** The main result on padding. FIPS 180-4 defines messages whose bit length fits the length field (64 or
      128 bits). On all of those SHA-1 and SHA-256 are padded as the standard says, and SHA-512 exactly when
      the message is shorter than 2^61 bytes, because its upper eight length bytes are always zero. RIPEMD-160
      is padded as its convention says at every length. */
  lemma SuffixIsStandard(v: Variant, n: nat)
    requires Known(v) && (v.bigEndian ==> 8 * n < Pow256(v.fieldSize))
    ensures IsStandardSuffix(v, n, Suffix(v, n)) <==> (v == SHA512 ==> n < 0x2000_0000_0000_0000)
  {
    SuffixByField(v, n);
    LengthFieldIsStandard(v, n);
    hide IsStandardSuffix, Suffix, StandardField, LengthField, Pow256;
  }

  /** Marker and zeros are right in any case; what decides is the length field. */
  lemma SuffixByField(v: Variant, n: nat)
    requires Known(v)
    ensures IsStandardSuffix(v, n, Suffix(v, n)) <==> LengthField(v, n % TWO_64) == StandardField(v, n)
  {
    ZeroCountIsStandard(v, n);
    ZeroCountValue(v, n);
    hide IsZeroBitCount, StandardField, LengthField, ZeroCount;
    var z, field := ZeroCount(v, n), StandardField(v, n);
    assert Suffix(v, n) == [0x80] + Zeros(z) + LengthField(v, n % TWO_64);
    hide Suffix, Zeros, Known;
    if IsStandardSuffix(v, n, Suffix(v, n)) {
      var zeros: nat :| IsZeroBitCount(v, 8 * n, 7 + 8 * zeros) && Suffix(v, n) == [0x80] + Zeros(zeros) + field;
      SameField(z, LengthField(v, n % TWO_64), zeros, field);
    }
  }

  /** The standard leaves no choice. */
  lemma StandardSuffixUnique(v: Variant, n: nat, p: seq<byte>, q: seq<byte>)
    requires Known(v) && IsStandardSuffix(v, n, p) && IsStandardSuffix(v, n, q)
    ensures p == q
  {
    var field := StandardField(v, n);
    var y: nat :| IsZeroBitCount(v, 8 * n, 7 + 8 * y) && p == [0x80] + Zeros(y) + field;
    var z: nat :| IsZeroBitCount(v, 8 * n, 7 + 8 * z) && q == [0x80] + Zeros(z) + field;
    assert y == z by {
      hide EndsAtField, StandardField, Zeros;
    }
  }

  /** The padded message is whole blocks, and one block fewer would not hold marker and length. */
  lemma PaddedIsShortest(v: Variant, m: seq<byte>)
    requires Known(v)
    ensures |Padded(v, m)| % v.blockSize == 0
    ensures forall total: nat :: total % v.blockSize == 0 && |m| + 1 + v.fieldSize <= total ==> |Padded(v, m)| <= total
  {
    ZeroCountValue(v, |m|);
    hide ZeroCount, LengthField;
    var n, z := |m|, ZeroCount(v, |m|);
    assert |Padded(v, m)| == n + 1 + z + v.fieldSize;
    if v == SHA512 {
      assert |Padded(v, m)| == LeastTotal128(n);
    } else {
      assert |Padded(v, m)| == LeastTotal64(n);
    }
    forall total: nat | total % v.blockSize == 0 && n + 1 + v.fieldSize <= total
      ensures |Padded(v, m)| <= total
    {
      hide Padded;
      if v == SHA512 {
        LeastTotal128IsLeast(n, total);
      } else {
        LeastTotal64IsLeast(n, total);
      }
    }
  }

  function LeastTotal64(n: nat): (t: nat)
    ensures t % 64 == 0
  {
    64 * (n / 64) + if n % 64 < 56 then 64 else 128
  }

  function LeastTotal128(n: nat): (t: nat)
    ensures t % 128 == 0
  {
    128 * (n / 128) + if n % 128 < 112 then 128 else 256
  }

  lemma LeastTotal64IsLeast(n: nat, total: nat)
    requires total % 64 == 0 && n + 9 <= total
    ensures LeastTotal64(n) <= total
  {
    var q, r, k := n / 64, n % 64, total / 64;
    assert n == 64 * q + r && total == 64 * k;
  }

  lemma LeastTotal128IsLeast(n: nat, total: nat)
    requires total % 128 == 0 && n + 17 <= total
    ensures LeastTotal128(n) <= total
  {
    var q, r, k := n / 128, n % 128, total / 128;
    assert n == 128 * q + r && total == 128 * k;
  }

  /** No two messages are padded alike, of whatever length: the marker is the last non-zero byte before the
      length field, even when the stored length has wrapped. */
  lemma PaddedInjective(v: Variant, a: seq<byte>, b: seq<byte>)
    requires Known(v) && Padded(v, a) == Padded(v, b)
    ensures a == b
  {
    if |a| < |b| {
      MarkersDiffer(v, a, b);
    } else if |b| < |a| {
      MarkersDiffer(v, b, a);
    } else {
      assert a == Padded(v, a)[..|a|] && b == Padded(v, b)[..|b|];
    }
  }

  lemma MarkersDiffer(v: Variant, a: seq<byte>, b: seq<byte>)
    requires Known(v) && |a| < |b| && |Padded(v, a)| == |Padded(v, b)|
    ensures Padded(v, a)[|b|] == 0 && Padded(v, b)[|b|] == 0x80
  {
    hide LengthField, ZeroCount;
  }
}
