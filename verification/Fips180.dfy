/** The SHA-256 compression function as section 6.2.2 of FIPS 180-4 writes it: a message schedule
    defined by recurrence, and sixty-four steps that each shift the eight working variables. */
module Fips180 {
  import opened Bytes
  import opened Primes

  /** The working variables of step 2, and equally a chaining value H. */
  datatype Regs = Regs(a: uint32, b: uint32, c: uint32, d: uint32,
                       e: uint32, f: uint32, g: uint32, h: uint32)

  // Section 2.2.1: addition modulo 2^32.
  function Add(x: uint32, y: uint32): uint32 {
    (x + y) % TWO_32
  }

  // Section 4.1.2, on bits.
  function ChBits(x: bv32, y: bv32, z: bv32): bv32 { (x & y) ^ (!x & z) }
  function MajBits(x: bv32, y: bv32, z: bv32): bv32 { (x & y) ^ (x & z) ^ (y & z) }
  function BigSigma0Bits(x: bv32): bv32 { x.RotateRight(2) ^ x.RotateRight(13) ^ x.RotateRight(22) }
  function BigSigma1Bits(x: bv32): bv32 { x.RotateRight(6) ^ x.RotateRight(11) ^ x.RotateRight(25) }
  function SmallSigma0Bits(x: bv32): bv32 { x.RotateRight(7) ^ x.RotateRight(18) ^ (x >> 3) }
  function SmallSigma1Bits(x: bv32): bv32 { x.RotateRight(17) ^ x.RotateRight(19) ^ (x >> 10) }

  function Ch(x: uint32, y: uint32, z: uint32): uint32 { ChBits(x as bv32, y as bv32, z as bv32) as uint32 }
  function Maj(x: uint32, y: uint32, z: uint32): uint32 { MajBits(x as bv32, y as bv32, z as bv32) as uint32 }
  function BigSigma0(x: uint32): uint32 { BigSigma0Bits(x as bv32) as uint32 }
  function BigSigma1(x: uint32): uint32 { BigSigma1Bits(x as bv32) as uint32 }
  function SmallSigma0(x: uint32): uint32 { SmallSigma0Bits(x as bv32) as uint32 }
  function SmallSigma1(x: uint32): uint32 { SmallSigma1Bits(x as bv32) as uint32 }

  /** Section 4.2.2, eight to a row. */
  const ROUND_CONSTANTS: seq<seq<uint32>> := [
    [0x428a2f98, 0x71374491, 0xb5c0fbcf, 0xe9b5dba5, 0x3956c25b, 0x59f111f1, 0x923f82a4, 0xab1c5ed5],
    [0xd807aa98, 0x12835b01, 0x243185be, 0x550c7dc3, 0x72be5d74, 0x80deb1fe, 0x9bdc06a7, 0xc19bf174],
    [0xe49b69c1, 0xefbe4786, 0x0fc19dc6, 0x240ca1cc, 0x2de92c6f, 0x4a7484aa, 0x5cb0a9dc, 0x76f988da],
    [0x983e5152, 0xa831c66d, 0xb00327c8, 0xbf597fc7, 0xc6e00bf3, 0xd5a79147, 0x06ca6351, 0x14292967],
    [0x27b70a85, 0x2e1b2138, 0x4d2c6dfc, 0x53380d13, 0x650a7354, 0x766a0abb, 0x81c2c92e, 0x92722c85],
    [0xa2bfe8a1, 0xa81a664b, 0xc24b8b70, 0xc76c51a3, 0xd192e819, 0xd6990624, 0xf40e3585, 0x106aa070],
    [0x19a4c116, 0x1e376c08, 0x2748774c, 0x34b0bcb5, 0x391c0cb3, 0x4ed8aa4a, 0x5b9cca4f, 0x682e6ff3],
    [0x748f82ee, 0x78a5636f, 0x84c87814, 0x8cc70208, 0x90befffa, 0xa4506ceb, 0xbef9a3f7, 0xc67178f2]
  ]

  function K(t: nat): uint32
    requires t < 64
  {
    ROUND_CONSTANTS[t / 8][t % 8]
  }

  /** Section 5.3.3. */
  const INITIAL: Regs := Regs(0x6a09e667, 0xbb67ae85, 0x3c6ef372, 0xa54ff53a,
                              0x510e527f, 0x9b05688c, 0x1f83d9ab, 0x5be0cd19)

  function MessageWords(block: seq<byte>): (m: seq<uint32>)
    requires |block| == 64
    ensures |m| == 16
  {
    seq(16, i requires 0 <= i < 16 => LoadBig32(block, 4 * i))
  }

  /** Section 3.1: the words of a block are those whose big-endian stores it is made of. */
  lemma WordOfBlock(block: seq<byte>, t: nat)
    requires |block| == 64 && t < 16
    ensures BigEndian(MessageWords(block)[t], 4) == block[4 * t..4 * t + 4]
  {
    StoreOfLoad(block, 4 * t);
  }

  /** Step 1: sigma1(W_{t-2}) + W_{t-7} + sigma0(W_{t-15}) + W_{t-16}. */
  function Schedule(w2: uint32, w7: uint32, w15: uint32, w16: uint32): uint32 {
    Add(Add(Add(SmallSigma1(w2), w7), SmallSigma0(w15)), w16)
  }

  function W(m: seq<uint32>, t: nat): uint32
    requires |m| == 16
  {
    if t < 16 then m[t]
    else Schedule(W(m, t - 2), W(m, t - 7), W(m, t - 15), W(m, t - 16))
  }

  /** Step 3, for one value of t. */
  function Step(r: Regs, k: uint32, w: uint32): Regs {
    var t1 := Add(Add(Add(Add(r.h, BigSigma1(r.e)), Ch(r.e, r.f, r.g)), k), w);
    var t2 := Add(BigSigma0(r.a), Maj(r.a, r.b, r.c));
    Regs(Add(t1, t2), r.a, r.b, r.c, Add(r.d, t1), r.e, r.f, r.g)
  }

  const ROUNDS: nat := 64

  /** The working variables after the first t steps. */
  function Steps(h: Regs, m: seq<uint32>, t: nat): Regs
    requires |m| == 16 && t <= 64
  {
    if t == 0 then h else Step(Steps(h, m, t - 1), K(t - 1), W(m, t - 1))
  }

  /** Steps 1 to 4: the next chaining value. */
  function Compress(h: Regs, block: seq<byte>): Regs
    requires |block| == 64
  {
    var r := Steps(h, MessageWords(block), ROUNDS);
    Regs(Add(r.a, h.a), Add(r.b, h.b), Add(r.c, h.c), Add(r.d, h.d),
         Add(r.e, h.e), Add(r.f, h.f), Add(r.g, h.g), Add(r.h, h.h))
  }

  // ---- where the constants come from ----

  /** `k` is the first 32 bits of the fractional part of the cube root of `p`, for 2 <= p < 343. */
  predicate IsCubeRootWord(p: nat, k: uint32) {
    var whole := if p < 8 then 1 else if p < 27 then 2 else if p < 64 then 3 else if p < 125 then 4 else if p < 216 then 5 else 6;
    var c := whole * 0x1_0000_0000 + k;
    c * c * c <= p * 0x1_0000_0000_0000_0000_0000_0000 < (c + 1) * (c + 1) * (c + 1)
  }

  /** `k` is the first 32 bits of the fractional part of the square root of `p`, for 2 <= p < 25. */
  predicate IsSquareRootWord(p: nat, k: uint32) {
    var whole := if p < 4 then 1 else if p < 9 then 2 else if p < 16 then 3 else 4;
    var c := whole * 0x1_0000_0000 + k;
    c * c <= p * 0x1_0000_0000_0000_0000 < (c + 1) * (c + 1)
  }

  lemma CubeRoots0(t: nat)
    requires 0 <= t < 16
    ensures IsCubeRootWord(Prime(t), K(t))
  {}

  lemma CubeRoots16(t: nat)
    requires 16 <= t < 32
    ensures IsCubeRootWord(Prime(t), K(t))
  {}

  lemma CubeRoots32(t: nat)
    requires 32 <= t < 48
    ensures IsCubeRootWord(Prime(t), K(t))
  {}

  lemma CubeRoots48(t: nat)
    requires 48 <= t < 64
    ensures IsCubeRootWord(Prime(t), K(t))
  {}

  /** Section 4.2.2: the round constants are cube roots of primes. */
  lemma RoundConstantsAreCubeRoots(t: nat)
    requires t < 64
    ensures IsCubeRootWord(Prime(t), K(t))
  {
    hide IsCubeRootWord, Prime, K;
    if t < 16 { CubeRoots0(t); } else if t < 32 { CubeRoots16(t); } else if t < 48 { CubeRoots32(t); } else { CubeRoots48(t); }
  }

  /** Section 5.3.3: the initial chaining value is square roots of primes. */
  lemma InitialValueIsSquareRoots()
    ensures IsSquareRootWord(Prime(0), INITIAL.a) && IsSquareRootWord(Prime(1), INITIAL.b)
    ensures IsSquareRootWord(Prime(2), INITIAL.c) && IsSquareRootWord(Prime(3), INITIAL.d)
    ensures IsSquareRootWord(Prime(4), INITIAL.e) && IsSquareRootWord(Prime(5), INITIAL.f)
    ensures IsSquareRootWord(Prime(6), INITIAL.g) && IsSquareRootWord(Prime(7), INITIAL.h)
  {}
}
