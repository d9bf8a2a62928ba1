/** The hand-unrolled compression function of sha_2_256_old.cpp, proved equal to Fips180.Compress.

    The C++ function is one run of sixty-four lines; here it is four runs of sixteen. A source line
    `Round(a, .., h, k, w0 += sigma1(w14) + w9 + sigma0(w1))` becomes a call of Extend, which computes the
    new slot, and a call of Round, which renames nothing: the two registers it rewrites are assigned back
    under the names the line passed. */
module Sha256Transform {
  import opened Bytes
  import F = Fips180

  // ---- bit functions, in the form the code uses ----

  function ChBits(x: bv32, y: bv32, z: bv32): bv32 { z ^ (x & (y ^ z)) }
  function MajBits(x: bv32, y: bv32, z: bv32): bv32 { (x & y) | (z & (x | y)) }
  function BigSigma0Bits(x: bv32): bv32 { ((x >> 2) | (x << 30)) ^ ((x >> 13) | (x << 19)) ^ ((x >> 22) | (x << 10)) }
  function BigSigma1Bits(x: bv32): bv32 { ((x >> 6) | (x << 26)) ^ ((x >> 11) | (x << 21)) ^ ((x >> 25) | (x << 7)) }
  function SmallSigma0Bits(x: bv32): bv32 { ((x >> 7) | (x << 25)) ^ ((x >> 18) | (x << 14)) ^ (x >> 3) }
  function SmallSigma1Bits(x: bv32): bv32 { ((x >> 17) | (x << 15)) ^ ((x >> 19) | (x << 13)) ^ (x >> 10) }

  function Ch(x: uint32, y: uint32, z: uint32): uint32 { ChBits(x as bv32, y as bv32, z as bv32) as uint32 }
  function Maj(x: uint32, y: uint32, z: uint32): uint32 { MajBits(x as bv32, y as bv32, z as bv32) as uint32 }
  function BigSigma0(x: uint32): uint32 { BigSigma0Bits(x as bv32) as uint32 }
  function BigSigma1(x: uint32): uint32 { BigSigma1Bits(x as bv32) as uint32 }
  function SmallSigma0(x: uint32): uint32 { SmallSigma0Bits(x as bv32) as uint32 }
  function SmallSigma1(x: uint32): uint32 { SmallSigma1Bits(x as bv32) as uint32 }

  lemma SelectIdentity(x: bv32, y: bv32, z: bv32)
    ensures z ^ (x & (y ^ z)) == (x & y) ^ (!x & z)
  {}

  lemma MajorityIdentity(x: bv32, y: bv32, z: bv32)
    ensures (x & y) | (z & (x | y)) == (x & y) ^ (x & z) ^ (y & z)
  {}

  lemma ChMajBitsAgree(x: bv32, y: bv32, z: bv32)
    ensures ChBits(x, y, z) == F.ChBits(x, y, z) && MajBits(x, y, z) == F.MajBits(x, y, z)
  {
    SelectIdentity(x, y, z);
    MajorityIdentity(x, y, z);
  }

  lemma BigSigmaBitsAgree(x: bv32)
    ensures BigSigma0Bits(x) == F.BigSigma0Bits(x) && BigSigma1Bits(x) == F.BigSigma1Bits(x)
  {}

  lemma SmallSigmaBitsAgree(x: bv32)
    ensures SmallSigma0Bits(x) == F.SmallSigma0Bits(x) && SmallSigma1Bits(x) == F.SmallSigma1Bits(x)
  {}

  /** The six functions equal those of section 4.1.2 of FIPS 180-4. */
  lemma FunctionsAgree(x: uint32, y: uint32, z: uint32)
    ensures Ch(x, y, z) == F.Ch(x, y, z) && Maj(x, y, z) == F.Maj(x, y, z)
    ensures BigSigma0(x) == F.BigSigma0(x) && BigSigma1(x) == F.BigSigma1(x)
    ensures SmallSigma0(x) == F.SmallSigma0(x) && SmallSigma1(x) == F.SmallSigma1(x)
  {
    hide ChBits, MajBits, BigSigma0Bits, BigSigma1Bits, SmallSigma0Bits, SmallSigma1Bits;
    hide F.ChBits, F.MajBits, F.BigSigma0Bits, F.BigSigma1Bits, F.SmallSigma0Bits, F.SmallSigma1Bits;
    ChMajBitsAgree(x as bv32, y as bv32, z as bv32);
    BigSigmaBitsAgree(x as bv32);
    SmallSigmaBitsAgree(x as bv32);
  }

  // ---- addition of uint32_t ----

  function Add(x: uint32, y: uint32): uint32 {
    (x + y) % TWO_32
  }

  lemma AddCases(x: uint32, y: uint32)
    ensures Add(x, y) == if x + y < TWO_32 then x + y else x + y - TWO_32
  {}

  lemma AddSwap(x: uint32, y: uint32, z: uint32)
    ensures Add(x, y) == Add(y, x)
    ensures Add(Add(x, y), z) == Add(Add(x, z), y)
  {
    AddCases(x, y);
    AddCases(y, x);
    AddCases(x, z);
    AddCases(Add(x, y), z);
    AddCases(Add(x, z), y);
    hide Add;
  }

  lemma AddAgrees(x: uint32, y: uint32)
    ensures Add(x, y) == F.Add(x, y)
  {}

  /** The code adds W_{t-16} first; the standard adds it last. */
  lemma SumReordered(x: uint32, y: uint32, z: uint32, w: uint32)
    ensures Add(w, Add(Add(x, y), z)) == Add(Add(Add(x, y), z), w)
    ensures Add(Add(Add(w, x), y), z) == Add(Add(Add(x, y), z), w)
  {
    hide Add;
    AddSwap(w, Add(Add(x, y), z), 0);
    AddSwap(w, x, 0);
    AddSwap(x, w, y);
    AddSwap(Add(x, y), w, z);
  }

  lemma ScheduleSum(w16: uint32, w2: uint32, w7: uint32, w15: uint32)
    ensures Add(w16, Add(Add(SmallSigma1(w2), w7), SmallSigma0(w15))) == F.Schedule(w2, w7, w15, w16)
    ensures Add(Add(Add(w16, SmallSigma1(w2)), w7), SmallSigma0(w15)) == F.Schedule(w2, w7, w15, w16)
  {
    hide SmallSigma0, SmallSigma1, Add, F.SmallSigma0, F.SmallSigma1, F.Add;
    var x, z := SmallSigma1(w2), SmallSigma0(w15);
    FunctionsAgree(w2, 0, 0);
    FunctionsAgree(w15, 0, 0);
    SumReordered(x, w7, z, w16);
    AddAgrees(x, w7);
    AddAgrees(Add(x, w7), z);
    AddAgrees(Add(Add(x, w7), z), w16);
  }

  // ---- one line of the unrolled code ----

  /** The registers named in one line, in the order the line passes them, hold steps 0..t-1 of the standard. */
  ghost predicate AtStep(r: F.Regs, h0: F.Regs, m: seq<uint32>, t: nat) {
    |m| == 16 && t <= 64 && r == F.Steps(h0, m, t)
  }

  /** `w` is W_t of the message schedule. */
  ghost predicate IsW(w: uint32, m: seq<uint32>, t: nat) {
    |m| == 16 && w == F.W(m, t)
  }

  /** One round: it rewrites only d and h, and read one place to the right the registers are one step on. */
  method Round(a: uint32, b: uint32, c: uint32, d: uint32, e: uint32, f: uint32, g: uint32, h: uint32,
               k: uint32, w: uint32, ghost h0: F.Regs, ghost m: seq<uint32>, ghost t: nat)
    returns (d': uint32, h': uint32)
    requires t < 64 && k == F.K(t)
    requires AtStep(F.Regs(a, b, c, d, e, f, g, h), h0, m, t) && IsW(w, m, t)
    ensures AtStep(F.Regs(h', a, b, c, d', e, f, g), h0, m, t + 1)
  {
    hide F.K, F.W, BigSigma0, BigSigma1, Ch, Maj, Add, F.BigSigma0, F.BigSigma1, F.Ch, F.Maj, F.Add;
    var t1 := Add(Add(Add(Add(h, BigSigma1(e)), Ch(e, f, g)), k), w);
    var t2 := Add(BigSigma0(a), Maj(a, b, c));
    d' := Add(d, t1);
    h' := Add(t1, t2);
    FunctionsAgree(a, b, c);
    FunctionsAgree(e, f, g);
    AddAgrees(h, BigSigma1(e));
    AddAgrees(Add(h, BigSigma1(e)), Ch(e, f, g));
    AddAgrees(Add(Add(h, BigSigma1(e)), Ch(e, f, g)), k);
    AddAgrees(Add(Add(Add(h, BigSigma1(e)), Ch(e, f, g)), k), w);
    AddAgrees(BigSigma0(a), Maj(a, b, c));
    AddAgrees(d, t1);
    AddAgrees(t1, t2);
  }

  /** `w16 += sigma1(w2) + w7 + sigma0(w15)`: slot t mod 16 goes from W_{t-16} to W_t. */
  method Extend(w16: uint32, w2: uint32, w7: uint32, w15: uint32, ghost m: seq<uint32>, ghost t: nat)
    returns (w: uint32)
    requires 16 <= t
    requires IsW(w16, m, t - 16) && IsW(w2, m, t - 2) && IsW(w7, m, t - 7) && IsW(w15, m, t - 15)
    ensures IsW(w, m, t)
  {
    hide SmallSigma0, SmallSigma1, Add, F.SmallSigma0, F.SmallSigma1, F.Add;
    w := Add(w16, Add(Add(SmallSigma1(w2), w7), SmallSigma0(w15)));
    ScheduleSum(w16, w2, w7, w15);
  }

  /** `w16 + sigma1(w2) + w7 + sigma0(w15)`: the last two rounds use W_t without storing it. */
  method ExtendUnstored(w16: uint32, w2: uint32, w7: uint32, w15: uint32, ghost m: seq<uint32>, ghost t: nat)
    returns (w: uint32)
    requires 16 <= t
    requires IsW(w16, m, t - 16) && IsW(w2, m, t - 2) && IsW(w7, m, t - 7) && IsW(w15, m, t - 15)
    ensures IsW(w, m, t)
  {
    hide SmallSigma0, SmallSigma1, Add, F.SmallSigma0, F.SmallSigma1, F.Add;
    w := Add(Add(Add(w16, SmallSigma1(w2)), w7), SmallSigma0(w15));
    ScheduleSum(w16, w2, w7, w15);
  }

  // ---- the four quarters of the unrolled code ----

  /** The sixteen local words of the rolling schedule. */
  datatype Slots = Slots(w0: uint32, w1: uint32, w2: uint32, w3: uint32,
                         w4: uint32, w5: uint32, w6: uint32, w7: uint32,
                         w8: uint32, w9: uint32, w10: uint32, w11: uint32,
                         w12: uint32, w13: uint32, w14: uint32, w15: uint32)

  /** The slots hold W_t .. W_{t+15}. */
  ghost predicate Window(x: Slots, m: seq<uint32>, t: nat) {
    && IsW(x.w0, m, t + 0) && IsW(x.w1, m, t + 1) && IsW(x.w2, m, t + 2) && IsW(x.w3, m, t + 3)
    && IsW(x.w4, m, t + 4) && IsW(x.w5, m, t + 5) && IsW(x.w6, m, t + 6) && IsW(x.w7, m, t + 7)
    && IsW(x.w8, m, t + 8) && IsW(x.w9, m, t + 9) && IsW(x.w10, m, t + 10) && IsW(x.w11, m, t + 11)
    && IsW(x.w12, m, t + 12) && IsW(x.w13, m, t + 13) && IsW(x.w14, m, t + 14) && IsW(x.w15, m, t + 15)
  }

  /** Rounds 0 to 15. */
  method Rounds0(r: F.Regs, x: Slots, ghost h0: F.Regs, ghost m: seq<uint32>)
    returns (r': F.Regs)
    requires AtStep(r, h0, m, 0) && Window(x, m, 0)
    ensures AtStep(r', h0, m, 16)
  {
    hide AtStep, IsW;
    var a, b, c, d, e, f, g, h := r.a, r.b, r.c, r.d, r.e, r.f, r.g, r.h;
    var w0, w1, w2, w3, w4, w5, w6, w7 := x.w0, x.w1, x.w2, x.w3, x.w4, x.w5, x.w6, x.w7;
    var w8, w9, w10, w11, w12, w13, w14, w15 := x.w8, x.w9, x.w10, x.w11, x.w12, x.w13, x.w14, x.w15;
    d, h := Round(a, b, c, d, e, f, g, h, 0x428a2f98, w0, h0, m, 0);
    c, g := Round(h, a, b, c, d, e, f, g, 0x71374491, w1, h0, m, 1);
    b, f := Round(g, h, a, b, c, d, e, f, 0xb5c0fbcf, w2, h0, m, 2);
    a, e := Round(f, g, h, a, b, c, d, e, 0xe9b5dba5, w3, h0, m, 3);
    h, d := Round(e, f, g, h, a, b, c, d, 0x3956c25b, w4, h0, m, 4);
    g, c := Round(d, e, f, g, h, a, b, c, 0x59f111f1, w5, h0, m, 5);
    f, b := Round(c, d, e, f, g, h, a, b, 0x923f82a4, w6, h0, m, 6);
    e, a := Round(b, c, d, e, f, g, h, a, 0xab1c5ed5, w7, h0, m, 7);
    d, h := Round(a, b, c, d, e, f, g, h, 0xd807aa98, w8, h0, m, 8);
    c, g := Round(h, a, b, c, d, e, f, g, 0x12835b01, w9, h0, m, 9);
    b, f := Round(g, h, a, b, c, d, e, f, 0x243185be, w10, h0, m, 10);
    a, e := Round(f, g, h, a, b, c, d, e, 0x550c7dc3, w11, h0, m, 11);
    h, d := Round(e, f, g, h, a, b, c, d, 0x72be5d74, w12, h0, m, 12);
    g, c := Round(d, e, f, g, h, a, b, c, 0x80deb1fe, w13, h0, m, 13);
    f, b := Round(c, d, e, f, g, h, a, b, 0x9bdc06a7, w14, h0, m, 14);
    e, a := Round(b, c, d, e, f, g, h, a, 0xc19bf174, w15, h0, m, 15);
    r' := F.Regs(a, b, c, d, e, f, g, h);
  }

  /** Rounds 16 to 31. */
  method Rounds16(r: F.Regs, x: Slots, ghost h0: F.Regs, ghost m: seq<uint32>)
    returns (r': F.Regs, x': Slots)
    requires AtStep(r, h0, m, 16) && Window(x, m, 0)
    ensures AtStep(r', h0, m, 32) && Window(x', m, 16)
  {
    hide AtStep, IsW;
    var a, b, c, d, e, f, g, h := r.a, r.b, r.c, r.d, r.e, r.f, r.g, r.h;
    var w0, w1, w2, w3, w4, w5, w6, w7 := x.w0, x.w1, x.w2, x.w3, x.w4, x.w5, x.w6, x.w7;
    var w8, w9, w10, w11, w12, w13, w14, w15 := x.w8, x.w9, x.w10, x.w11, x.w12, x.w13, x.w14, x.w15;
    w0 := Extend(w0, w14, w9, w1, m, 16);
    d, h := Round(a, b, c, d, e, f, g, h, 0xe49b69c1, w0, h0, m, 16);
    w1 := Extend(w1, w15, w10, w2, m, 17);
    c, g := Round(h, a, b, c, d, e, f, g, 0xefbe4786, w1, h0, m, 17);
    w2 := Extend(w2, w0, w11, w3, m, 18);
    b, f := Round(g, h, a, b, c, d, e, f, 0x0fc19dc6, w2, h0, m, 18);
    w3 := Extend(w3, w1, w12, w4, m, 19);
    a, e := Round(f, g, h, a, b, c, d, e, 0x240ca1cc, w3, h0, m, 19);
    w4 := Extend(w4, w2, w13, w5, m, 20);
    h, d := Round(e, f, g, h, a, b, c, d, 0x2de92c6f, w4, h0, m, 20);
    w5 := Extend(w5, w3, w14, w6, m, 21);
    g, c := Round(d, e, f, g, h, a, b, c, 0x4a7484aa, w5, h0, m, 21);
    w6 := Extend(w6, w4, w15, w7, m, 22);
    f, b := Round(c, d, e, f, g, h, a, b, 0x5cb0a9dc, w6, h0, m, 22);
    w7 := Extend(w7, w5, w0, w8, m, 23);
    e, a := Round(b, c, d, e, f, g, h, a, 0x76f988da, w7, h0, m, 23);
    w8 := Extend(w8, w6, w1, w9, m, 24);
    d, h := Round(a, b, c, d, e, f, g, h, 0x983e5152, w8, h0, m, 24);
    w9 := Extend(w9, w7, w2, w10, m, 25);
    c, g := Round(h, a, b, c, d, e, f, g, 0xa831c66d, w9, h0, m, 25);
    w10 := Extend(w10, w8, w3, w11, m, 26);
    b, f := Round(g, h, a, b, c, d, e, f, 0xb00327c8, w10, h0, m, 26);
    w11 := Extend(w11, w9, w4, w12, m, 27);
    a, e := Round(f, g, h, a, b, c, d, e, 0xbf597fc7, w11, h0, m, 27);
    w12 := Extend(w12, w10, w5, w13, m, 28);
    h, d := Round(e, f, g, h, a, b, c, d, 0xc6e00bf3, w12, h0, m, 28);
    w13 := Extend(w13, w11, w6, w14, m, 29);
    g, c := Round(d, e, f, g, h, a, b, c, 0xd5a79147, w13, h0, m, 29);
    w14 := Extend(w14, w12, w7, w15, m, 30);
    f, b := Round(c, d, e, f, g, h, a, b, 0x06ca6351, w14, h0, m, 30);
    w15 := Extend(w15, w13, w8, w0, m, 31);
    e, a := Round(b, c, d, e, f, g, h, a, 0x14292967, w15, h0, m, 31);
    r' := F.Regs(a, b, c, d, e, f, g, h);
    x' := Slots(w0, w1, w2, w3, w4, w5, w6, w7, w8, w9, w10, w11, w12, w13, w14, w15);
  }

  /** Rounds 32 to 47. */
  method Rounds32(r: F.Regs, x: Slots, ghost h0: F.Regs, ghost m: seq<uint32>)
    returns (r': F.Regs, x': Slots)
    requires AtStep(r, h0, m, 32) && Window(x, m, 16)
    ensures AtStep(r', h0, m, 48) && Window(x', m, 32)
  {
    hide AtStep, IsW;
    var a, b, c, d, e, f, g, h := r.a, r.b, r.c, r.d, r.e, r.f, r.g, r.h;
    var w0, w1, w2, w3, w4, w5, w6, w7 := x.w0, x.w1, x.w2, x.w3, x.w4, x.w5, x.w6, x.w7;
    var w8, w9, w10, w11, w12, w13, w14, w15 := x.w8, x.w9, x.w10, x.w11, x.w12, x.w13, x.w14, x.w15;
    w0 := Extend(w0, w14, w9, w1, m, 32);
    d, h := Round(a, b, c, d, e, f, g, h, 0x27b70a85, w0, h0, m, 32);
    w1 := Extend(w1, w15, w10, w2, m, 33);
    c, g := Round(h, a, b, c, d, e, f, g, 0x2e1b2138, w1, h0, m, 33);
    w2 := Extend(w2, w0, w11, w3, m, 34);
    b, f := Round(g, h, a, b, c, d, e, f, 0x4d2c6dfc, w2, h0, m, 34);
    w3 := Extend(w3, w1, w12, w4, m, 35);
    a, e := Round(f, g, h, a, b, c, d, e, 0x53380d13, w3, h0, m, 35);
    w4 := Extend(w4, w2, w13, w5, m, 36);
    h, d := Round(e, f, g, h, a, b, c, d, 0x650a7354, w4, h0, m, 36);
    w5 := Extend(w5, w3, w14, w6, m, 37);
    g, c := Round(d, e, f, g, h, a, b, c, 0x766a0abb, w5, h0, m, 37);
    w6 := Extend(w6, w4, w15, w7, m, 38);
    f, b := Round(c, d, e, f, g, h, a, b, 0x81c2c92e, w6, h0, m, 38);
    w7 := Extend(w7, w5, w0, w8, m, 39);
    e, a := Round(b, c, d, e, f, g, h, a, 0x92722c85, w7, h0, m, 39);
    w8 := Extend(w8, w6, w1, w9, m, 40);
    d, h := Round(a, b, c, d, e, f, g, h, 0xa2bfe8a1, w8, h0, m, 40);
    w9 := Extend(w9, w7, w2, w10, m, 41);
    c, g := Round(h, a, b, c, d, e, f, g, 0xa81a664b, w9, h0, m, 41);
    w10 := Extend(w10, w8, w3, w11, m, 42);
    b, f := Round(g, h, a, b, c, d, e, f, 0xc24b8b70, w10, h0, m, 42);
    w11 := Extend(w11, w9, w4, w12, m, 43);
    a, e := Round(f, g, h, a, b, c, d, e, 0xc76c51a3, w11, h0, m, 43);
    w12 := Extend(w12, w10, w5, w13, m, 44);
    h, d := Round(e, f, g, h, a, b, c, d, 0xd192e819, w12, h0, m, 44);
    w13 := Extend(w13, w11, w6, w14, m, 45);
    g, c := Round(d, e, f, g, h, a, b, c, 0xd6990624, w13, h0, m, 45);
    w14 := Extend(w14, w12, w7, w15, m, 46);
    f, b := Round(c, d, e, f, g, h, a, b, 0xf40e3585, w14, h0, m, 46);
    w15 := Extend(w15, w13, w8, w0, m, 47);
    e, a := Round(b, c, d, e, f, g, h, a, 0x106aa070, w15, h0, m, 47);
    r' := F.Regs(a, b, c, d, e, f, g, h);
    x' := Slots(w0, w1, w2, w3, w4, w5, w6, w7, w8, w9, w10, w11, w12, w13, w14, w15);
  }

  /** Rounds 48 to 63. */
  method Rounds48(r: F.Regs, x: Slots, ghost h0: F.Regs, ghost m: seq<uint32>)
    returns (r': F.Regs)
    requires AtStep(r, h0, m, 48) && Window(x, m, 32)
    ensures AtStep(r', h0, m, 64)
  {
    hide AtStep, IsW;
    var a, b, c, d, e, f, g, h := r.a, r.b, r.c, r.d, r.e, r.f, r.g, r.h;
    var w0, w1, w2, w3, w4, w5, w6, w7 := x.w0, x.w1, x.w2, x.w3, x.w4, x.w5, x.w6, x.w7;
    var w8, w9, w10, w11, w12, w13, w14, w15 := x.w8, x.w9, x.w10, x.w11, x.w12, x.w13, x.w14, x.w15;
    w0 := Extend(w0, w14, w9, w1, m, 48);
    d, h := Round(a, b, c, d, e, f, g, h, 0x19a4c116, w0, h0, m, 48);
    w1 := Extend(w1, w15, w10, w2, m, 49);
    c, g := Round(h, a, b, c, d, e, f, g, 0x1e376c08, w1, h0, m, 49);
    w2 := Extend(w2, w0, w11, w3, m, 50);
    b, f := Round(g, h, a, b, c, d, e, f, 0x2748774c, w2, h0, m, 50);
    w3 := Extend(w3, w1, w12, w4, m, 51);
    a, e := Round(f, g, h, a, b, c, d, e, 0x34b0bcb5, w3, h0, m, 51);
    w4 := Extend(w4, w2, w13, w5, m, 52);
    h, d := Round(e, f, g, h, a, b, c, d, 0x391c0cb3, w4, h0, m, 52);
    w5 := Extend(w5, w3, w14, w6, m, 53);
    g, c := Round(d, e, f, g, h, a, b, c, 0x4ed8aa4a, w5, h0, m, 53);
    w6 := Extend(w6, w4, w15, w7, m, 54);
    f, b := Round(c, d, e, f, g, h, a, b, 0x5b9cca4f, w6, h0, m, 54);
    w7 := Extend(w7, w5, w0, w8, m, 55);
    e, a := Round(b, c, d, e, f, g, h, a, 0x682e6ff3, w7, h0, m, 55);
    w8 := Extend(w8, w6, w1, w9, m, 56);
    d, h := Round(a, b, c, d, e, f, g, h, 0x748f82ee, w8, h0, m, 56);
    w9 := Extend(w9, w7, w2, w10, m, 57);
    c, g := Round(h, a, b, c, d, e, f, g, 0x78a5636f, w9, h0, m, 57);
    w10 := Extend(w10, w8, w3, w11, m, 58);
    b, f := Round(g, h, a, b, c, d, e, f, 0x84c87814, w10, h0, m, 58);
    w11 := Extend(w11, w9, w4, w12, m, 59);
    a, e := Round(f, g, h, a, b, c, d, e, 0x8cc70208, w11, h0, m, 59);
    w12 := Extend(w12, w10, w5, w13, m, 60);
    h, d := Round(e, f, g, h, a, b, c, d, 0x90befffa, w12, h0, m, 60);
    w13 := Extend(w13, w11, w6, w14, m, 61);
    g, c := Round(d, e, f, g, h, a, b, c, 0xa4506ceb, w13, h0, m, 61);
    var w62_ := ExtendUnstored(w14, w12, w7, w15, m, 62);
    f, b := Round(c, d, e, f, g, h, a, b, 0xbef9a3f7, w62_, h0, m, 62);
    var w63_ := ExtendUnstored(w15, w13, w8, w0, m, 63);
    e, a := Round(b, c, d, e, f, g, h, a, 0xc67178f2, w63_, h0, m, 63);
    r' := F.Regs(a, b, c, d, e, f, g, h);
  }

  // ---- the whole function ----

  function StateOf(s: seq<uint32>): F.Regs
    requires |s| == 8
  {
    F.Regs(s[0], s[1], s[2], s[3], s[4], s[5], s[6], s[7])
  }

  /** Updates the chaining value in place, as one application of the standard's compression function. */
  method Transform(s: array<uint32>, chunk: seq<byte>)
    requires s.Length == 8 && |chunk| == 64
    modifies s
    ensures StateOf(s[..]) == F.Compress(old(StateOf(s[..])), chunk)
  {
    ghost var h0 := StateOf(s[..]);
    ghost var m := F.MessageWords(chunk);
    var r := F.Regs(s[0], s[1], s[2], s[3], s[4], s[5], s[6], s[7]);
    var x := Slots(
      LoadBig32(chunk, 0), LoadBig32(chunk, 4), LoadBig32(chunk, 8), LoadBig32(chunk, 12),
      LoadBig32(chunk, 16), LoadBig32(chunk, 20), LoadBig32(chunk, 24), LoadBig32(chunk, 28),
      LoadBig32(chunk, 32), LoadBig32(chunk, 36), LoadBig32(chunk, 40), LoadBig32(chunk, 44),
      LoadBig32(chunk, 48), LoadBig32(chunk, 52), LoadBig32(chunk, 56), LoadBig32(chunk, 60));
    SlotsLoaded(x, chunk);
    r := Rounds0(r, x, h0, m);
    r, x := Rounds16(r, x, h0, m);
    r, x := Rounds32(r, x, h0, m);
    r := Rounds48(r, x, h0, m);
    hide F.Steps, Window, Add, F.Add, F.MessageWords;
    ChainingSum(h0, r, chunk);
    AddInto(s, r);
  }

  method AddInto(s: array<uint32>, r: F.Regs)
    requires s.Length == 8
    modifies s
    ensures s[..] == old([Add(s[0], r.a), Add(s[1], r.b), Add(s[2], r.c), Add(s[3], r.d),
                          Add(s[4], r.e), Add(s[5], r.f), Add(s[6], r.g), Add(s[7], r.h)])
  {
    hide Add;
    s[0] := Add(s[0], r.a);
    s[1] := Add(s[1], r.b);
    s[2] := Add(s[2], r.c);
    s[3] := Add(s[3], r.d);
    s[4] := Add(s[4], r.e);
    s[5] := Add(s[5], r.f);
    s[6] := Add(s[6], r.g);
    s[7] := Add(s[7], r.h);
  }

  lemma ChainingSum(h0: F.Regs, r: F.Regs, chunk: seq<byte>)
    requires |chunk| == 64 && AtStep(r, h0, F.MessageWords(chunk), 64)
    ensures F.Regs(Add(h0.a, r.a), Add(h0.b, r.b), Add(h0.c, r.c), Add(h0.d, r.d),
                   Add(h0.e, r.e), Add(h0.f, r.f), Add(h0.g, r.g), Add(h0.h, r.h)) == F.Compress(h0, chunk)
  {
    hide F.Steps, F.MessageWords, Add, F.Add;
    forall x: uint32, y: uint32
      ensures Add(x, y) == F.Add(y, x)
    {
      AddSwap(x, y, 0);
      AddAgrees(y, x);
    }
  }

  lemma SlotsLoaded(x: Slots, chunk: seq<byte>)
    requires |chunk| == 64
    requires x.w0 == LoadBig32(chunk, 0) && x.w1 == LoadBig32(chunk, 4) && x.w2 == LoadBig32(chunk, 8) && x.w3 == LoadBig32(chunk, 12)
    requires x.w4 == LoadBig32(chunk, 16) && x.w5 == LoadBig32(chunk, 20) && x.w6 == LoadBig32(chunk, 24) && x.w7 == LoadBig32(chunk, 28)
    requires x.w8 == LoadBig32(chunk, 32) && x.w9 == LoadBig32(chunk, 36) && x.w10 == LoadBig32(chunk, 40) && x.w11 == LoadBig32(chunk, 44)
    requires x.w12 == LoadBig32(chunk, 48) && x.w13 == LoadBig32(chunk, 52) && x.w14 == LoadBig32(chunk, 56) && x.w15 == LoadBig32(chunk, 60)
    ensures Window(x, F.MessageWords(chunk), 0)
  {}
}
