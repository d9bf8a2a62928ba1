/** The first sixty-four primes, from whose roots the constants of SHA-256 are taken. */
module Primes {
  import Bits

  predicate IsPrime(n: nat) {
    n >= 2 && forall d | 2 <= d < n :: n % d != 0
  }

  /** The first sixty-four primes, eight to a row. */
  const PRIMES: seq<seq<nat>> := [
    [2, 3, 5, 7, 11, 13, 17, 19],
    [23, 29, 31, 37, 41, 43, 47, 53],
    [59, 61, 67, 71, 73, 79, 83, 89],
    [97, 101, 103, 107, 109, 113, 127, 131],
    [137, 139, 149, 151, 157, 163, 167, 173],
    [179, 181, 191, 193, 197, 199, 211, 223],
    [227, 229, 233, 239, 241, 251, 257, 263],
    [269, 271, 277, 281, 283, 293, 307, 311]
  ]

  /** The t-th of them, counted from zero. */
  function Prime(t: nat): nat
    requires t < 64
  {
    PRIMES[t / 8][t % 8]
  }

  /** No prime below 19 divides n, other than n itself. */
  predicate Sieved(n: nat) {
    && n >= 2
    && (n == 2 || n % 2 != 0) && (n == 3 || n % 3 != 0) && (n == 5 || n % 5 != 0) && (n == 7 || n % 7 != 0)
    && (n == 11 || n % 11 != 0) && (n == 13 || n % 13 != 0) && (n == 17 || n % 17 != 0)
  }

  lemma Multiple(m: nat, q: nat)
    requires m > 0
    ensures (m * q) % m == 0
  {
    Bits.Residue(m, q, 0);
  }

  /** A divisor of a divisor divides. */
  lemma DividesThrough(p: nat, f: nat, n: nat)
    requires p > 0 && f > 0 && f % p == 0 && n % f == 0
    ensures n % p == 0
  {
    var h, g := f / p, n / f;
    assert n == f * g && f == p * h;
    assert n == p * (h * g);
    Multiple(p, h * g);
  }

  /** Every number from 2 to 18 has a prime below 19 for a divisor. */
  lemma SmallDivisor(f: nat) returns (p: nat)
    requires 2 <= f <= 18
    ensures p in {2, 3, 5, 7, 11, 13, 17} && p <= f && f % p == 0
  {
    p := if f % 2 == 0 then 2 else if f % 3 == 0 then 3 else if f % 5 == 0 then 5 else f;
  }

  /** Below 19 * 19 the sieve is exact: of two factors the smaller is below 19. */
  lemma SieveIsExact(n: nat)
    requires n < 361
    ensures IsPrime(n) <==> Sieved(n)
  {
    if Sieved(n) {
      forall d | 2 <= d < n
        ensures n % d != 0
      {
        if n % d == 0 {
          NotSieved(n, d);
        }
      }
    }
  }

  lemma NotSieved(n: nat, d: nat)
    requires n < 361 && 2 <= d < n && n % d == 0
    ensures !Sieved(n)
  {
    var e := n / d;
    assert n == d * e;
    Cofactor(d, e);
    var f := SmallerFactor(d, e);
    var p := SmallDivisor(f);
    DividesThrough(p, f, n);
    assert n % p == 0 && p <= f < n;
  }

  lemma Cofactor(d: nat, e: nat)
    ensures e == 0 ==> d * e == 0
    ensures e == 1 ==> d * e == d
  {}

  lemma AtLeastSquare(f: nat, g: nat)
    requires 2 <= f <= g
    ensures 2 * f <= f * g
    ensures 19 <= f ==> 361 <= f * g
  {
    Bits.MulMono(f, 2, g);
    if 19 <= f {
      Bits.MulMono(f, 19, g);
    }
  }

  lemma SmallerFactor(d: nat, e: nat) returns (f: nat)
    requires 2 <= d && 2 <= e && d * e < 361
    ensures 2 <= f <= 18 && f < d * e && (d * e) % f == 0
  {
    if d <= e {
      f := d;
      AtLeastSquare(d, e);
      Multiple(d, e);
    } else {
      f := e;
      AtLeastSquare(e, d);
      Multiple(e, d);
      assert d * e == e * d;
    }
  }

  // ---- the sieve, evaluated ----

  /** No number from n up to `end` passes the sieve. */
  predicate NoneSieved(n: nat, end: nat)
    decreases end - n
  {
    n < end ==> !Sieved(n) && NoneSieved(n + 1, end)
  }

  /** Entry t passes the sieve, the next one is greater, and nothing between them passes. */
  predicate EntryOk(t: nat)
    requires t < 64
  {
    Sieved(Prime(t)) && (t < 63 ==> Prime(t) < Prime(t + 1) && NoneSieved(Prime(t) + 1, Prime(t + 1)))
  }

  // Sieving the numbers of a row of the table, and those between them.

  lemma Row0()
    ensures Sieved(2) && Sieved(3) && Sieved(5) && Sieved(7)
    ensures Sieved(11) && Sieved(13) && Sieved(17) && Sieved(19)
    ensures NoneSieved(3, 3) && NoneSieved(4, 5) && NoneSieved(6, 7) && NoneSieved(8, 11)
    ensures NoneSieved(12, 13) && NoneSieved(14, 17) && NoneSieved(18, 19) && NoneSieved(20, 23)
  {}

  lemma Row1()
    ensures Sieved(23) && Sieved(29) && Sieved(31) && Sieved(37)
    ensures Sieved(41) && Sieved(43) && Sieved(47) && Sieved(53)
    ensures NoneSieved(24, 29) && NoneSieved(30, 31) && NoneSieved(32, 37) && NoneSieved(38, 41)
    ensures NoneSieved(42, 43) && NoneSieved(44, 47) && NoneSieved(48, 53) && NoneSieved(54, 59)
  {}

  lemma Row2()
    ensures Sieved(59) && Sieved(61) && Sieved(67) && Sieved(71)
    ensures Sieved(73) && Sieved(79) && Sieved(83) && Sieved(89)
    ensures NoneSieved(60, 61) && NoneSieved(62, 67) && NoneSieved(68, 71) && NoneSieved(72, 73)
    ensures NoneSieved(74, 79) && NoneSieved(80, 83) && NoneSieved(84, 89) && NoneSieved(90, 97)
  {}

  lemma Row3()
    ensures Sieved(97) && Sieved(101) && Sieved(103) && Sieved(107)
    ensures Sieved(109) && Sieved(113) && Sieved(127) && Sieved(131)
    ensures NoneSieved(98, 101) && NoneSieved(102, 103) && NoneSieved(104, 107) && NoneSieved(108, 109)
    ensures NoneSieved(110, 113) && NoneSieved(114, 127) && NoneSieved(128, 131) && NoneSieved(132, 137)
  {}

  lemma Row4()
    ensures Sieved(137) && Sieved(139) && Sieved(149) && Sieved(151)
    ensures Sieved(157) && Sieved(163) && Sieved(167) && Sieved(173)
    ensures NoneSieved(138, 139) && NoneSieved(140, 149) && NoneSieved(150, 151) && NoneSieved(152, 157)
    ensures NoneSieved(158, 163) && NoneSieved(164, 167) && NoneSieved(168, 173) && NoneSieved(174, 179)
  {}

  lemma Row5()
    ensures Sieved(179) && Sieved(181) && Sieved(191) && Sieved(193)
    ensures Sieved(197) && Sieved(199) && Sieved(211) && Sieved(223)
    ensures NoneSieved(180, 181) && NoneSieved(182, 191) && NoneSieved(192, 193) && NoneSieved(194, 197)
    ensures NoneSieved(198, 199) && NoneSieved(200, 211) && NoneSieved(212, 223) && NoneSieved(224, 227)
  {}

  lemma Row6()
    ensures Sieved(227) && Sieved(229) && Sieved(233) && Sieved(239)
    ensures Sieved(241) && Sieved(251) && Sieved(257) && Sieved(263)
    ensures NoneSieved(228, 229) && NoneSieved(230, 233) && NoneSieved(234, 239) && NoneSieved(240, 241)
    ensures NoneSieved(242, 251) && NoneSieved(252, 257) && NoneSieved(258, 263) && NoneSieved(264, 269)
  {}

  lemma Row7()
    ensures Sieved(269) && Sieved(271) && Sieved(277) && Sieved(281)
    ensures Sieved(283) && Sieved(293) && Sieved(307) && Sieved(311)
    ensures NoneSieved(270, 271) && NoneSieved(272, 277) && NoneSieved(278, 281) && NoneSieved(282, 283)
    ensures NoneSieved(284, 293) && NoneSieved(294, 307) && NoneSieved(308, 311)
  {}

  lemma Entries0(t: nat)
    requires 0 <= t < 16
    ensures EntryOk(t)
  {
    Row0();
    Row1();
    hide Sieved, NoneSieved;
  }

  lemma Entries16(t: nat)
    requires 16 <= t < 32
    ensures EntryOk(t)
  {
    Row2();
    Row3();
    hide Sieved, NoneSieved;
  }

  lemma Entries32(t: nat)
    requires 32 <= t < 48
    ensures EntryOk(t)
  {
    Row4();
    Row5();
    hide Sieved, NoneSieved;
  }

  lemma Entries48(t: nat)
    requires 48 <= t < 64
    ensures EntryOk(t)
  {
    Row6();
    Row7();
    hide Sieved, NoneSieved;
  }

  lemma {:induction false} NoneSievedAt(n: nat, end: nat, m: nat)
    requires NoneSieved(n, end) && n <= m < end
    ensures !Sieved(m)
    decreases m - n
  {
    hide Sieved;
    if n < m {
      NoneSievedAt(n + 1, end, m);
    }
  }

  lemma Entry(t: nat)
    requires t < 64
    ensures EntryOk(t)
  {
    hide EntryOk;
    if t < 16 { Entries0(t); } else if t < 32 { Entries16(t); } else if t < 48 { Entries32(t); } else { Entries48(t); }
  }

  lemma {:induction false} IncreasingThroughout(s: nat, t: nat)
    requires s < t < 64
    ensures Prime(s) < Prime(t)
  {
    Entry(t - 1);
    hide Prime, Sieved, NoneSieved;
    if s < t - 1 {
      IncreasingThroughout(s, t - 1);
    }
  }

  /** Its entries are prime, in order and without repetition, and no prime up to the last of them is missing: it
      is the first sixty-four primes. */
  lemma TableIsThePrimes(n: nat)
    requires n <= 311
    ensures IsPrime(n) <==> exists t: nat :: t < 64 && Prime(t) == n
    ensures forall s: nat, t: nat | s < t < 64 :: Prime(s) < Prime(t)
  {
    forall s: nat, t: nat | s < t < 64
      ensures Prime(s) < Prime(t)
    {
      IncreasingThroughout(s, t);
    }
    SieveIsExact(n);
    hide IsPrime, Sieved;
    if t: nat :| t < 64 && Prime(t) == n {
      Entry(t);
      AtMost311(t);
    } else if n < 2 {
      assert !Sieved(n) by { Below2(n); }
    } else {
      var t := Position(n, 63);
      assert Prime(t) != n;
      Entry(t);
      NoneSievedAt(Prime(t) + 1, Prime(t + 1), n);
    }
  }

  lemma AtMost311(t: nat)
    requires t < 64
    ensures Prime(t) <= 311
  {
    assert Prime(63) == 311;
    if t < 63 {
      IncreasingThroughout(t, 63);
    }
    hide Prime;
  }

  lemma Below2(n: nat)
    requires n < 2
    ensures !Sieved(n)
  {}

  /** The last entry not above n. */
  lemma {:induction false} Position(n: nat, top: nat) returns (t: nat)
    requires 2 <= n && top < 64 && n <= Prime(top)
    ensures t <= top && Prime(t) <= n && (t < top ==> n < Prime(t + 1)) && (t == top ==> n == Prime(top))
  {
    if n == Prime(top) {
      t := top;
    } else {
      assert top > 0 by { assert Prime(0) == 2; }
      hide Prime;
      if Prime(top - 1) <= n {
        t := top - 1;
      } else {
        t := Position(n, top - 1);
      }
    }
  }
}
