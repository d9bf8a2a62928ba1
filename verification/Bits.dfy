/** Bitwise and, and or, of natural numbers, bit by bit. */
module Bits {

  // ---- and ----

  function BitAnd(x: nat, y: nat): nat {
    if x == 0 || y == 0 then 0
    else 2 * BitAnd(x / 2, y / 2) + if x % 2 == 1 && y % 2 == 1 then 1 else 0
  }

  function Pow2(k: nat): (p: nat)
    ensures p > 0
  {
    if k == 0 then 1 else 2 * Pow2(k - 1)
  }

  /** `(page_size & (page_size - 1)) == 0` accepts exactly the powers of two. */
  lemma {:induction false} PowerOfTwoTest(p: nat) returns (k: nat)
    requires p > 0
    ensures BitAnd(p, p - 1) == 0 ==> p == Pow2(k)
    ensures (exists j :: p == Pow2(j)) ==> BitAnd(p, p - 1) == 0
  {
    if exists j :: p == Pow2(j) {
      k :| p == Pow2(k);
      PowerOfTwoBits(k);
    } else {
      k := 0;
      NotPowerOfTwo(p);
    }
  }

  lemma {:induction false} PowerOfTwoBits(k: nat)
    ensures BitAnd(Pow2(k), Pow2(k) - 1) == 0
  {
    if k > 0 {
      PowerOfTwoBits(k - 1);
      assert (Pow2(k) - 1) / 2 == Pow2(k - 1) - 1;
    }
  }

  lemma {:induction false} NotPowerOfTwo(p: nat)
    requires p > 0 && forall j :: p != Pow2(j)
    ensures BitAnd(p, p - 1) != 0
  {
    assert p != Pow2(0);
    if p % 2 == 0 {
      forall j: nat
        ensures p / 2 != Pow2(j)
      {
        assert Pow2(j + 1) == 2 * Pow2(j);
      }
      assert (p - 1) / 2 == p / 2 - 1;
      NotPowerOfTwo(p / 2);
    } else {
      AndSelf(p / 2);
      assert (p - 1) / 2 == p / 2;
    }
  }

  lemma {:induction false} AndSelf(x: nat)
    ensures BitAnd(x, x) == x
  {
    if x > 0 {
      AndSelf(x / 2);
    }
  }

  lemma {:induction false} AllOnes(x: nat, n: nat)
    requires x < Pow2(n)
    ensures BitAnd(x, Pow2(n) - 1) == x
  {
    if x > 0 {
      assert (Pow2(n) - 1) / 2 == Pow2(n - 1) - 1;
      AllOnes(x / 2, n - 1);
    }
  }

  lemma ModDouble(x: nat, m: nat)
    requires m > 0
    ensures x % (2 * m) == 2 * (x / 2 % m) + x % 2
  {
    var q, r := x / 2 / m, x / 2 % m;
    assert x / 2 == m * q + r;
    assert x == (2 * m) * q + (2 * r + x % 2);
    Residue(2 * m, q, 2 * r + x % 2);
  }

  lemma Residue(m: nat, q: nat, r: nat)
    requires r < m
    ensures (m * q + r) % m == r
  {
    var x := m * q + r;
    QuotientUnique(m, q, r, x / m, x % m);
  }

  lemma QuotientUnique(m: nat, a: nat, r: nat, b: nat, s: nat)
    requires r < m && s < m && m * a + r == m * b + s
    ensures a == b && r == s
  {
    if a < b {
      MulMono(m, a + 1, b);
    } else if b < a {
      MulMono(m, b + 1, a);
    }
  }

  lemma MulMono(m: nat, a: nat, b: nat)
    requires a <= b
    ensures m * a <= m * b
  {}

  /** Masking with ~(2^k - 1) in n bits clears the low k bits. */
  lemma {:induction false} MaskRoundsDown(x: nat, k: nat, n: nat)
    requires k <= n && x < Pow2(n)
    ensures Pow2(k) <= Pow2(n)
    ensures BitAnd(x, Pow2(n) - Pow2(k)) == x - x % Pow2(k)
  {
    if k == 0 {
      AllOnes(x, n);
    } else {
      MaskRoundsDown(x / 2, k - 1, n - 1);
      ModDouble(x, Pow2(k - 1));
      assert (Pow2(n) - Pow2(k)) / 2 == Pow2(n - 1) - Pow2(k - 1);
    }
  }

  lemma Pow2At64()
    ensures Pow2(64) == 0x1_0000_0000_0000_0000
  {
    assert Pow2(8) == 0x100;
    assert Pow2(16) == 0x1_0000;
    assert Pow2(24) == 0x100_0000;
    assert Pow2(32) == 0x1_0000_0000;
    assert Pow2(40) == 0x100_0000_0000;
    assert Pow2(48) == 0x1_0000_0000_0000;
    assert Pow2(56) == 0x100_0000_0000_0000;
  }

  // ---- or ----

  function BitOr(x: nat, y: nat): nat {
    if x == 0 then y else if y == 0 then x
    else 2 * BitOr(x / 2, y / 2) + if x % 2 == 1 || y % 2 == 1 then 1 else 0
  }

  lemma OrStep(x: nat, y: nat)
    ensures BitOr(x, y) == 2 * BitOr(x / 2, y / 2) + if x % 2 == 1 || y % 2 == 1 then 1 else 0
  {}

  lemma {:induction false} OrBelow(x: nat, y: nat, k: nat)
    requires x < Pow2(k) && y < Pow2(k)
    ensures BitOr(x, y) < Pow2(k)
  {
    if k > 0 {
      OrStep(x, y);
      OrBelow(x / 2, y / 2, k - 1);
    }
  }

  lemma {:induction false} OrOnes(x: nat, y: nat, k: nat)
    requires x < Pow2(k) && y < Pow2(k) && (x == Pow2(k) - 1 || y == Pow2(k) - 1)
    ensures BitOr(x, y) == Pow2(k) - 1
  {
    if k > 0 {
      OrStep(x, y);
      assert (Pow2(k) - 1) / 2 == Pow2(k - 1) - 1;
      OrOnes(x / 2, y / 2, k - 1);
    }
  }

  lemma OrMultiple16(x: nat, y: nat)
    requires x % 16 == 0 && y % 16 == 0
    ensures BitOr(x, y) % 16 == 0
  {
    FourSteps(x, y);
    hide BitOr;
    assert 16 * BitOr(x / 16, y / 16) % 16 == 0;
  }

  /** Or of an upper and a lower nibble is their sum. */
  lemma OrNibbles(hi: nat, lo: nat)
    requires lo < 16
    ensures BitOr(16 * hi, lo) == 16 * hi + lo
  {
    FourSteps(16 * hi, lo);
    assert 16 * hi / 16 == hi && lo / 16 == 0;
  }

  lemma FourSteps(x: nat, y: nat)
    ensures x % 16 == 0 ==> BitOr(x, y) == 16 * BitOr(x / 16, y / 16) + y % 16
  {
    hide BitOr;
    OrStep(x, y);
    OrStep(x / 2, y / 2);
    OrStep(x / 4, y / 4);
    OrStep(x / 8, y / 8);
    Halves(x);
    Halves(y);
  }

  lemma Halves(x: nat)
    ensures x / 2 / 2 == x / 4 && x / 4 / 2 == x / 8 && x / 8 / 2 == x / 16
    ensures x % 16 == x % 2 + 2 * (x / 2 % 2) + 4 * (x / 4 % 2) + 8 * (x / 8 % 2)
  {}
}
