/** Machine integers and byte strings shared by the other modules.

    Bytes and words are mathematical integers with their C++ ranges, so that every wrap-around
    the program relies on has to be written out. */
module Bytes {
  import Bits

  const TWO_32: nat := 0x1_0000_0000
  const TWO_64: nat := 0x1_0000_0000_0000_0000

  type byte = x: int | 0 <= x < 0x100
  type uint32 = x: int | 0 <= x < 0x1_0000_0000

  function Zeros(n: nat): (s: seq<byte>)
    ensures |s| == n
  {
    seq(n, _ => 0)
  }

  function Pow256(n: nat): (p: nat)
    ensures p > 0
  {
    if n == 0 then 1 else 256 * Pow256(n - 1)
  }

  /** The `count` low-order bytes of `value`, most significant first. */
  function BigEndian(value: nat, count: nat): (b: seq<byte>)
    ensures |b| == count
  {
    if count == 0 then [] else BigEndian(value / 256, count - 1) + [value % 256]
  }

  /** The `count` low-order bytes of `value`, least significant first. */
  function LittleEndian(value: nat, count: nat): (b: seq<byte>)
    ensures |b| == count
  {
    if count == 0 then [] else [value % 256] + LittleEndian(value / 256, count - 1)
  }

  function FromLittleEndian(b: seq<byte>): nat {
    if b == [] then 0 else b[0] + 256 * FromLittleEndian(b[1..])
  }

  function LoadBig32(b: seq<byte>, at: nat): uint32
    requires at + 4 <= |b|
  {
    (b[at] as int) * 0x100_0000 + (b[at + 1] as int) * 0x1_0000 + (b[at + 2] as int) * 0x100 + b[at + 3]
  }

  // ---- what a store puts where ----

  lemma QuotientOfQuotient(v: nat, a: nat, b: nat)
    requires a > 0 && b > 0
    ensures a * b > 0 && v / a / b == v / (a * b)
  {
    var x, s := v / a, v % a;
    assert v == a * x + s;
    var q, r := x / b, x % b;
    assert x == b * q + r;
    Expand(a, b, q, r);
    LowPart(a, b, r, s);
    SameQuotient(v, a * b, q, a * r + s);
  }

  lemma SameQuotient(v: nat, m: nat, q: nat, low: nat)
    requires low < m && v == m * q + low
    ensures v / m == q
  {
    assert v == m * (v / m) + v % m;
    Bits.QuotientUnique(m, q, low, v / m, v % m);
  }

  lemma Expand(a: nat, b: nat, q: nat, r: nat)
    ensures a * (b * q + r) == (a * b) * q + a * r
  {}

  lemma LowPart(a: nat, b: nat, r: nat, s: nat)
    requires r < b && s < a
    ensures 0 < a * b && a * r + s < a * b
  {
    Bits.MulMono(a, r + 1, b);
    assert a * (r + 1) == a * r + a;
  }

  /** Byte i of a big-endian store is the one 256^(count - 1 - i) counts. */
  lemma {:induction false} BigEndianAt(value: nat, count: nat, i: nat)
    requires i < count
    ensures BigEndian(value, count)[i] == value / Pow256(count - 1 - i) % 256
  {
    if i < count - 1 {
      BigEndianAt(value / 256, count - 1, i);
      QuotientOfQuotient(value, 256, Pow256(count - 2 - i));
    }
  }

  /** Byte i of a little-endian store is the one 256^i counts. */
  lemma {:induction false} LittleEndianAt(value: nat, count: nat, i: nat)
    requires i < count
    ensures LittleEndian(value, count)[i] == value / Pow256(i) % 256
  {
    if i > 0 {
      LittleEndianAt(value / 256, count - 1, i - 1);
      QuotientOfQuotient(value, 256, Pow256(i - 1));
    }
  }

  /** Loading four bytes and storing the word again gives the bytes, most significant first. */
  lemma StoreOfLoad(b: seq<byte>, at: nat)
    requires at + 4 <= |b|
    ensures BigEndian(LoadBig32(b, at), 4) == b[at..at + 4]
  {
    var w := LoadBig32(b, at);
    FourBytes(w, b[at], b[at + 1], b[at + 2], b[at + 3]);
    assert b[at..at + 4] == [b[at], b[at + 1], b[at + 2], b[at + 3]];
  }

  lemma FourBytes(w: nat, b0: byte, b1: byte, b2: byte, b3: byte)
    requires w == b0 * 0x100_0000 + b1 * 0x1_0000 + b2 * 0x100 + b3
    ensures BigEndian(w, 4) == [b0, b1, b2, b3]
  {
    assert w % 256 == b3 && w / 256 == b0 * 0x1_0000 + b1 * 0x100 + b2;
    assert w / 256 % 256 == b2 && w / 256 / 256 == b0 * 0x100 + b1;
    assert w / 256 / 256 % 256 == b1 && w / 256 / 256 / 256 == b0;
    assert BigEndian(w / 256 / 256 / 256, 1) == [] + [b0];
    assert BigEndian(w / 256 / 256, 2) == [b0] + [b1];
    assert BigEndian(w / 256, 3) == [b0, b1] + [b2];
    assert BigEndian(w, 4) == [b0, b1, b2] + [b3];
  }

  /** And what was stored is loaded: for every word. */
  lemma LoadOfStore(w: uint32)
    ensures LoadBig32(BigEndian(w, 4), 0) == w
  {
    var b := BigEndian(w, 4);
    StoreOfLoad(b, 0);
    assert b[0..4] == b;
    assert Pow256(4) == 0x1_0000_0000 by { assert Pow256(2) == 0x1_0000; }
    BigEndianInjective(w, LoadBig32(b, 0), 4);
  }

  /** Reading back what was stored gives the value, and nothing else encodes to those bytes. */
  lemma {:induction false} LittleEndianRoundTrip(value: nat, count: nat)
    requires value < Pow256(count)
    ensures FromLittleEndian(LittleEndian(value, count)) == value
  {
    if count > 0 {
      LittleEndianRoundTrip(value / 256, count - 1);
      assert LittleEndian(value, count)[1..] == LittleEndian(value / 256, count - 1);
    }
  }

  lemma {:induction false} FromLittleEndianRoundTrip(b: seq<byte>)
    ensures FromLittleEndian(b) < Pow256(|b|)
    ensures LittleEndian(FromLittleEndian(b), |b|) == b
  {
    if b != [] {
      FromLittleEndianRoundTrip(b[1..]);
      assert [b[0]] + b[1..] == b;
    }
  }

  lemma {:induction false} BigEndianInjective(x: nat, y: nat, count: nat)
    requires x < Pow256(count) && y < Pow256(count)
    requires BigEndian(x, count) == BigEndian(y, count)
    ensures x == y
  {
    if count > 0 {
      var n := count - 1;
      assert BigEndian(x, count)[..n] == BigEndian(x / 256, n);
      assert BigEndian(y, count)[..n] == BigEndian(y / 256, n);
      assert BigEndian(x, count)[n] == x % 256 && BigEndian(y, count)[n] == y % 256;
      BigEndianInjective(x / 256, y / 256, n);
    }
  }

  /** Zero bytes in front of a store of a value that fits are the wider store of the same value. */
  lemma {:induction false} BigEndianZeroExtend(value: nat, high: nat, count: nat)
    requires value < Pow256(count)
    ensures BigEndian(value, high + count) == Zeros(high) + BigEndian(value, count)
  {
    if count > 0 {
      BigEndianZeroExtend(value / 256, high, count - 1);
      assert Zeros(high) + (BigEndian(value / 256, count - 1) + [value % 256])
          == Zeros(high) + BigEndian(value / 256, count - 1) + [value % 256];
    } else {
      BigEndianOfZero(high);
      assert Zeros(high) + [] == Zeros(high);
    }
  }

  lemma {:induction false} BigEndianOfZero(count: nat)
    ensures BigEndian(0, count) == Zeros(count)
  {
    if count > 0 {
      BigEndianOfZero(count - 1);
      assert Zeros(count - 1) + [0] == Zeros(count);
    }
  }
}
