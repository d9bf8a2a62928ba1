/** The hashers built on other hashers: Hmac, Hash256 and Hash160. */
module Composite {
  import opened Bytes
  import opened Padding
  import opened Digest
  import opened Hashers

  // ---- section 2 of RFC 2104 ----

  function XorBits(a: bv8, b: bv8): bv8 {
    a ^ b
  }

  function Xor(a: byte, b: byte): byte {
    XorBits(a as bv8, b as bv8) as byte
  }

  function XorAll(k: seq<byte>, pad: byte): (x: seq<byte>)
    ensures |x| == |k|
  {
    seq(|k|, i requires 0 <= i < |k| => Xor(k[i], pad))
  }

  /** The key brought to block length: hashed first when longer than a block, then zero-filled. */
  function BlockKey(alg: Algorithm, key: seq<byte>): seq<byte>
    requires alg.Valid()
  {
    var k := if |key| > alg.variant.blockSize then Hash(alg, key) else key;
    KeyFits(alg, key);
    k + Zeros(alg.variant.blockSize - |k|)
  }

  /** H(K xor opad, H(K xor ipad, text)). */
  function HmacOf(alg: Algorithm, key: seq<byte>, text: seq<byte>): seq<byte>
    requires alg.Valid()
  {
    var k := BlockKey(alg, key);
    Hash(alg, XorAll(k, 0x5c) + Hash(alg, XorAll(k, 0x36) + text))
  }

  /** `k` is the key brought to block length with the standard's hash. */
  ghost predicate IsStandardBlockKey(alg: Algorithm, key: seq<byte>, k: seq<byte>)
    requires alg.Valid()
  {
    if |key| <= alg.variant.blockSize then k == key + Zeros(alg.variant.blockSize - |key|)
    else exists h :: IsStandardHash(alg, key, h) && |h| <= alg.variant.blockSize && k == h + Zeros(alg.variant.blockSize - |h|)
  }

  /** Section 2 of RFC 2104 over the standard's hash: `d` is H(K xor opad, H(K xor ipad, text)). */
  ghost predicate IsStandardHmac(alg: Algorithm, key: seq<byte>, text: seq<byte>, d: seq<byte>)
    requires alg.Valid()
  {
    exists k, inner ::
      && IsStandardBlockKey(alg, key, k)
      && IsStandardHash(alg, XorAll(k, 0x36) + text, inner)
      && IsStandardHash(alg, XorAll(k, 0x5c) + inner, d)
  }

  /** Key, and text behind a block, are short enough for the standard's hash. */
  predicate StandardLengths(alg: Algorithm, key: seq<byte>, text: seq<byte>) {
    alg.variant.bigEndian ==> |key| < 0x2000_0000_0000_0000 && |text| + alg.variant.blockSize < 0x2000_0000_0000_0000
  }

  lemma BlockKeyIsStandard(alg: Algorithm, key: seq<byte>, k: seq<byte>)
    requires alg.Valid() && (alg.variant.bigEndian ==> |key| < 0x2000_0000_0000_0000)
    ensures IsStandardBlockKey(alg, key, k) <==> k == BlockKey(alg, key)
  {
    KeyFits(alg, key);
    HashIsStandard(alg, key, Hash(alg, key));
    hide IsStandardHash, Hash, Zeros;
    if |key| > alg.variant.blockSize && IsStandardBlockKey(alg, key, k) {
      var h :| IsStandardHash(alg, key, h) && |h| <= alg.variant.blockSize && k == h + Zeros(alg.variant.blockSize - |h|);
      HashIsStandard(alg, key, h);
    }
  }

  /** For every key, and every text that a block in front keeps below 2^61 bytes, the code's HMAC is the
      standard's, and the only one. */
  lemma HmacIsStandard(alg: Algorithm, key: seq<byte>, text: seq<byte>, d: seq<byte>)
    requires alg.Valid()
    requires StandardLengths(alg, key, text)
    ensures IsStandardHmac(alg, key, text, d) <==> d == HmacOf(alg, key, text)
  {
    var k := BlockKey(alg, key);
    var ipad, opad := XorAll(k, 0x36) + text, XorAll(k, 0x5c) + Hash(alg, XorAll(k, 0x36) + text);
    KeyFits(alg, key);
    KeyFits(alg, ipad);
    assert |k| == alg.variant.blockSize <= 128;
    BlockKeyIsStandard(alg, key, k);
    HashIsStandard(alg, ipad, Hash(alg, ipad));
    HashIsStandard(alg, opad, d);
    hide IsStandardHash, IsStandardBlockKey, BlockKey, Hash, XorAll;
    if IsStandardHmac(alg, key, text, d) {
      var k', inner :| IsStandardBlockKey(alg, key, k') && IsStandardHash(alg, XorAll(k', 0x36) + text, inner)
                       && IsStandardHash(alg, XorAll(k', 0x5c) + inner, d);
      BlockKeyIsStandard(alg, key, k');
      HashIsStandard(alg, ipad, inner);
    }
  }

  /** The standard's hash of the standard's hash, as Hash256 and Hash160 nest them. */
  ghost predicate IsStandardDouble(outer: Algorithm, inner: Algorithm, m: seq<byte>, d: seq<byte>)
    requires outer.Valid() && inner.Valid()
  {
    exists x :: IsStandardHash(inner, m, x) && IsStandardHash(outer, x, d)
  }

  lemma DoubleIsStandard(outer: Algorithm, inner: Algorithm, m: seq<byte>, d: seq<byte>)
    requires outer.Valid() && inner.Valid() && (inner.variant.bigEndian ==> |m| < 0x2000_0000_0000_0000)
    ensures IsStandardDouble(outer, inner, m, d) <==> d == Hash(outer, Hash(inner, m))
  {
    KeyFits(inner, m);
    assert inner.variant.blockSize <= 128;
    HashIsStandard(inner, m, Hash(inner, m));
    HashIsStandard(outer, Hash(inner, m), d);
    hide IsStandardHash, Hash;
    if IsStandardDouble(outer, inner, m, d) {
      var x :| IsStandardHash(inner, m, x) && IsStandardHash(outer, x, d);
      HashIsStandard(inner, m, x);
    }
  }

  lemma KeyFits(alg: Algorithm, key: seq<byte>)
    requires alg.Valid()
    ensures |Hash(alg, key)| == alg.variant.words * alg.variant.wordSize <= alg.variant.blockSize
  {
    FoldLength(alg, alg.iv, Padded(alg.variant, key));
    SerializeLength(alg.variant, Fold(alg, alg.iv, Padded(alg.variant, key)));
    hide Fold, Padded, Serialize;
  }

  lemma XorBitsTwice(x: bv8)
    ensures XorBits(XorBits(x, 0x5c), 0x6a) == XorBits(x, 0x36)
  {}

  /** Every byte of the key, the first included, is xored with the pad. */
  lemma XorAllAt(k: seq<byte>, pad: byte, i: nat)
    requires i < |k|
    ensures XorAll(k, pad)[i] as bv8 == (k[i] as bv8) ^ (pad as bv8)
  {
    ThroughByte(XorBits(k[i] as bv8, pad as bv8));
  }

  lemma BothPads()
    ensures Xor(0x5c, 0x36) == 0x6a
  {}

  lemma ThroughByte(x: bv8)
    ensures (x as byte) as bv8 == x
  {}

  /** Xor by 0x5c and then by 0x5c ^ 0x36 leaves the key xor 0x36. */
  lemma XorTwice(b: byte)
    ensures Xor(Xor(b, 0x5c), Xor(0x5c, 0x36)) == Xor(b, 0x36)
  {
    BothPads();
    var x := b as bv8;
    XorBitsTwice(x);
    hide XorBits;
    ThroughByte(XorBits(x, 0x5c));
  }

  lemma XorAllTwice(k: seq<byte>)
    ensures XorAll(XorAll(k, 0x5c), Xor(0x5c, 0x36)) == XorAll(k, 0x36)
  {
    hide Xor;
    forall i | 0 <= i < |k|
      ensures XorAll(XorAll(k, 0x5c), Xor(0x5c, 0x36))[i] == XorAll(k, 0x36)[i]
    {
      XorTwice(k[i]);
    }
  }

  class Hmac {
    const inner: Hasher
    const outer: Hasher
    ghost var keyed: bool      // init has run, and finalize has not run since
    ghost var key: seq<byte>
    ghost var text: seq<byte>  // everything fed since init

    ghost predicate Valid()
      reads this, inner, inner.buffer, outer, outer.buffer
    {
      && inner.Valid() && outer.Valid() && inner.alg == outer.alg
      && inner != outer && inner.buffer != outer.buffer
      && (keyed ==>
            && inner.message == XorAll(BlockKey(inner.alg, key), 0x36) + text
            && outer.message == XorAll(BlockKey(inner.alg, key), 0x5c))
    }

    constructor (alg: Algorithm)
      requires alg.Valid()
      ensures Valid() && fresh(inner) && fresh(outer) && fresh(inner.buffer) && fresh(outer.buffer)
      ensures inner.alg == alg && !keyed
    {
      hide Absorbed, Hash, BlockKey, XorAll, Fold;
      inner := new Hasher(alg);
      outer := new Hasher(alg);
      keyed, key, text := false, [], [];
    }

    /** From any state, including after a finalize. */
    method Init(initialData: seq<byte>)
      requires Valid()
      modifies this, inner, inner.buffer, outer, outer.buffer
      ensures Valid() && keyed && key == initialData && text == []
    {
      hide Hash, Xor, XorAll, Absorbed, Fold, BlockKey;
      inner.Init();
      outer.Init();
      ghost var alg := inner.alg;
      ghost var k0 := BlockKey(alg, initialData);
      var rkey := FitKey(initialData);

      XorInPlace(rkey, 0x5c);
      outer.Update(rkey[..]);

      XorInPlace(rkey, Xor(0x5c, 0x36));
      XorAllTwice(k0);
      inner.Update(rkey[..]);
      keyed, key, text := true, initialData, [];
      assert [] + XorAll(k0, 0x36) == XorAll(k0, 0x36) + [];
      assert [] + XorAll(k0, 0x5c) == XorAll(k0, 0x5c);
    }

    /** The key brought to block length. The inner hasher shortens a long key and is reset afterwards. */
    method FitKey(initialData: seq<byte>) returns (rkey: array<byte>)
      requires inner.Valid() && inner.message == []
      modifies inner, inner.buffer
      ensures inner.Valid() && inner.message == []
      ensures fresh(rkey) && rkey[..] == BlockKey(inner.alg, initialData)
    {
      hide Hash, Absorbed, Fold;
      KeyFits(inner.alg, initialData);
      var k := initialData;
      if |initialData| > inner.alg.variant.blockSize {
        inner.Update(initialData);
        assert inner.message == initialData;
        k := inner.Finalize();
        inner.Init();
      }
      assert BlockKey(inner.alg, initialData) == k + Zeros(inner.alg.variant.blockSize - |k|);
      hide *;
      rkey := ZeroFilled(k, inner.alg.variant.blockSize);
    }

    method Update(data: seq<byte>)
      requires Valid()
      modifies this, inner, inner.buffer
      ensures Valid() && keyed == old(keyed) && key == old(key) && text == old(text) + data
    {
      hide Hash, BlockKey, XorAll, Absorbed;
      inner.Update(data);
      text := text + data;
    }

    /** RFC 2104, for every key length and every chunking of the text. */
    method Finalize() returns (digest: seq<byte>)
      requires Valid()
      modifies this, inner, inner.buffer, outer, outer.buffer
      ensures Valid() && !keyed
      ensures old(keyed) ==> digest == HmacOf(inner.alg, old(key), old(text))
      ensures old(keyed) && StandardLengths(inner.alg, old(key), old(text)) ==>
                IsStandardHmac(inner.alg, old(key), old(text), digest)
    {
      hide Hash, BlockKey, XorAll, Absorbed, StandardLengths, IsStandardHmac;
      var d := inner.Finalize();
      outer.Update(d);
      digest := outer.Finalize();
      keyed := false;
      if StandardLengths(inner.alg, key, text) {
        HmacIsStandard(inner.alg, key, text, digest);
      }
    }
  }

  /** `rkey.resize(block_size, 0)`. */
  method ZeroFilled(k: seq<byte>, size: nat) returns (rkey: array<byte>)
    requires |k| <= size
    ensures fresh(rkey) && rkey[..] == k + Zeros(size - |k|)
  {
    rkey := new byte[size](_ => 0);
    CopyInto(rkey, 0, k);
  }

  /** `for (i...) rkey[i] ^= pad`. */
  method XorInPlace(a: array<byte>, pad: byte)
    modifies a
    ensures a[..] == XorAll(old(a[..]), pad)
    ensures forall j | 0 <= j < a.Length :: a[j] as bv8 == (old(a[j]) as bv8) ^ (pad as bv8)
  {
    hide Xor;
    var i := 0;
    while i < a.Length
      invariant 0 <= i <= a.Length
      invariant forall j | 0 <= j < i :: a[j] == Xor(old(a[j]), pad)
      invariant forall j | i <= j < a.Length :: a[j] == old(a[j])
    {
      a[i] := Xor(a[i], pad);
      i := i + 1;
    }
    ghost var was := old(a[..]);
    assert a[..] == XorAll(was, pad);
    forall j | 0 <= j < a.Length
      ensures a[j] as bv8 == (was[j] as bv8) ^ (pad as bv8)
    {
      XorAllAt(was, pad, j);
      assert a[..][j] == a[j];
    }
  }

  /** End to end: whatever the object did before. */
  method HmacChunks(h: Hmac, key: seq<byte>, chunks: seq<seq<byte>>) returns (digest: seq<byte>)
    requires h.Valid()
    modifies h, h.inner, h.inner.buffer, h.outer, h.outer.buffer
    ensures digest == HmacOf(h.inner.alg, key, Flatten(chunks))
    ensures StandardLengths(h.inner.alg, key, Flatten(chunks)) ==> IsStandardHmac(h.inner.alg, key, Flatten(chunks), digest)
  {
    hide HmacOf, Absorbed, Hash, BlockKey, StandardLengths, IsStandardHmac;
    h.Init(key);
    var i := 0;
    while i < |chunks|
      invariant 0 <= i <= |chunks| && h.Valid() && h.keyed && h.key == key && h.text == Flatten(chunks[..i])
    {
      h.Update(chunks[i]);
      assert chunks[..i + 1][..i] == chunks[..i];
      i := i + 1;
    }
    assert chunks[..i] == chunks;
    digest := h.Finalize();
  }

  // ---- Bitcoin's double hashes ----

  class Hash256 {
    const hasher: Hasher

    ghost predicate Valid()
      reads this, hasher, hasher.buffer
    {
      hasher.Valid() && hasher.alg.variant == SHA256
    }

    constructor (sha256: Algorithm)
      requires sha256.Valid() && sha256.variant == SHA256
      ensures Valid() && fresh(hasher) && fresh(hasher.buffer) && hasher.alg == sha256 && hasher.message == []
    {
      hasher := new Hasher(sha256);
    }

    method Init()
      requires Valid()
      modifies hasher
      ensures Valid() && hasher.message == []
    {
      hasher.Init();
    }

    method Update(data: seq<byte>)
      requires Valid()
      modifies hasher, hasher.buffer
      ensures Valid() && hasher.message == old(hasher.message) + data
    {
      hasher.Update(data);
    }

    /** SHA-256 of the SHA-256, reusing the one hasher for both passes. */
    method Finalize() returns (digest: seq<byte>)
      requires Valid()
      modifies hasher, hasher.buffer
      ensures Valid() && digest == Hash(hasher.alg, Hash(hasher.alg, old(hasher.message)))
      ensures |old(hasher.message)| < 0x2000_0000_0000_0000 ==>
                IsStandardDouble(hasher.alg, hasher.alg, old(hasher.message), digest)
    {
      hide Hash, Absorbed, IsStandardDouble;
      ghost var m := hasher.message;
      var buffer := hasher.Finalize();
      hasher.Init();
      hasher.Update(buffer);
      assert hasher.message == buffer;
      digest := hasher.Finalize();
      if |m| < 0x2000_0000_0000_0000 {
        DoubleIsStandard(hasher.alg, hasher.alg, m, digest);
      }
    }
  }

  class Hash160 {
    const hasher: Hasher
    const ripemd: Algorithm  // what the local Ripemd160 computes

    ghost predicate Valid()
      reads this, hasher, hasher.buffer
    {
      && hasher.Valid() && hasher.alg.variant == SHA256
      && ripemd.Valid() && ripemd.variant == RIPEMD160
    }

    constructor (sha256: Algorithm, ripemd: Algorithm)
      requires sha256.Valid() && sha256.variant == SHA256
      requires ripemd.Valid() && ripemd.variant == RIPEMD160
      ensures Valid() && fresh(hasher) && fresh(hasher.buffer) && hasher.alg == sha256 && hasher.message == []
      ensures this.ripemd == ripemd
    {
      hasher := new Hasher(sha256);
      this.ripemd := ripemd;
    }

    method Init()
      requires Valid()
      modifies hasher
      ensures Valid() && hasher.message == []
    {
      hasher.Init();
    }

    method Update(data: seq<byte>)
      requires Valid()
      modifies hasher, hasher.buffer
      ensures Valid() && hasher.message == old(hasher.message) + data
    {
      hasher.Update(data);
    }

    /** RIPEMD-160 of the SHA-256. */
    method Finalize() returns (digest: seq<byte>)
      requires Valid()
      modifies hasher, hasher.buffer
      ensures Valid() && digest == Hash(ripemd, Hash(hasher.alg, old(hasher.message)))
      ensures |old(hasher.message)| < 0x2000_0000_0000_0000 ==>
                IsStandardDouble(ripemd, hasher.alg, old(hasher.message), digest)
    {
      hide Hash, Absorbed, IsStandardDouble;
      ghost var m := hasher.message;
      var buffer := hasher.Finalize();
      var hasher2 := new Hasher(ripemd);
      hasher2.Update(buffer);
      assert hasher2.message == buffer;
      digest := hasher2.Finalize();
      if |m| < 0x2000_0000_0000_0000 {
        DoubleIsStandard(ripemd, hasher.alg, m, digest);
      }
    }
  }
}
