/** Sha256Old: the self-contained SHA-256 with its own block buffering. */
module Sha256Olds {
  import opened Bytes
  import opened Padding
  import opened Digest
  import opened Hashers
  import opened Sha256Transform
  import F = Fips180

  predicate IsState(h: seq<nat>) {
    |h| == 8 && forall i | 0 <= i < 8 :: h[i] < TWO_32
  }

  function Words(r: F.Regs): (h: seq<uint32>)
    ensures |h| == 8 && StateOf(h) == r
  {
    [r.a, r.b, r.c, r.d, r.e, r.f, r.g, r.h]
  }

  /** The standard's compression function on eight words and one block; nothing else is ever passed to it. */
  function FipsCompress(h: seq<nat>, block: seq<byte>): seq<nat> {
    if IsState(h) && |block| == 64 then Words(F.Compress(StateOf(h), block)) else h
  }

  /** SHA-256 of FIPS 180-4. */
  function Fips256(): (alg: Algorithm)
    ensures alg.Valid() && alg.variant == SHA256
  {
    Algorithm(SHA256, Words(F.INITIAL), FipsCompress)
  }

  class Sha256Old {
    const s: array<uint32>
    const buf: array<byte>
    var bytes: nat            // a size_t: wraps at 2^64
    ghost var message: seq<byte>

    ghost predicate Holds(m: seq<byte>)
      reads this, s, buf
    {
      && s.Length == 8 && buf.Length == 64
      && Absorbed(Fips256(), m, buf[..bytes % 64], bytes, s[..])
    }

    ghost predicate Valid()
      reads this, s, buf
    {
      Holds(message)
    }

    constructor ()
      ensures Valid() && fresh(s) && fresh(buf) && message == []
    {
      s := new uint32[8](_ => 0);
      buf := new byte[64](_ => 0);
      bytes := 0;
      message := [];
      new;
      Initialize();
      NothingAbsorbed();
      hide *;
      assert buf[..bytes % 64] == [];
    }

    method Initialize()
      requires s.Length == 8
      modifies s
      ensures s[..] == Words(F.INITIAL)
    {
      s[0] := 0x6a09e667;
      s[1] := 0xbb67ae85;
      s[2] := 0x3c6ef372;
      s[3] := 0xa54ff53a;
      s[4] := 0x510e527f;
      s[5] := 0x9b05688c;
      s[6] := 0x1f83d9ab;
      s[7] := 0x5be0cd19;
    }

    method Reset()
      requires Valid()
      modifies this, s
      ensures Valid() && message == []
    {
      bytes := 0;
      Initialize();
      message := [];
    }

    method Compress(chunk: seq<byte>)
      requires s.Length == 8 && |chunk| == 64
      modifies s
      ensures s[..] == Fips256().compress(old(s[..]), chunk)
    {
      Transform(s, chunk);
      hide F.Compress;
    }

    /** Branches differently from Hasher.Update, to the same effect. The three steps of the C++ function are
        three methods here; `data` is how far into the input they have come. */
    method Write(input: seq<byte>)
      requires Valid()
      modifies this, s, buf
      ensures Valid() && message == old(message) + input
    {
      hide *;
      var data := FillBuffer(input);
      ghost var m := message;
      var data' := ProcessChunks(input[data..]);
      assert input[..data] + input[data..] == input;
      ghost var m' := message;
      KeepRest(input[data..][data'..]);
      assert input[data..][..data'] + input[data..][data'..] == input[data..];
      assert message == old(message) + input[..data] + input[data..];
    }

    /** `input` bytes fit the block that is being filled, or the next one. */
    predicate Fits(input: seq<byte>)
      reads this
    {
      bytes % 64 != 0 ==> bytes % 64 + |input| < 64
    }

    method FillBuffer(input: seq<byte>) returns (data: nat)
      requires Valid()
      modifies this, s, buf
      ensures data <= |input| && Valid() && message == old(message) + input[..data]
      ensures Fits(input[data..])
    {
      hide Absorbed, Fips256;
      data := 0;
      var bufsize := bytes % 64;
      if bufsize != 0 && bufsize + |input| >= 64 {
        ghost var pending, part := buf[..bufsize], input[..64 - bufsize];
        AbsorbPart(Fips256(), message, pending, bytes, s[..], part);
        CopyInto(buf, bufsize, input[..64 - bufsize]);
        assert buf[..] == pending + part;
        bytes := (bytes + (64 - bufsize)) % TWO_64;
        data := data + (64 - bufsize);
        Compress(buf[..]);
        message := message + part;
        AbsorbedCounts(Fips256(), message, [], bytes, s[..]);
        assert buf[..0] == [];
      } else {
        assert message + input[..0] == message;
      }
    }

    method ProcessChunks(input: seq<byte>) returns (data: nat)
      requires Valid() && Fits(input)
      modifies this, s
      ensures data <= |input| < data + 64 && Valid() && message == old(message) + input[..data]
      ensures Fits(input[data..])
    {
      hide Absorbed, Fips256;
      data := 0;
      assert message + input[..0] == message;
      while |input| >= data + 64
        invariant data <= |input| && Valid() && Fits(input[data..])
        invariant message == old(message) + input[..data]
      {
        ghost var block := input[data..data + 64];
        OneBlock(message, buf[..bytes % 64], bytes, s[..], block);
        Compress(input[data..data + 64]);
        bytes := (bytes + 64) % TWO_64;
        data := data + 64;
        message := message + block;
        assert bytes % 64 == 0 && buf[..bytes % 64] == [];
        assert input[..data] == input[..data - 64] + block;
      }
    }

    method KeepRest(input: seq<byte>)
      requires Valid() && |input| < 64 && Fits(input)
      modifies this, buf
      ensures Valid() && message == old(message) + input
    {
      hide Absorbed, Fips256;
      if |input| > 0 {
        var bufsize := bytes % 64;
        ghost var pending := buf[..bufsize];
        AbsorbPart(Fips256(), message, pending, bytes, s[..], input);
        CopyInto(buf, bufsize, input);
        assert buf[..bufsize + |input|] == pending + input;
        bytes := (bytes + |input|) % TWO_64;
        message := message + input;
        AbsorbedCounts(Fips256(), message, pending + input, bytes, s[..]);
      } else {
        assert message + input == message;
      }
    }

    /** The eight words, big-endian. */
    method FinalizeNoPadding(enforceCompression: bool) returns (hash: seq<byte>)
      requires Valid()
      requires enforceCompression ==> bytes == 64  // ZEN_ASSERT
      ensures hash == Serialize(SHA256, Fold(Fips256(), Fips256().iv, message))
    {
      AbsorbedFold(Fips256(), message, buf[..bytes % 64], bytes, s[..]);
      hide Absorbed, BigEndian, Fold, Fips256;
      hash := [];
      assert Serialize(SHA256, s[..0]) == [];
      hide Serialize;
      hash := hash + BigEndian(s[0], 4);
      SerializeNext(s[..], 0);
      hash := hash + BigEndian(s[1], 4);
      SerializeNext(s[..], 1);
      hash := hash + BigEndian(s[2], 4);
      SerializeNext(s[..], 2);
      hash := hash + BigEndian(s[3], 4);
      SerializeNext(s[..], 3);
      hash := hash + BigEndian(s[4], 4);
      SerializeNext(s[..], 4);
      hash := hash + BigEndian(s[5], 4);
      SerializeNext(s[..], 5);
      hash := hash + BigEndian(s[6], 4);
      SerializeNext(s[..], 6);
      hash := hash + BigEndian(s[7], 4);
      SerializeNext(s[..], 7);
      assert s[..][..8] == s[..];
    }

    method Finalize() returns (hash: seq<byte>)
      requires Valid()
      modifies this, s, buf
      ensures Valid() && message == Padded(SHA256, old(message))
      ensures hash == Hash(Fips256(), old(message))
    {
      ghost var m := message;
      AbsorbedCounts(Fips256(), m, buf[..bytes % 64], bytes, s[..]);
      var pad, sizedesc := PaddingBytes256(bytes, m);
      hide *;
      Write(pad);
      Write(sizedesc);
      hash := FinalizeNoPadding(false);
    }
  }

  lemma NothingAbsorbed()
    ensures Absorbed(Fips256(), [], [], 0, Words(F.INITIAL))
  {}

  /** Taking in a whole block straight from the input. */
  lemma OneBlock(m: seq<byte>, pending: seq<byte>, total: nat, ctx: seq<nat>, block: seq<byte>)
    requires Absorbed(Fips256(), m, pending, total, ctx) && pending == [] && |block| == 64
    ensures Absorbed(Fips256(), m + block, [], (total + 64) % TWO_64, Fips256().compress(ctx, block))
    ensures (total + 64) % TWO_64 % 64 == 0
  {
    hide Absorbed, Fips256;
    AbsorbPart(Fips256(), m, pending, total, ctx, block);
    assert pending + block == block;
    AbsorbedCounts(Fips256(), m + block, [], (total + 64) % TWO_64, Fips256().compress(ctx, block));
  }

  /** The arguments of the two Write calls in Finalize. */
  method PaddingBytes256(bytes: nat, ghost m: seq<byte>) returns (pad: seq<byte>, sizedesc: seq<byte>)
    requires bytes == |m| % TWO_64
    ensures m + pad + sizedesc == Padded(SHA256, m)
  {
    sizedesc := BigEndian(bytes * 8 % TWO_64, 8);
    assert Zeros(0) + sizedesc == sizedesc;
    var marker := [0x80] + Zeros(63);
    SuffixInTwoParts(SHA256, m, bytes, marker, sizedesc);
    hide *;
    pad := marker[..1 + (119 - bytes % 64) % 64];
  }

  lemma AbsorbedFold(alg: Algorithm, m: seq<byte>, pending: seq<byte>, total: nat, ctx: seq<nat>)
    requires Known(alg.variant) && Absorbed(alg, m, pending, total, ctx)
    ensures ctx == Fold(alg, alg.iv, m)
  {}

  lemma SerializeNext(h: seq<nat>, i: nat)
    requires i < |h|
    ensures Serialize(SHA256, h[..i + 1]) == Serialize(SHA256, h[..i]) + BigEndian(h[i], 4)
  {
    assert h[..i + 1][..i] == h[..i];
  }

  /** A 64-byte-block Hasher over the same compression function computes the same hash as Sha256Old. */
  lemma EnginesAgree(alg: Algorithm, m: seq<byte>)
    requires alg.variant == SHA256 && alg.iv == Words(F.INITIAL)
    requires forall h, b :: IsState(h) && |b| == 64 ==> alg.compress(h, b) == FipsCompress(h, b)
    ensures Hash(alg, m) == Hash(Fips256(), m)
  {
    FoldsAgree(alg, alg.iv, Padded(SHA256, m));
  }

  lemma {:induction false} FoldsAgree(alg: Algorithm, c: seq<nat>, data: seq<byte>)
    requires alg.variant == SHA256 && IsState(c)
    requires forall h, b :: IsState(h) && |b| == 64 ==> alg.compress(h, b) == FipsCompress(h, b)
    ensures Fold(alg, c, data) == Fold(Fips256(), c, data)
    decreases |data|
  {
    hide F.Compress;
    if |data| >= 64 {
      FoldsAgree(alg, FipsCompress(c, data[..64]), data[64..]);
    }
  }

  /** End to end for the legacy class: Reset, any Writes, Finalize give the SHA-256 of the concatenation, and
      below 2^61 bytes that is the digest FIPS 180-4 defines. */
  method HashWrites(h: Sha256Old, chunks: seq<seq<byte>>) returns (hash: seq<byte>)
    requires h.Valid()
    modifies h, h.s, h.buf
    ensures hash == Hash(Fips256(), Flatten(chunks))
    ensures |Flatten(chunks)| < 0x2000_0000_0000_0000 ==> IsStandardHash(Fips256(), Flatten(chunks), hash)
  {
    hide Fips256;
    h.Reset();
    var i := 0;
    while i < |chunks|
      invariant 0 <= i <= |chunks| && h.Valid() && h.message == Flatten(chunks[..i])
    {
      h.Write(chunks[i]);
      assert chunks[..i + 1][..i] == chunks[..i];
      i := i + 1;
    }
    assert chunks[..i] == chunks;
    hash := h.Finalize();
    if |Flatten(chunks)| < 0x2000_0000_0000_0000 {
      HashIsStandard(Fips256(), Flatten(chunks), hash);
    }
  }
}
