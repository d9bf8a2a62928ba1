/** The block-buffering engine shared by Sha1, Sha256, Sha512 and Ripemd160, with their `finalize`.

    The four C++ classes differ in the numbers of a Padding.Variant; here they are one class with those
    numbers as constants. `ctx` is the content of the pooled OpenSSL context; who owns which context is the
    subject of module ContextPool. */
module Hashers {
  import opened Bytes
  import opened Padding
  import opened Digest

  method CopyInto(dst: array<byte>, at: nat, src: seq<byte>)
    requires at + |src| <= dst.Length
    modifies dst
    ensures dst[..] == old(dst[..at]) + src + old(dst[at + |src|..])
  {
    forall i | 0 <= i < |src| {
      dst[at + i] := src[i];
    }
  }

  /** The message `m` has been taken in: `pending` is its unprocessed tail, `total` its size_t length, and `ctx`
      the fold over its complete blocks. */
  ghost predicate Absorbed(alg: Algorithm, m: seq<byte>, pending: seq<byte>, total: nat, ctx: seq<nat>)
    requires Known(alg.variant)
  {
    && |pending| == |m| % alg.variant.blockSize
    && pending == m[|m| - |pending|..]
    && total == |m| % TWO_64
    && ctx == Fold(alg, alg.iv, m)
  }

  /** Taking in bytes up to the end of the current block. */
  lemma AbsorbPart(alg: Algorithm, m: seq<byte>, pending: seq<byte>, total: nat, ctx: seq<nat>, part: seq<byte>)
    requires Known(alg.variant) && Absorbed(alg, m, pending, total, ctx)
    requires |pending| + |part| <= alg.variant.blockSize
    ensures |pending| + |part| < alg.variant.blockSize ==>
              Absorbed(alg, m + part, pending + part, (total + |part|) % TWO_64, ctx)
    ensures |pending| + |part| == alg.variant.blockSize ==>
              Absorbed(alg, m + part, [], (total + |part|) % TWO_64, alg.compress(ctx, pending + part))
  {
    hide Fold;
    FoldGrow(alg, m, part);
    Counters(alg.variant, |m|, |part|);
  }

  class Hasher {
    const alg: Algorithm
    const buffer: array<byte>
    var ctx: seq<nat>
    var bufferOffset: nat
    var totalBytes: nat       // a size_t: wraps at 2^64
    ghost var message: seq<byte>  // everything fed since the last init

    /** The representation invariant, for the message `m`. */
    ghost predicate Holds(m: seq<byte>)
      reads this, buffer
      requires Known(alg.variant)
    {
      && buffer.Length == alg.variant.blockSize
      && bufferOffset < buffer.Length
      && Absorbed(alg, m, buffer[..bufferOffset], totalBytes, ctx)
    }

    ghost predicate Valid()
      reads this, buffer
    {
      alg.Valid() && Holds(message)
    }

    constructor (alg: Algorithm)
      requires alg.Valid()
      ensures Valid() && fresh(buffer) && this.alg == alg && message == []
    {
      this.alg := alg;
      buffer := new byte[alg.variant.blockSize](_ => 0);
      ctx := alg.iv;
      bufferOffset, totalBytes := 0, 0;
      message := [];
    }

    /** `init`/`reset`: whatever was fed before is forgotten; the buffer's old bytes stay where they are. */
    method Init()
      requires Valid()
      modifies this
      ensures Valid() && message == []
    {
      ctx := alg.iv;
      totalBytes := 0;
      bufferOffset := 0;
      message := [];
    }

    method Transform(block: seq<byte>)
      modifies this`ctx
      ensures ctx == alg.compress(old(ctx), block)
    {
      ctx := alg.compress(ctx, block);
    }

    /** After any run of updates the context is the fold over the complete blocks, the first bufferOffset
        buffer bytes are the unprocessed tail, and only the concatenation of what was fed matters. */
    method Update(data0: seq<byte>)
      requires Valid()
      modifies this, buffer
      ensures Valid() && message == old(message) + data0
    {
      hide Absorbed, Fold;
      ghost var m := message;  // what has been taken in so far
      var data := data0;
      if bufferOffset != 0 {
        var roomSize := if buffer.Length - bufferOffset <= |data| then buffer.Length - bufferOffset else |data|;
        ghost var pending := buffer[..bufferOffset];
        ghost var part := data[..roomSize];
        AbsorbPart(alg, m, pending, totalBytes, ctx, part);
        CopyInto(buffer, bufferOffset, data[..roomSize]);
        data := data[roomSize..];
        bufferOffset := bufferOffset + roomSize;
        totalBytes := (totalBytes + roomSize) % TWO_64;
        assert buffer[..bufferOffset] == pending + part;
        m := m + part;
        if bufferOffset == buffer.Length {
          assert buffer[..] == buffer[..bufferOffset];
          Transform(buffer[..]);
          bufferOffset := 0;
        }
      }
      assert m + data == message + data0;

      while |data| >= alg.variant.blockSize
        invariant alg.Valid() && Holds(m) && (data == [] || bufferOffset == 0)
        invariant m + data == message + data0 && message == old(message)
      {
        ghost var block := data[..alg.variant.blockSize];
        AbsorbPart(alg, m, [], totalBytes, ctx, block);
        assert [] + block == block;
        totalBytes := (totalBytes + alg.variant.blockSize) % TWO_64;
        Transform(data[..alg.variant.blockSize]);
        assert m + data == m + block + data[|block|..];
        m := m + block;
        data := data[alg.variant.blockSize..];
      }

      if data != [] {
        AbsorbPart(alg, m, [], totalBytes, ctx, data);
        CopyInto(buffer, 0, data);
        assert buffer[..|data|] == [] + data;
        bufferOffset := |data|;
        totalBytes := (totalBytes + |data|) % TWO_64;
      } else {
        assert m + data == m;
      }
      message := message + data0;
    }

    /** The zero-filled output with each state word stored at its place. */
    method FinalizeNoPadding(compression: bool) returns (digest: seq<byte>)
      requires Valid()
      requires compression ==> totalBytes == alg.variant.blockSize  // ZEN_ASSERT
      ensures digest == Serialize(alg.variant, Fold(alg, alg.iv, message))
    {
      FoldLength(alg, alg.iv, message);
      var v := alg.variant;
      var ret := new byte[v.words * v.wordSize](_ => 0);
      var i := 0;
      while i < v.words
        invariant 0 <= i <= v.words && |ctx| == v.words
        invariant v.wordSize * i <= ret.Length
        invariant ret[..v.wordSize * i] == Serialize(v, ctx[..i])
      {
        assert v.wordSize * (i + 1) == v.wordSize * i + v.wordSize <= v.wordSize * v.words by {
          MulStep(v.wordSize, i, v.words);
        }
        CopyInto(ret, v.wordSize * i, StoreWord(v, ctx[i]));
        assert ctx[..i + 1][..i] == ctx[..i];
        i := i + 1;
      }
      assert ctx[..i] == ctx;
      digest := ret[..];
    }

    /** `finalize`: pad, flush, serialise. The whole padded message has gone through the compression function
        and nothing is left in the buffer. */
    method Finalize() returns (digest: seq<byte>)
      requires Valid()
      modifies this, buffer
      ensures Valid() && message == Padded(alg.variant, old(message)) && bufferOffset == 0
      ensures digest == Hash(alg, old(message))
    {
      ghost var m := message;
      AbsorbedCounts(alg, m, buffer[..bufferOffset], totalBytes, ctx);
      var pad, sizedesc := PaddingBytes(alg.variant, totalBytes, m);
      hide *;
      Update(pad);
      Update(sizedesc);
      AbsorbedCounts(alg, message, buffer[..bufferOffset], totalBytes, ctx);
      digest := FinalizeNoPadding(false);
    }
  }

  /** The two byte strings `finalize` feeds: the marker with its zeros, and the length field. */
  method PaddingBytes(v: Variant, total: nat, ghost m: seq<byte>) returns (pad: seq<byte>, sizedesc: seq<byte>)
    requires Known(v) && total == |m| % TWO_64
    ensures m + pad + sizedesc == Padded(v, m) && |Padded(v, m)| % v.blockSize == 0
  {
    var bits := total * 8 % TWO_64;
    sizedesc := Zeros(v.fieldSize - 8) + if v.bigEndian then BigEndian(bits, 8) else LittleEndian(bits, 8);
    assert sizedesc == LengthField(v, total);
    var marker := [0x80] + Zeros(v.blockSize - 1);
    SuffixInTwoParts(v, m, total, marker, sizedesc);
    hide *;
    pad := marker[..1 + (v.padBase - total % v.blockSize) % v.blockSize];
  }

  lemma AbsorbedCounts(alg: Algorithm, m: seq<byte>, pending: seq<byte>, total: nat, ctx: seq<nat>)
    requires Known(alg.variant) && Absorbed(alg, m, pending, total, ctx)
    ensures total == |m| % TWO_64
    ensures |pending| == |m| % alg.variant.blockSize == total % alg.variant.blockSize
  {
    ModMod(|m|, alg.variant);
  }

  /** The two updates of `finalize` feed the suffix: marker and zeros, then the length field. */
  lemma SuffixInTwoParts(v: Variant, m: seq<byte>, total: nat, pad: seq<byte>, sizedesc: seq<byte>)
    requires Known(v) && total == |m| % TWO_64
    requires pad == [0x80] + Zeros(v.blockSize - 1) && sizedesc == LengthField(v, total)
    ensures var zeros := (v.padBase - total % v.blockSize) % v.blockSize;
            && 0 <= zeros < |pad|
            && m + pad[..1 + zeros] + sizedesc == Padded(v, m)
    ensures |Padded(v, m)| % v.blockSize == 0
  {
    ZeroCountValue(v, |m|);
    PaddedIsShortest(v, m);
    hide LengthField;
    var zeros := ZeroCount(v, total);
    assert zeros == (v.padBase - total % v.blockSize) % v.blockSize < v.blockSize;
    hide ZeroCount, Zeros, Known;
    MarkerPrefix(zeros, v.blockSize - 1);
    Grouped(m, [0x80] + Zeros(zeros), sizedesc);
  }

  lemma MarkerPrefix(zeros: nat, n: nat)
    requires zeros <= n
    ensures ([0x80] + Zeros(n))[..1 + zeros] == [0x80] + Zeros(zeros)
  {}

  lemma Grouped(a: seq<byte>, b: seq<byte>, c: seq<byte>)
    ensures a + b + c == a + (b + c)
  {}

  /** The two counters after `more` further bytes, at most one block. */
  lemma Counters(v: Variant, n: nat, more: nat)
    requires Known(v) && more <= v.blockSize
    ensures (n % TWO_64 + more) % TWO_64 == (n + more) % TWO_64
    ensures var r := n % v.blockSize;
            (n + more) % v.blockSize ==
              if r + more < v.blockSize then r + more else if r + more < 2 * v.blockSize then r + more - v.blockSize else 0
  {
    if v.blockSize == 64 {
      Counters64(n, more);
    } else {
      Counters128(n, more);
    }
  }

  lemma Counters64(n: nat, more: nat)
    requires more <= 64
    ensures var r := n % 64;
            (n + more) % 64 == if r + more < 64 then r + more else r + more - 64
  {}

  lemma Counters128(n: nat, more: nat)
    requires more <= 128
    ensures var r := n % 128;
            (n + more) % 128 == if r + more < 128 then r + more else r + more - 128
  {}

  function Flatten(chunks: seq<seq<byte>>): seq<byte> {
    if chunks == [] then [] else Flatten(chunks[..|chunks| - 1]) + chunks[|chunks| - 1]
  }

  /** End to end: a hasher in any state, initialised and fed a message in any pieces, returns the hash of the
      message, which for lengths the standard covers is the standard's. */
  method HashChunks(h: Hasher, chunks: seq<seq<byte>>) returns (digest: seq<byte>)
    requires h.Valid()
    modifies h, h.buffer
    ensures digest == Hash(h.alg, Flatten(chunks))
    ensures (h.alg.variant.bigEndian ==> |Flatten(chunks)| < 0x2000_0000_0000_0000)
        ==> IsStandardHash(h.alg, Flatten(chunks), digest)
  {
    h.Init();
    var i := 0;
    while i < |chunks|
      invariant 0 <= i <= |chunks| && h.Valid() && h.message == Flatten(chunks[..i])
    {
      h.Update(chunks[i]);
      assert chunks[..i + 1][..i] == chunks[..i];
      i := i + 1;
    }
    assert chunks[..i] == chunks;
    digest := h.Finalize();
    if h.alg.variant.bigEndian ==> |Flatten(chunks)| < 0x2000_0000_0000_0000 {
      HashIsStandard(h.alg, Flatten(chunks), digest);
    }
  }
}
