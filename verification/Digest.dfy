/** What the four hash functions compute: the iterated compression of a padded message.

    The OpenSSL compression functions and initial values are parameters, so everything here and in the
    classes built on it holds for whatever they compute. */
module Digest {
  import opened Bytes
  import opened Padding
  import Bits

  datatype Algorithm = Algorithm(variant: Variant, iv: seq<nat>, compress: (seq<nat>, seq<byte>) -> seq<nat>) {
    /** The context keeps its number of words. */
    ghost predicate Valid() {
      && Known(variant)
      && |iv| == variant.words
      && forall c, b :: |c| == variant.words ==> |compress(c, b)| == variant.words
    }
  }

  /** The chaining value after all complete blocks of `data`; an incomplete last block is left out. */
  function Fold(alg: Algorithm, c: seq<nat>, data: seq<byte>): seq<nat>
    requires Known(alg.variant)
    decreases |data|
  {
    var n := alg.variant.blockSize;
    if |data| < n then c
    else Fold(alg, alg.compress(c, data[..n]), data[n..])
  }

  function StoreWord(v: Variant, w: nat): (b: seq<byte>)
    ensures |b| == v.wordSize
  {
    if v.bigEndian then BigEndian(w, v.wordSize) else LittleEndian(w, v.wordSize)
  }

  /** The digest: the state words one after another. */
  function Serialize(v: Variant, words: seq<nat>): seq<byte> {
    if words == [] then [] else Serialize(v, words[..|words| - 1]) + StoreWord(v, words[|words| - 1])
  }

  lemma {:induction false} SerializeLength(v: Variant, words: seq<nat>)
    ensures |Serialize(v, words)| == v.wordSize * |words|
  {
    if words != [] {
      SerializeLength(v, words[..|words| - 1]);
      assert |Serialize(v, words)| == |Serialize(v, words[..|words| - 1])| + v.wordSize;
      hide Serialize;
      MulStep(v.wordSize, |words| - 1, |words|);
    }
  }

  function Hash(alg: Algorithm, m: seq<byte>): seq<byte>
    requires Known(alg.variant)
  {
    Serialize(alg.variant, Fold(alg, alg.iv, Padded(alg.variant, m)))
  }

  /** `d` is the hash of `m` with the padding the standard prescribes. */
  ghost predicate IsStandardHash(alg: Algorithm, m: seq<byte>, d: seq<byte>)
    requires Known(alg.variant)
  {
    exists p: seq<byte> ::
      && IsStandardSuffix(alg.variant, |m|, p)
      && d == Serialize(alg.variant, Fold(alg, alg.iv, m + p))
  }

  /** On every message the standards define (bit length below 2^64; for RIPEMD-160 any length), and for
      SHA-512 on every message below 2^61 bytes, the code's hash is the standard's, and only that. */
  lemma HashIsStandard(alg: Algorithm, m: seq<byte>, d: seq<byte>)
    requires Known(alg.variant)
    requires alg.variant.bigEndian ==> |m| < 0x2000_0000_0000_0000
    ensures IsStandardHash(alg, m, d) <==> d == Hash(alg, m)
  {
    Pow256Facts();
    SuffixIsStandard(alg.variant, |m|);
    if IsStandardHash(alg, m, d) {
      var p :| IsStandardSuffix(alg.variant, |m|, p) && d == Serialize(alg.variant, Fold(alg, alg.iv, m + p));
      StandardSuffixUnique(alg.variant, |m|, p, Suffix(alg.variant, |m|));
    }
  }

  lemma {:induction false} FoldAppend(alg: Algorithm, c: seq<nat>, a: seq<byte>, b: seq<byte>)
    requires Known(alg.variant) && |a| % alg.variant.blockSize == 0
    ensures Fold(alg, c, a + b) == Fold(alg, Fold(alg, c, a), b)
    decreases |a|
  {
    var n := alg.variant.blockSize;
    if |a| < n {
      assert a + b == b;
    } else {
      assert (a + b)[..n] == a[..n] && (a + b)[n..] == a[n..] + b;
      FoldAppend(alg, alg.compress(c, a[..n]), a[n..], b);
    }
  }

  lemma FoldOne(alg: Algorithm, c: seq<nat>, data: seq<byte>)
    requires Known(alg.variant) && |data| <= alg.variant.blockSize
    ensures Fold(alg, c, data) == if |data| < alg.variant.blockSize then c else alg.compress(c, data)
  {
    if |data| == alg.variant.blockSize {
      assert data[..|data|] == data && data[|data|..] == [];
    }
  }

  /** Bytes that do not complete a block leave the chaining value; bytes that complete it compress it once. */
  lemma FoldGrow(alg: Algorithm, m: seq<byte>, extra: seq<byte>)
    requires Known(alg.variant)
    requires |m| % alg.variant.blockSize + |extra| <= alg.variant.blockSize
    ensures var n := alg.variant.blockSize;
            var tail := m[|m| - |m| % n..];
            Fold(alg, alg.iv, m + extra) ==
              if |tail| + |extra| < n then Fold(alg, alg.iv, m)
              else alg.compress(Fold(alg, alg.iv, m), tail + extra)
  {
    var n := alg.variant.blockSize;
    var base, tail := m[..|m| - |m| % n], m[|m| - |m| % n..];
    WholeBlocks(alg.variant, |m|);
    var c := Fold(alg, alg.iv, base);
    FoldAppend(alg, alg.iv, base, tail);
    FoldAppend(alg, alg.iv, base, tail + extra);
    FoldOne(alg, c, tail);
    FoldOne(alg, c, tail + extra);
    hide Fold;
    assert m == base + tail && m + extra == base + (tail + extra);
  }

  lemma WholeBlocks(v: Variant, n: nat)
    requires v.blockSize > 0
    ensures (n - n % v.blockSize) % v.blockSize == 0
  {
    var b := v.blockSize;
    assert n - n % b == b * (n / b) + 0;
    Bits.Residue(b, n / b, 0);
  }

  lemma {:induction false} FoldLength(alg: Algorithm, c: seq<nat>, data: seq<byte>)
    requires alg.Valid() && |c| == alg.variant.words
    ensures |Fold(alg, c, data)| == alg.variant.words
    decreases |data|
  {
    var n := alg.variant.blockSize;
    if |data| >= n {
      FoldLength(alg, alg.compress(c, data[..n]), data[n..]);
    }
  }

  lemma MulStep(a: nat, i: nat, n: nat)
    requires i < n
    ensures a * (i + 1) == a * i + a <= a * n
  {}

  /** The digest begins with the words before i, then word i. */
  lemma {:induction false} SerializePrefix(v: Variant, words: seq<nat>, i: nat)
    requires i < |words|
    ensures Serialize(v, words[..i]) + StoreWord(v, words[i]) <= Serialize(v, words)
  {
    var front := words[..|words| - 1];
    assert Serialize(v, words) == Serialize(v, front) + StoreWord(v, words[|front|]);
    if i < |front| {
      SerializePrefix(v, front, i);
      hide Serialize, StoreWord;
      assert front[..i] == words[..i];
      PrefixGrows(Serialize(v, words[..i]) + StoreWord(v, words[i]), Serialize(v, front), StoreWord(v, words[|front|]));
    }
  }

  lemma PrefixGrows(a: seq<byte>, b: seq<byte>, c: seq<byte>)
    requires a <= b
    ensures a <= b + c
  {}

  /** Every byte of the digest is the byte of the word it belongs to. */
  lemma SerializeAt(v: Variant, words: seq<nat>, i: nat)
    requires i < |words|
    ensures v.wordSize * i + v.wordSize <= |Serialize(v, words)|
    ensures Serialize(v, words)[v.wordSize * i..v.wordSize * i + v.wordSize] == StoreWord(v, words[i])
  {
    SerializePrefix(v, words, i);
    SerializeLength(v, words[..i]);
    MulStep(v.wordSize, i, |words|);
    SerializeLength(v, words);
    hide *;
    SliceOfPrefix(Serialize(v, words), Serialize(v, words[..i]), StoreWord(v, words[i]), v.wordSize * i, v.wordSize);
  }

  lemma SliceOfPrefix(s: seq<byte>, a: seq<byte>, b: seq<byte>, at: nat, n: nat)
    requires a + b <= s && at == |a| && n == |b|
    ensures at + n <= |s| && s[at..at + n] == b
  {
    assert s[..|a| + |b|] == a + b;
  }

  /** Byte i of a stored word: the most significant first, or the least for RIPEMD-160. */
  lemma StoredByte(v: Variant, w: nat, i: nat)
    requires i < v.wordSize
    ensures StoreWord(v, w)[i] == w / Pow256(if v.bigEndian then v.wordSize - 1 - i else i) % 256
  {
    if v.bigEndian {
      BigEndianAt(w, v.wordSize, i);
    } else {
      LittleEndianAt(w, v.wordSize, i);
    }
  }

  /** The digests are of 160, 256, 512 and 160 bits. */
  lemma DigestLength(alg: Algorithm, m: seq<byte>)
    requires alg.Valid()
    ensures |Hash(alg, m)| == if alg.variant == SHA512 then 64 else if alg.variant == SHA256 then 32 else 20
  {
    var words := Fold(alg, alg.iv, Padded(alg.variant, m));
    FoldLength(alg, alg.iv, Padded(alg.variant, m));
    SerializeLength(alg.variant, words);
    hide Fold, Padded, Serialize;
  }
}
