/** Hexadecimal text: encode, the unrolled decode, and reverse_hex.

    Text is a sequence of characters; the tables map every character that is not a hex digit to 0xff. On
    bytes `b >> 4` is b / 16 and `b & 0x0f` is b % 16. */
module Hex {
  import opened Bytes
  import opened Bits

  datatype Decoded = Ok(bytes: seq<byte>) | InvalidHexDigit

  // ---- the two tables ----

  /** kUnhexTable. */
  function Unhex(c: char): byte {
    match c
    case '0' => 0x00 case '1' => 0x01 case '2' => 0x02 case '3' => 0x03 case '4' => 0x04
    case '5' => 0x05 case '6' => 0x06 case '7' => 0x07 case '8' => 0x08 case '9' => 0x09
    case 'A' => 0x0a case 'B' => 0x0b case 'C' => 0x0c case 'D' => 0x0d case 'E' => 0x0e case 'F' => 0x0f
    case 'a' => 0x0a case 'b' => 0x0b case 'c' => 0x0c case 'd' => 0x0d case 'e' => 0x0e case 'f' => 0x0f
    case _ => 0xff
  }

  /** kUnhexTable4: the digit as an upper nibble. */
  function Unhex4(c: char): byte {
    match c
    case '0' => 0x00 case '1' => 0x10 case '2' => 0x20 case '3' => 0x30 case '4' => 0x40
    case '5' => 0x50 case '6' => 0x60 case '7' => 0x70 case '8' => 0x80 case '9' => 0x90
    case 'A' => 0xa0 case 'B' => 0xb0 case 'C' => 0xc0 case 'D' => 0xd0 case 'E' => 0xe0 case 'F' => 0xf0
    case 'a' => 0xa0 case 'b' => 0xb0 case 'c' => 0xc0 case 'd' => 0xd0 case 'e' => 0xe0 case 'f' => 0xf0
    case _ => 0xff
  }

  const HEX_DIGITS := "0123456789abcdef"

  predicate IsHex(c: char) {
    '0' <= c <= '9' || 'a' <= c <= 'f' || 'A' <= c <= 'F'
  }

  /** What a hex digit stands for. */
  function Digit(c: char): (n: nat)
    ensures n < 16
  {
    if '0' <= c <= '9' then c as int - '0' as int
    else if 'a' <= c <= 'f' then 10 + c as int - 'a' as int
    else if 'A' <= c <= 'F' then 10 + c as int - 'A' as int
    else 0
  }

  lemma TablesGiveDigits(c: char)
    ensures IsHex(c) ==> Unhex(c) == Digit(c) && Unhex4(c) == 16 * Digit(c)
    ensures !IsHex(c) ==> Unhex(c) == 0xff && Unhex4(c) == 0xff
  {}

  /** The sixteen digits, in either case. */
  lemma DigitsMean(n: nat)
    requires n < 16
    ensures IsHex("0123456789abcdef"[n]) && Digit("0123456789abcdef"[n]) == n
    ensures IsHex("0123456789ABCDEF"[n]) && Digit("0123456789ABCDEF"[n]) == n
  {}

  lemma DigitsDecode(n: nat)
    requires n < 16
    ensures IsHex(HEX_DIGITS[n]) && Digit(HEX_DIGITS[n]) == n
  {}

  function Or(x: byte, y: byte): byte {
    OrBelow(x, y, 8);
    assert Pow2(8) == 256;
    BitOr(x, y)
  }

  /** The test on the or of four table entries: it is 0xff exactly when one of them is. */
  lemma OrOfFour(b: char, d: char, f: char, h: char)
    ensures Or(Or(Or(Unhex(b), Unhex(d)), Unhex(f)), Unhex(h)) == 0xff <==> !(IsHex(b) && IsHex(d) && IsHex(f) && IsHex(h))
    ensures Or(Or(Or(Unhex4(b), Unhex4(d)), Unhex4(f)), Unhex4(h)) == 0xff <==> !(IsHex(b) && IsHex(d) && IsHex(f) && IsHex(h))
  {
    TablesGiveDigits(b);
    TablesGiveDigits(d);
    TablesGiveDigits(f);
    TablesGiveDigits(h);
    hide Unhex, Unhex4, IsHex, Digit, Or;
    OrOfTwo(Unhex(b), Unhex(d));
    OrOfTwo(Or(Unhex(b), Unhex(d)), Unhex(f));
    OrOfTwo(Or(Or(Unhex(b), Unhex(d)), Unhex(f)), Unhex(h));
    OrOfTwo(Unhex4(b), Unhex4(d));
    OrOfTwo(Or(Unhex4(b), Unhex4(d)), Unhex4(f));
    OrOfTwo(Or(Or(Unhex4(b), Unhex4(d)), Unhex4(f)), Unhex4(h));
  }

  /** Lower nibbles or to a lower nibble, upper nibbles to an upper one, and 0xff absorbs everything. */
  lemma OrOfTwo(x: byte, y: byte)
    ensures x < 16 && y < 16 ==> Or(x, y) < 16
    ensures x % 16 == 0 && y % 16 == 0 ==> Or(x, y) % 16 == 0
    ensures x == 0xff || y == 0xff ==> Or(x, y) == 0xff
  {
    assert Pow2(4) == 16 && Pow2(8) == 256 by { assert Pow2(2) == 4; assert Pow2(6) == 64; }
    hide BitOr, Pow2;
    if x < 16 && y < 16 { OrBelow(x, y, 4); }
    if x % 16 == 0 && y % 16 == 0 { OrMultiple16(x, y); }
    if x == 0xff || y == 0xff { OrOnes(x, y, 8); }
  }

  // ---- what decoding means ----

  predicate HasPrefix(s: string) {
    |s| >= 2 && s[0] == '0' && (s[1] == 'x' || s[1] == 'X')
  }

  predicate AllHex(s: string) {
    forall i | 0 <= i < |s| :: IsHex(s[i])
  }

  function ByteOf(hi: char, lo: char): byte {
    16 * Digit(hi) + Digit(lo)
  }

  /** Two digits a byte. */
  function Pairs(s: string): (b: seq<byte>)
    requires |s| % 2 == 0
    ensures |b| == |s| / 2
  {
    seq(|s| / 2, i requires 0 <= i < |s| / 2 => ByteOf(s[2 * i], s[2 * i + 1]))
  }

  /** "[0x]1" is legitimate and means "[0x]01". */
  function Even(s: string): (t: string)
    ensures |t| % 2 == 0
  {
    if |s| % 2 == 1 then ['0'] + s else s
  }

  function Body(s: string): string {
    if HasPrefix(s) then s[2..] else s
  }

  function DecodeOf(source: string): Decoded {
    var s := Body(source);
    if AllHex(s) then Ok(Pairs(Even(s))) else InvalidHexDigit
  }

  /** A prefix is "0x" or "0X", and is not looked at further. */
  lemma PrefixMeans(s: string)
    ensures HasPrefix(s) <==> "0x" <= s || "0X" <= s
    ensures HasPrefix(s) ==> DecodeOf(s) == if AllHex(s[2..]) then Ok(Pairs(Even(s[2..]))) else InvalidHexDigit
  {
    hide AllHex, Pairs, Even;
  }

  /** An odd text is read with a zero in front. */
  lemma OddText(s: string)
    requires |s| % 2 == 1 && !HasPrefix(s) && !HasPrefix("0" + s)
    ensures DecodeOf(s) == DecodeOf("0" + s)
  {
    assert IsHex('0');
    assert forall i | 0 <= i < |s| :: ("0" + s)[i + 1] == s[i];
    OddAllHex(s);
    hide Pairs, AllHex, IsHex;
    assert Even(s) == "0" + s && Even("0" + s) == "0" + s;
  }

  lemma OddAllHex(s: string)
    ensures AllHex("0" + s) <==> AllHex(s)
  {
    assert IsHex('0');
    hide IsHex;
    var t := "0" + s;
    assert t[0] == '0' && forall i | 0 <= i < |s| :: t[i + 1] == s[i];
    if AllHex(t) {
      forall i | 0 <= i < |s| ensures IsHex(s[i]) { assert IsHex(t[i + 1]); }
    }
    if AllHex(s) {
      forall i | 0 <= i < |t| ensures IsHex(t[i]) { assert i > 0 ==> t[i] == s[i - 1]; }
    }
  }

  /** Byte i of an even text of digits is said by its own two characters, the first the upper nibble. */
  lemma DecodedAt(s: string, i: nat)
    requires |s| % 2 == 0 && !HasPrefix(s) && AllHex(s) && i < |s| / 2
    ensures DecodeOf(s).Ok? && |DecodeOf(s).bytes| == |s| / 2
    ensures DecodeOf(s).bytes[i] == 16 * Digit(s[2 * i]) + Digit(s[2 * i + 1])
  {
    hide AllHex, Digit, HasPrefix;
  }

  lemma TableByte(hi: char, lo: char)
    requires IsHex(hi) && IsHex(lo)
    ensures Or(Unhex4(hi), Unhex(lo)) == ByteOf(hi, lo)
  {
    TablesGiveDigits(hi);
    TablesGiveDigits(lo);
    hide Unhex, Unhex4, IsHex, Digit, BitOr;
    OrNibbles(Digit(hi), Digit(lo));
  }

  /** The first `dst` output bytes are decoded from the first `src` characters, all of them digits. */
  ghost predicate Progress(s: string, out: seq<byte>, src: nat, dst: nat) {
    && src <= |s| && src + |s| % 2 == 2 * dst && |out| * 2 == |Even(s)|
    && (forall i | 0 <= i < src :: IsHex(s[i]))
    && forall i | 0 <= i < dst :: out[i] == ByteOf(Even(s)[2 * i], Even(s)[2 * i + 1])
  }

  /** One digit pair. */
  lemma PairStep(s: string, out: seq<byte>, src: nat, dst: nat)
    requires Progress(s, out, src, dst) && src + 2 <= |s| && IsHex(s[src]) && IsHex(s[src + 1])
    ensures dst < |out|
    ensures Progress(s, out[dst := Or(Unhex4(s[src]), Unhex(s[src + 1]))], src + 2, dst + 1)
  {
    TableByte(s[src], s[src + 1]);
    EvenAt(s, src);
    EvenAt(s, src + 1);
    hide Unhex, Unhex4, IsHex, Or, ByteOf, Even;
    assert Even(s)[2 * dst] == s[src] && Even(s)[2 * dst + 1] == s[src + 1];
    OnePair(s, out, src, dst, Or(Unhex4(s[src]), Unhex(s[src + 1])));
  }

  lemma OnePair(s: string, out: seq<byte>, src: nat, dst: nat, b: byte)
    requires Progress(s, out, src, dst) && src + 2 <= |s| && IsHex(s[src]) && IsHex(s[src + 1])
    requires dst < |out| && 2 * dst + 1 < |Even(s)| && b == ByteOf(Even(s)[2 * dst], Even(s)[2 * dst + 1])
    ensures Progress(s, out[dst := b], src + 2, dst + 1)
  {
    hide IsHex, ByteOf, Even;
  }

  lemma EvenAt(s: string, i: nat)
    requires i < |s|
    ensures |Even(s)| == |s| + |s| % 2 && Even(s)[i + |s| % 2] == s[i]
  {}

  /** The single leading digit of an odd text. */
  lemma OddStep(s: string, out: seq<byte>)
    requires |s| % 2 == 1 && |out| * 2 == |Even(s)| && IsHex(s[0])
    ensures Progress(s, out[0 := Unhex(s[0])], 1, 1)
  {
    TablesGiveDigits(s[0]);
    hide Unhex, IsHex;
    assert Even(s)[0] == '0' && Even(s)[1] == s[0];
  }

  lemma NotAllHex(s: string, i: nat)
    requires i < |s| && !IsHex(s[i])
    ensures !AllHex(s)
  {}

  lemma Finished(s: string, out: seq<byte>, dst: nat)
    requires Progress(s, out, |s|, dst)
    ensures AllHex(s) && out == Pairs(Even(s))
  {
    hide IsHex, ByteOf;
  }

  /** Four output bytes: what the unrolled loop body does. Both or-tests together say whether all eight
      characters are digits. */
  method DecodeFour(s: string, out: array<byte>, src: nat, dst: nat) returns (ok: bool)
    requires Progress(s, out[..], src, dst) && src + 8 <= |s|
    modifies out
    ensures ok ==> Progress(s, out[..], src + 8, dst + 4)
    ensures !ok ==> !AllHex(s)
  {
    hide Unhex, Unhex4, IsHex, Or, AllHex, Progress;
    var a, b, c, d := Unhex4(s[src]), Unhex(s[src + 1]), Unhex4(s[src + 2]), Unhex(s[src + 3]);
    var e, f, g, h := Unhex4(s[src + 4]), Unhex(s[src + 5]), Unhex4(s[src + 6]), Unhex(s[src + 7]);
    OrOfFour(s[src + 1], s[src + 3], s[src + 5], s[src + 7]);
    OrOfFour(s[src], s[src + 2], s[src + 4], s[src + 6]);
    if Or(Or(Or(b, d), f), h) == 0xff || Or(Or(Or(a, c), e), g) == 0xff {
      var i :| src <= i < src + 8 && !IsHex(s[i]);
      NotAllHex(s, i);
      return false;
    }
    PairStep(s, out[..], src, dst);
    out[dst] := Or(a, b);
    PairStep(s, out[..], src + 2, dst + 1);
    out[dst + 1] := Or(c, d);
    PairStep(s, out[..], src + 4, dst + 2);
    out[dst + 2] := Or(e, f);
    PairStep(s, out[..], src + 6, dst + 3);
    out[dst + 3] := Or(g, h);
    return true;
  }

  /** The unrolled decoder is the plain one: it fails exactly when some character after the optional prefix is
      no hex digit, and otherwise pairs the digits up. */
  method Decode(source0: string) returns (r: Decoded)
    ensures r == DecodeOf(source0)
  {
    hide Unhex, Unhex4, IsHex, Or, AllHex, Pairs;
    var source := source0;
    if HasPrefix(source) {
      source := source[2..];
    }
    if |source| == 0 {
      DecodesEmpty(source);
      return Ok([]);
    }
    var pos := |source| % 2;
    var out := new byte[(|source| + pos) / 2](_ => 0);
    var src, dst := 0, 0;
    if pos != 0 {
      var b := Unhex(source[src]);
      TablesGiveDigits(source[src]);
      if b == 0xff {
        NotAllHex(source, 0);
        return InvalidHexDigit;
      }
      OddStep(source, out[..]);
      src := src + 1;
      out[dst] := b;
      dst := dst + 1;
    }
    var ok := DecodeRest(source, out, src, dst);
    if !ok {
      return InvalidHexDigit;
    }
    return Ok(out[..]);
  }

  /** The unrolled loop, then the plain one for what is left. */
  method DecodeRest(source: string, out: array<byte>, src0: nat, dst0: nat) returns (ok: bool)
    requires Progress(source, out[..], src0, dst0)
    modifies out
    ensures if ok then AllHex(source) && out[..] == Pairs(Even(source)) else !AllHex(source)
  {
    var src, dst := src0, dst0;
    assert src <= |source| && src + |source| % 2 == 2 * dst;
    hide Unhex, Unhex4, IsHex, Or, AllHex, Pairs, Even, Progress;
    while |source| - src >= 8
      invariant src <= |source| && src + |source| % 2 == 2 * dst && Progress(source, out[..], src, dst)
    {
      ok := DecodeFour(source, out, src, dst);
      if !ok {
        return;
      }
      src, dst := src + 8, dst + 4;
    }
    while src < |source|
      invariant src <= |source| && src + |source| % 2 == 2 * dst && Progress(source, out[..], src, dst)
    {
      var a, b := Unhex4(source[src]), Unhex(source[src + 1]);
      TablesGiveDigits(source[src]);
      TablesGiveDigits(source[src + 1]);
      if a == 0xff || b == 0xff {
        NotAllHex(source, if a == 0xff then src else src + 1);
        return false;
      }
      PairStep(source, out[..], src, dst);
      out[dst] := Or(a, b);
      src, dst := src + 2, dst + 1;
    }
    Finished(source, out[..], dst);
    return true;
  }

  lemma DecodesEmpty(s: string)
    requires s == []
    ensures AllHex(s) && Pairs(Even(s)) == []
  {}

  // ---- encode ----

  /** Two characters a byte, upper nibble first. */
  function EncodeDigits(bytes: seq<byte>): (s: string)
    ensures |s| == 2 * |bytes|
  {
    seq(2 * |bytes|, i requires 0 <= i < 2 * |bytes| =>
      if i % 2 == 0 then HEX_DIGITS[bytes[i / 2] / 16] else HEX_DIGITS[bytes[i / 2] % 16])
  }

  function EncodeOf(bytes: seq<byte>, withPrefix: bool): string {
    (if withPrefix then "0x" else "") + EncodeDigits(bytes)
  }

  /** The result is pinned twice: as EncodeOf, for DecodeEncode, and here by its length, its prefix or none, and
      the two lower-case digits of every byte at that byte's own place. */
  method Encode(bytes: seq<byte>, withPrefix: bool) returns (out: string)
    ensures out == EncodeOf(bytes, withPrefix)
    ensures |out| == 2 * |bytes| + if withPrefix then 2 else 0
    ensures if withPrefix then out[..2] == "0x" else !HasPrefix(out)
    ensures forall i | 0 <= i < |bytes| :: EncodedAt(out, 2 * i + if withPrefix then 2 else 0, bytes[i])
  {
    var start := if withPrefix then 2 else 0;
    var text := new char[|bytes| * 2 + start](_ => '\0');
    var dest := 0;
    if withPrefix {
      text[0], text[1] := '0', 'x';
      dest := 2;
    }
    var i := 0;
    while i < |bytes|
      invariant 0 <= i <= |bytes| && dest == start + 2 * i
      invariant text[..start] == if withPrefix then "0x" else ""
      invariant forall j | 0 <= j < 2 * i :: text[start + j] == EncodeDigits(bytes)[j]
    {
      text[dest] := HEX_DIGITS[bytes[i] / 16];
      text[dest + 1] := HEX_DIGITS[bytes[i] % 16];
      dest := dest + 2;
      i := i + 1;
    }
    out := text[..];
    assert out[start..] == EncodeDigits(bytes);
    EncodedPlaces(bytes, withPrefix, out);
  }

  /** The two characters from `at` on are lower-case digits, upper nibble first, that say b. */
  predicate EncodedAt(s: string, at: nat, b: byte) {
    && at + 2 <= |s| && LowerDigit(s[at]) && LowerDigit(s[at + 1])
    && b == 16 * LowerValue(s[at]) + LowerValue(s[at + 1])
  }

  predicate LowerDigit(c: char) {
    '0' <= c <= '9' || 'a' <= c <= 'f'
  }

  function LowerValue(c: char): nat
    requires LowerDigit(c)
  {
    if c <= '9' then c as int - '0' as int else c as int - 'a' as int + 10
  }

  lemma EncodedPlaces(bytes: seq<byte>, withPrefix: bool, out: string)
    requires out == EncodeOf(bytes, withPrefix)
    ensures |out| == 2 * |bytes| + if withPrefix then 2 else 0
    ensures if withPrefix then out[..2] == "0x" else !HasPrefix(out)
    ensures forall i | 0 <= i < |bytes| :: EncodedAt(out, 2 * i + if withPrefix then 2 else 0, bytes[i])
  {
    var digits := EncodeDigits(bytes);
    var p := if withPrefix then "0x" else "";
    assert out == p + digits && |p| == if withPrefix then 2 else 0;
    hide *;
    if withPrefix {
      assert ("0x" + digits)[..2] == "0x";
    }
    forall i | 0 <= i < |bytes|
      ensures EncodedAt(p + digits, 2 * i + |p|, bytes[i])
    {
      EncodedPlace(bytes, i);
      EncodedBehind(p, digits, 2 * i, bytes[i]);
    }
    if !withPrefix && bytes != [] {
      assert EncodedAt(out, 0, bytes[0]);
      NoPrefix(out, bytes[0]);
    } else if !withPrefix {
      NoPrefix(out, 0);
    }
  }

  lemma EncodedBehind(p: string, digits: string, at: nat, b: byte)
    requires EncodedAt(digits, at, b)
    ensures EncodedAt(p + digits, at + |p|, b)
  {
    hide LowerDigit, LowerValue;
    assert (p + digits)[at + |p|] == digits[at] && (p + digits)[at + |p| + 1] == digits[at + 1];
  }

  lemma NoPrefix(out: string, b: byte)
    requires out == "" || EncodedAt(out, 0, b)
    ensures !HasPrefix(out)
  {}

  lemma EncodedPlace(bytes: seq<byte>, i: nat)
    requires i < |bytes|
    ensures EncodedAt(EncodeDigits(bytes), 2 * i, bytes[i])
  {
    LowerDigits(bytes[i] / 16);
    LowerDigits(bytes[i] % 16);
    var digits := EncodeDigits(bytes);
    assert digits[2 * i] == HEX_DIGITS[bytes[i] / 16] && digits[2 * i + 1] == HEX_DIGITS[bytes[i] % 16];
    hide LowerDigit, LowerValue, EncodeDigits;
  }

  lemma LowerDigits(n: nat)
    requires n < 16
    ensures LowerDigit(HEX_DIGITS[n]) && LowerValue(HEX_DIGITS[n]) == n
  {}

  /** Section 8 of RFC 4648 read back: with or without prefix, decoding undoes encoding. */
  lemma DecodeEncode(bytes: seq<byte>, withPrefix: bool)
    ensures DecodeOf(EncodeOf(bytes, withPrefix)) == Ok(bytes)
  {
    var digits := EncodeDigits(bytes);
    EncodedDigits(bytes);
    hide EncodeDigits, Pairs;
    if withPrefix {
      assert ("0x" + digits)[2..] == digits;
    } else {
      assert "" + digits == digits;
    }
  }

  lemma EncodedDigits(bytes: seq<byte>)
    ensures AllHex(EncodeDigits(bytes)) && Pairs(EncodeDigits(bytes)) == bytes
  {
    var digits := EncodeDigits(bytes);
    hide IsHex, EncodeDigits, ByteOf;
    forall i | 0 <= i < |bytes|
      ensures IsHex(digits[2 * i]) && IsHex(digits[2 * i + 1]) && ByteOf(digits[2 * i], digits[2 * i + 1]) == bytes[i]
    {
      DigitsOfByte(digits, bytes, i);
    }
    PairwiseDigits(digits, bytes);
  }

  lemma PairwiseDigits(digits: string, bytes: seq<byte>)
    requires |digits| == 2 * |bytes|
    requires forall i | 0 <= i < |bytes| ::
               IsHex(digits[2 * i]) && IsHex(digits[2 * i + 1]) && ByteOf(digits[2 * i], digits[2 * i + 1]) == bytes[i]
    ensures AllHex(digits) && Pairs(digits) == bytes
  {
    hide IsHex, ByteOf;
    forall i | 0 <= i < |digits|
      ensures IsHex(digits[i])
    {
      var k := i / 2;
      assert i == 2 * k || i == 2 * k + 1;
    }
  }

  lemma DigitsOfByte(digits: string, bytes: seq<byte>, i: nat)
    requires digits == EncodeDigits(bytes) && i < |bytes|
    ensures IsHex(digits[2 * i]) && IsHex(digits[2 * i + 1]) && ByteOf(digits[2 * i], digits[2 * i + 1]) == bytes[i]
  {
    DigitsDecode(bytes[i] / 16);
    DigitsDecode(bytes[i] % 16);
    hide Digit, IsHex;
    assert digits[2 * i] == HEX_DIGITS[bytes[i] / 16];
    assert digits[2 * i + 1] == HEX_DIGITS[bytes[i] % 16];
  }

  // ---- reverse_hex ----

  function ReversePairs(s: string): string {
    if |s| >= 2 then s[|s| - 2..] + ReversePairs(s[..|s| - 2])
    else if |s| == 1 then ['0', s[0]]
    else []
  }

  function ReverseHexOf(s: string): string {
    (if HasPrefix(s) then "0x" else "") + ReversePairs(Body(s))
  }

  function Reversed(b: seq<byte>): seq<byte> {
    seq(|b|, i requires 0 <= i < |b| => b[|b| - 1 - i])
  }

  /** From `start` on the output is the body's pairs of characters from last to first; a lone first character
      comes last, behind a zero. */
  ghost predicate PairsBackwards(body: string, output: string, start: nat) {
    && |output| == start + |body| + |body| % 2
    && (forall i: nat | 2 * i + 2 <= |body| ::
          output[start + 2 * i] == body[|body| - 2 * i - 2] && output[start + 2 * i + 1] == body[|body| - 2 * i - 1])
    && (|body| % 2 == 1 ==> output[|output| - 2] == '0' && output[|output| - 1] == body[0])
  }

  /** The same behind the input's prefix, if it has one, which comes out as "0x". */
  ghost predicate Backwards(input: string, output: string) {
    if HasPrefix(input) then "0x" <= output && PairsBackwards(input[2..], output, 2)
    else PairsBackwards(input, output, 0)
  }

  method ReverseHex(input0: string) returns (output: string)
    ensures output == ReverseHexOf(input0)
    ensures Backwards(input0, output)
  {
    var input := input0;
    ReversedShape(input0);
    hide Backwards;
    if |input| == 0 {
      assert ReverseHexOf(input0) == "";
      return "";
    }
    output := "";
    if HasPrefix(input) {
      output := output + "0x";
      input := input[2..];
    }
    while |input| >= 2
      invariant output + ReversePairs(input) == ReverseHexOf(input0)
    {
      output := output + input[|input| - 2..];
      input := input[..|input| - 2];
    }
    if |input| != 0 {
      output := output + ['0'];
      output := output + [input[|input| - 1]];
    }
    assert output == ReverseHexOf(input0);
  }

  lemma {:induction false} ReversedLength(s: string)
    ensures |ReversePairs(s)| == |s| + |s| % 2
  {
    if |s| >= 2 {
      var front := s[..|s| - 2];
      ReversedLength(front);
      PairInFront(s);
      hide *;
      SameParity(|front|, |s|);
    }
  }

  lemma {:induction false} NoShorter(s: string)
    ensures |ReversePairs(s)| >= |s|
  {
    if |s| >= 2 {
      PairInFront(s);
      NoShorter(s[..|s| - 2]);
    }
  }

  lemma SameParity(a: nat, b: nat)
    requires b == a + 2
    ensures a % 2 == b % 2
  {}

  lemma PairInFront(s: string)
    requires |s| >= 2
    ensures ReversePairs(s) == s[|s| - 2..] + ReversePairs(s[..|s| - 2])
  {}

  /** Pair i of the result is pair i from the end of the text. */
  lemma {:induction false} PairPlace(s: string, i: nat)
    requires 2 * i + 2 <= |s|
    ensures |ReversePairs(s)| >= |s|
    ensures ReversePairs(s)[2 * i] == s[|s| - 2 * i - 2] && ReversePairs(s)[2 * i + 1] == s[|s| - 2 * i - 1]
  {
    var front, two := s[..|s| - 2], s[|s| - 2..];
    var rest := ReversePairs(front);
    NoShorter(front);
    PairInFront(s);
    hide *;
    if i > 0 {
      PairPlace(front, i - 1);
      assert (two + rest)[2 * i] == rest[2 * (i - 1)] && (two + rest)[2 * i + 1] == rest[2 * (i - 1) + 1];
    }
  }

  /** The lone character of an odd text comes last, behind a zero. */
  lemma {:induction false} LonePlace(s: string)
    requires |s| % 2 == 1
    ensures |ReversePairs(s)| == |s| + 1
    ensures ReversePairs(s)[|s| - 1] == '0' && ReversePairs(s)[|s|] == s[0]
  {
    ReversedLength(s);
    if |s| >= 2 {
      var front, two := s[..|s| - 2], s[|s| - 2..];
      var rest := ReversePairs(front);
      PairInFront(s);
      SameParity(|front|, |s|);
      LonePlace(front);
      hide *;
      assert (two + rest)[|s| - 1] == rest[|front| - 1] && (two + rest)[|s|] == rest[|front|];
    }
  }

  lemma ReversedShape(s: string)
    ensures Backwards(s, ReverseHexOf(s))
  {
    var r := ReversePairs(Body(s));
    if HasPrefix(s) {
      assert ReverseHexOf(s) == "0x" + r && Body(s) == s[2..];
      ShapeBehind("0x", Body(s));
    } else {
      assert ReverseHexOf(s) == "" + r && Body(s) == s;
      ShapeBehind("", Body(s));
    }
    hide ReversePairs, ReverseHexOf, HasPrefix, Body, PairsBackwards;
  }

  lemma ShapeBehind(p: string, body: string)
    ensures PairsBackwards(body, p + ReversePairs(body), |p|)
  {
    hide ReversePairs;
    ReversedLength(body);
    var r := ReversePairs(body);
    forall i: nat | 2 * i + 2 <= |body|
      ensures (p + r)[|p| + 2 * i] == body[|body| - 2 * i - 2] && (p + r)[|p| + 2 * i + 1] == body[|body| - 2 * i - 1]
    {
      PairPlace(body, i);
    }
    if |body| % 2 == 1 {
      LonePlace(body);
    }
  }

  lemma PairsEnds(t: string, two: string)
    requires |t| % 2 == 0 && |two| == 2
    ensures Pairs(t + two) == Pairs(t) + [ByteOf(two[0], two[1])]
    ensures Pairs(two + t) == [ByteOf(two[0], two[1])] + Pairs(t)
  {
    hide ByteOf;
    forall i | 0 <= i < |t| / 2
      ensures (t + two)[2 * i] == t[2 * i] && (t + two)[2 * i + 1] == t[2 * i + 1]
      ensures (two + t)[2 * (i + 1)] == t[2 * i] && (two + t)[2 * (i + 1) + 1] == t[2 * i + 1]
    {}
  }

  lemma ReversedEnd(p: seq<byte>, b: byte)
    ensures Reversed(p + [b]) == [b] + Reversed(p)
  {}

  lemma EvenFront(s: string)
    requires |s| >= 2
    ensures Even(s) == Even(s[..|s| - 2]) + s[|s| - 2..]
  {}

  lemma AllHexAppend(a: string, b: string)
    ensures AllHex(a + b) <==> AllHex(a) && AllHex(b)
  {
    hide IsHex;
    if AllHex(a + b) {
      forall i | 0 <= i < |a| ensures IsHex(a[i]) { assert (a + b)[i] == a[i]; }
      forall i | 0 <= i < |b| ensures IsHex(b[i]) { assert (a + b)[|a| + i] == b[i]; }
    }
  }

  lemma {:induction false} ReversePairsDecode(s: string)
    ensures |ReversePairs(s)| % 2 == 0
    ensures AllHex(ReversePairs(s)) <==> AllHex(s)
    ensures Pairs(ReversePairs(s)) == Reversed(Pairs(Even(s)))
  {
    hide AllHex, Pairs, Reversed, Even, IsHex, ByteOf;
    if |s| >= 2 {
      var front, two := s[..|s| - 2], s[|s| - 2..];
      ReversePairsDecode(front);
      assert s == front + two;
      AllHexAppend(front, two);
      AllHexAppend(two, ReversePairs(front));
      EvenFront(s);
      PairsEnds(Even(front), two);
      PairsEnds(ReversePairs(front), two);
      ReversedEnd(Pairs(Even(front)), ByteOf(two[0], two[1]));
    } else {
      ShortReverse(s);
    }
  }

  lemma ShortReverse(s: string)
    requires |s| < 2
    ensures ReversePairs(s) == Even(s)
    ensures AllHex(Even(s)) <==> AllHex(s)
    ensures Pairs(Even(s)) == Reversed(Pairs(Even(s)))
  {
    if s == [] {
      NoDigit(s);
    } else {
      LoneDigit(s);
    }
    hide ReversePairs, AllHex, Pairs, Reversed, Even;
    ReversedShort(Pairs(Even(s)));
  }

  lemma NoDigit(s: string)
    requires s == []
    ensures ReversePairs(s) == Even(s) == s
  {
    hide IsHex;
  }

  lemma LoneDigit(s: string)
    requires |s| == 1
    ensures |Even(s)| == 2 && ReversePairs(s) == Even(s)
    ensures AllHex(Even(s)) <==> AllHex(s)
  {
    var t := Even(s);
    assert t == ['0', s[0]] && t[0] == '0' && t[1] == s[0] && |t| == 2;
    assert IsHex('0');
    hide IsHex, Even;
  }

  lemma ReversedShort(p: seq<byte>)
    requires |p| < 2
    ensures Reversed(p) == p
  {}

  /** The text would come out of reverse_hex with a prefix it did not have. */
  predicate EndsLikePrefix(s: string) {
    || (|s| >= 2 && s[|s| - 2] == '0' && (s[|s| - 1] == 'x' || s[|s| - 1] == 'X'))
    || s == "x" || s == "X"
  }

  lemma PrefixOfReversed(s: string)
    ensures HasPrefix(ReversePairs(s)) <==> EndsLikePrefix(s)
  {}

  /** Every valid text, odd lengths and prefixes included, decodes after reverse_hex to its bytes reversed. An
      invalid text stays invalid, except one without prefix whose tail reads "0x" or that is a lone "x". */
  lemma ReverseHexReverses(s: string)
    ensures DecodeOf(s).Ok? ==> DecodeOf(ReverseHexOf(s)) == Ok(Reversed(DecodeOf(s).bytes))
    ensures DecodeOf(s) == InvalidHexDigit ==>
              (DecodeOf(ReverseHexOf(s)).Ok? <==>
                 !HasPrefix(s) && EndsLikePrefix(s) && AllHex(s[..if |s| >= 2 then |s| - 2 else 0]))
  {
    var body := Body(s);
    var r := ReversePairs(body);
    ReversePairsDecode(body);
    assert Even(r) == r;
    PrefixOfReversed(s);
    PrefixedBody(r);
    if !HasPrefix(s) && EndsLikePrefix(s) {
      TailOfReversed(s);
    }
    hide AllHex, Pairs, Even, IsHex, Reversed, ReversePairs, EndsLikePrefix;
  }

  lemma PrefixedBody(r: string)
    ensures Body("0x" + r) == r && "" + r == r
    ensures HasPrefix(r) ==> !AllHex(r)
  {
    assert ("0x" + r)[2..] == r;
    if HasPrefix(r) {
      assert !IsHex(r[1]);
    }
  }

  lemma TailOfReversed(s: string)
    requires EndsLikePrefix(s) && !HasPrefix(s)
    ensures !AllHex(s)
    ensures AllHex(ReversePairs(s)[2..]) <==> AllHex(s[..if |s| >= 2 then |s| - 2 else 0])
  {
    assert !IsHex(s[|s| - 1]);
    PrefixOfReversed(s);
    if |s| >= 2 {
      assert ReversePairs(s)[2..] == ReversePairs(s[..|s| - 2]);
      ReversePairsDecode(s[..|s| - 2]);
    } else {
      assert ReversePairs(s)[2..] == [];
    }
  }

  /** So reverse_hex does not preserve invalidity. */
  lemma ReverseHexHidesError() returns (s: string)
    ensures s == "ab0x" && DecodeOf(s) == InvalidHexDigit && DecodeOf(ReverseHexOf(s)).Ok?
  {
    s := "ab0x";
    assert !IsHex(s[3]) && AllHex(s[..2]) && EndsLikePrefix(s);
    hide AllHex, IsHex, Pairs, Even, ReversePairs, Reversed;
    NotAllHex(s, 3);
    ReverseHexReverses(s);
  }
}
