/** DataStream, and the integer encodings written to and read from it.

    Integers are stored by memcpy on a little-endian host. Positions and counts are naturals: a buffer near the
    top of the 64-bit range, where `read_position_ + count` would wrap, is not part of this model. */
module Serialization {
  import opened Bytes

  const MAX_COMPACT_SIZE: nat := 0x0200_0000

  datatype Error = ReadBeyondData | NonCanonicalCompactSize | CompactSizeTooBig
  datatype Result<+T> = Ok(value: T) | Err(error: Error)

  class DataStream {
    var buffer: seq<byte>
    var readPosition: nat

    predicate Valid()
      reads this
    {
      readPosition <= |buffer|
    }

    /** What has been written and not yet consumed. */
    function Unread(): seq<byte>
      reads this
      requires Valid()
    {
      buffer[readPosition..]
    }

    constructor ()
      ensures Valid() && buffer == []
    {
      buffer, readPosition := [], 0;
    }

    method Write(data: seq<byte>)
      requires Valid()
      modifies this
      ensures Valid() && readPosition == old(readPosition) && buffer == old(buffer) + data
      ensures Unread() == old(Unread()) + data
    {
      buffer := buffer + data;
    }

    method PushBack(b: byte)
      requires Valid()
      modifies this
      ensures Valid() && readPosition == old(readPosition) && buffer == old(buffer) + [b]
      ensures Unread() == old(Unread()) + [b]
    {
      buffer := buffer + [b];
    }

    /** Fails without moving when fewer than `count` bytes are left. */
    method Read(count: nat) returns (r: Result<seq<byte>>)
      requires Valid()
      modifies `readPosition
      ensures Valid()
      ensures count <= |old(Unread())| ==> r == Ok(old(Unread())[..count]) && Unread() == old(Unread())[count..]
      ensures count > |old(Unread())| ==> r == Err(ReadBeyondData) && readPosition == old(readPosition)
    {
      var nextReadPosition := readPosition + count;
      if nextReadPosition > |buffer| {
        return Err(ReadBeyondData);
      }
      r := Ok(buffer[readPosition..nextReadPosition]);
      assert Unread()[..count] == buffer[readPosition..nextReadPosition];
      readPosition := nextReadPosition;
    }

    /** Moves at most to the end. */
    method Skip(count: nat)
      requires Valid()
      modifies `readPosition
      ensures Valid()
      ensures Unread() == if count <= |old(Unread())| then old(Unread())[count..] else []
    {
      readPosition := if readPosition + count <= |buffer| then readPosition + count else |buffer|;
    }

    method Seekp(p: nat)
      requires Valid()
      modifies `readPosition
      ensures Valid() && readPosition == if p <= |buffer| then p else |buffer|
    {
      readPosition := if p <= |buffer| then p else |buffer|;
    }

    /** Drops what has been consumed and nothing else. */
    method Shrink()
      requires Valid()
      modifies this
      ensures Valid() && readPosition == 0 && buffer == old(Unread()) == Unread()
    {
      buffer := buffer[readPosition..];
      readPosition := 0;
    }

    method Clear()
      modifies this
      ensures Valid() && buffer == [] && Unread() == []
    {
      buffer := [];
      readPosition := 0;
    }

    /** Moves the unread bytes to the end of another stream. */
    method GetClear(dst: DataStream)
      requires Valid() && dst.Valid()
      modifies this, dst
      ensures Valid() && Unread() == []
      ensures dst != this ==> dst.Valid() && dst.Unread() == old(dst.Unread()) + old(Unread())
    {
      dst.Write(buffer[readPosition..]);
      Clear();
    }
  }

  // ---- fixed-size integers ----

  /** The bits of a signed or unsigned integer of `size` bytes, read as an unsigned one: two's complement. */
  function BitsOf(value: int, size: nat): (bits: nat)
    ensures bits < Pow256(size)
  {
    value % Pow256(size)
  }

  /** The same bits read as a signed integer. */
  function SignedOf(bits: nat, size: nat): int {
    if 2 * bits < Pow256(size) then bits else bits - Pow256(size)
  }

  /** For any integral type: at least the least signed, below the unsigned limit. */
  method WriteData(s: DataStream, value: int, size: nat)
    requires s.Valid() && 0 <= 2 * value + Pow256(size) && value < Pow256(size)
    modifies s
    ensures s.Valid() && s.Unread() == old(s.Unread()) + LittleEndian(BitsOf(value, size), size)
  {
    s.Write(LittleEndian(BitsOf(value, size), size));
  }

  /** read_data: a failed read consumes nothing. */
  method ReadData(s: DataStream, size: nat) returns (r: Result<nat>)
    requires s.Valid()
    modifies s
    ensures s.Valid()
    ensures size <= |old(s.Unread())| ==>
              r == Ok(FromLittleEndian(old(s.Unread())[..size])) && s.Unread() == old(s.Unread())[size..]
    ensures size > |old(s.Unread())| ==> r == Err(ReadBeyondData) && s.Unread() == old(s.Unread())
  {
    var readResult := s.Read(size);
    if readResult.Err? {
      return Err(readResult.error);
    }
    s.Shrink();
    return Ok(FromLittleEndian(readResult.value));
  }

  /** The same for a signed type. */
  method ReadSigned(s: DataStream, size: nat) returns (r: Result<int>)
    requires s.Valid()
    modifies s
    ensures s.Valid()
    ensures size <= |old(s.Unread())| ==>
              r == Ok(SignedOf(FromLittleEndian(old(s.Unread())[..size]), size)) && s.Unread() == old(s.Unread())[size..]
    ensures size > |old(s.Unread())| ==> r == Err(ReadBeyondData) && s.Unread() == old(s.Unread())
  {
    var bits := ReadData(s, size);
    if bits.Err? {
      return Err(bits.error);
    }
    return Ok(SignedOf(bits.value, size));
  }

  /** What was written comes back: an unsigned value read as unsigned, a signed one read as signed. */
  lemma DataRoundTrip(value: int, size: nat)
    requires 0 <= 2 * value + Pow256(size) && value < Pow256(size)
    ensures 0 <= value ==> FromLittleEndian(LittleEndian(BitsOf(value, size), size)) == value
    ensures 2 * value < Pow256(size) ==>
              SignedOf(FromLittleEndian(LittleEndian(BitsOf(value, size), size)), size) == value
    ensures BitsOf(value, size) == if value < 0 then value + Pow256(size) else value
  {
    LittleEndianRoundTrip(BitsOf(value, size), size);
    hide FromLittleEndian, LittleEndian;
    ModRange(value, Pow256(size));
    hide Pow256;
  }

  lemma ModRange(value: int, p: nat)
    requires p > 0 && 0 <= 2 * value + p && value < p
    ensures value % p == if value < 0 then value + p else value
  {
    if value < 0 {
      assert value + p == 0 * p + (value + p);
    }
  }

  /** The writer stores 0 for true and 1 for false; the reader takes any non-zero byte for true. */
  method WriteBool(s: DataStream, value: bool)
    requires s.Valid()
    modifies s
    ensures s.Valid() && s.Unread() == old(s.Unread()) + [if value then 0 else 1]
  {
    s.PushBack(if value then 0 else 1);
  }

  /** The reader takes any non-zero byte for true. */
  method ReadBool(s: DataStream) returns (r: Result<bool>)
    requires s.Valid()
    modifies s
    ensures s.Valid()
    ensures var u := old(s.Unread());
            if u == [] then r == Err(ReadBeyondData) && s.Unread() == u else r == Ok(u[0] != 0) && s.Unread() == u[1..]
  {
    ghost var u := s.Unread();
    var data := ReadData(s, 1);
    if data.Err? {
      return Err(data.error);
    }
    OneByte(u);
    return Ok(data.value != 0);
  }

  /** So a bool written to any stream, and read after what was there before, comes back negated. */
  method BoolComesBackNegated(s: DataStream, value: bool) returns (r: Result<bool>)
    requires s.Valid()
    modifies s
    ensures s.Valid() && s.Unread() == [] && r == Ok(!value)
  {
    var avail := |s.Unread()|;
    WriteBool(s, value);
    s.Skip(avail);
    r := ReadBool(s);
  }

  // ---- compact sizes ----

  function SerCompactSizeof(value: nat): nat {
    if value < 253 then 1 else if value <= 0xffff then 3 else if value <= 0xffff_ffff then 5 else 9
  }

  /** The bytes write_compact emits. */
  function CompactBytes(value: nat): (b: seq<byte>)
    ensures |b| == SerCompactSizeof(value)
  {
    if value < 253 then [value]
    else if value <= 0xffff then [253] + LittleEndian(value, 2)
    else if value <= 0xffff_ffff then [254] + LittleEndian(value, 4)
    else [255] + LittleEndian(value, 8)
  }

  /** The wire format: one byte up to 252, else a marker and the value's 2, 4 or 8 bytes, the low one first. */
  lemma CompactFormat(value: nat)
    requires value < TWO_64
    ensures var b := CompactBytes(value);
            && |b| == (if value <= 252 then 1 else if value <= 65_535 then 3 else if value <= 4_294_967_295 then 5 else 9)
            && b[0] == (if value <= 252 then value else if value <= 65_535 then 0xfd else if value <= 4_294_967_295 then 0xfe else 0xff)
            && forall i | 0 <= i < |b| - 1 :: b[1 + i] == value / Pow256(i) % 256
  {
    var b := CompactBytes(value);
    forall i | 0 <= i < |b| - 1
      ensures b[1 + i] == value / Pow256(i) % 256
    {
      LittleEndianAt(value, |b| - 1, i);
      hide LittleEndian, Pow256;
    }
  }

  method WriteCompact(s: DataStream, obj: nat)
    requires s.Valid() && obj < TWO_64
    modifies s
    ensures s.Valid() && s.Unread() == old(s.Unread()) + CompactBytes(obj)
  {
    var casted := LittleEndian(obj, 8);
    var numBytes := SerCompactSizeof(obj);
    if numBytes == 1 {
      assert casted[0] == obj % 256;
      s.PushBack(casted[0]);
      return;
    }
    var prefix: byte := if numBytes == 3 then 253 else if numBytes == 5 then 254 else 255;
    LittleEndianPrefix(obj, numBytes - 1, 8);
    s.PushBack(prefix);
    s.Write(casted[..numBytes - 1]);
    assert old(s.Unread()) + [prefix] + casted[..numBytes - 1] == old(s.Unread()) + ([prefix] + casted[..numBytes - 1]);
  }

  lemma {:induction false} LittleEndianPrefix(value: nat, short: nat, long: nat)
    requires short <= long
    ensures LittleEndian(value, long)[..short] == LittleEndian(value, short)
  {
    if short > 0 {
      LittleEndianPrefix(value / 256, short - 1, long - 1);
    }
  }

  /** The width that follows a prefix byte, and the least value that needs it. */
  function Width(prefix: byte): nat
    requires prefix >= 253
  {
    if prefix == 253 then 2 else if prefix == 254 then 4 else 8
  }

  function LeastValue(prefix: byte): nat
    requires prefix >= 253
  {
    if prefix == 253 then 253 else if prefix == 254 then 0x1_0000 else 0x1_0000_0000
  }

  /** What read_compact makes of the unread bytes, and how many of them it consumes, failures included. */
  function ParseCompact(u: seq<byte>): (r: (Result<nat>, nat))
    ensures r.1 <= |u|
  {
    if |u| == 0 then (Err(ReadBeyondData), 0)
    else if u[0] < 253 then (Ok(u[0]), 1)
    else if |u| < 1 + Width(u[0]) then (Err(ReadBeyondData), 1)
    else
      var n := 1 + Width(u[0]);
      var value := FromLittleEndian(u[1..n]);
      if value < LeastValue(u[0]) then (Err(NonCanonicalCompactSize), n)
      else if value > MAX_COMPACT_SIZE then (Err(CompactSizeTooBig), n)
      else (Ok(value), n)
  }

  method ReadCompact(s: DataStream) returns (r: Result<nat>)
    requires s.Valid()
    modifies s
    ensures s.Valid()
    ensures r == ParseCompact(old(s.Unread())).0
    ensures s.Unread() == old(s.Unread())[ParseCompact(old(s.Unread())).1..]
  {
    ghost var u := s.Unread();
    hide FromLittleEndian;
    var size := ReadData(s, 1);
    if size.Err? {
      return Err(size.error);
    }
    OneByte(u);
    var ret;
    if size.value < 253 {
      ret := size.value;
    } else if size.value == 253 {
      var value := ReadData(s, 2);
      if value.Err? { return Err(value.error); }
      assert u[1..][..2] == u[1..3] && u[1..][2..] == u[3..];
      if value.value < 253 { return Err(NonCanonicalCompactSize); }
      ret := value.value;
    } else if size.value == 254 {
      var value := ReadData(s, 4);
      if value.Err? { return Err(value.error); }
      assert u[1..][..4] == u[1..5] && u[1..][4..] == u[5..];
      if value.value < 0x1_0000 { return Err(NonCanonicalCompactSize); }
      ret := value.value;
    } else {
      var value := ReadData(s, 8);
      if value.Err? { return Err(value.error); }
      assert u[1..][..8] == u[1..9] && u[1..][8..] == u[9..];
      if value.value < 0x1_0000_0000 { return Err(NonCanonicalCompactSize); }
      ret := value.value;
    }
    if ret > MAX_COMPACT_SIZE {
      return Err(CompactSizeTooBig);
    }
    return Ok(ret);
  }

  lemma OneByte(u: seq<byte>)
    requires |u| > 0
    ensures FromLittleEndian(u[..1]) == u[0]
  {
    assert u[..1][1..] == [];
  }

  lemma Pow256Values()
    ensures Pow256(1) == 0x100 && Pow256(2) == 0x1_0000 && Pow256(4) == 0x1_0000_0000 && Pow256(8) == TWO_64
  {
    assert Pow256(3) == 0x100_0000;
    assert Pow256(6) == 0x1_0000_0000_0000;
  }

  /** Whatever was written comes back and is consumed exactly, with the bytes behind it left alone, if and only
      if it does not exceed the size limit; above the limit the reader says so. */
  lemma CompactRoundTrip(value: nat, rest: seq<byte>)
    requires value < TWO_64
    ensures ParseCompact(CompactBytes(value) + rest) ==
              (if value <= MAX_COMPACT_SIZE then Ok(value) else Err(CompactSizeTooBig), SerCompactSizeof(value))
  {
    Pow256Values();
    var b := CompactBytes(value);
    var u := b + rest;
    if value >= 253 {
      var n := Width(b[0]);
      LittleEndianRoundTrip(value, n);
      assert u[1..1 + n] == LittleEndian(value, n);
    }
    hide FromLittleEndian, LittleEndian, Pow256;
  }

  /** Conversely a successful read consumed exactly the bytes the writer emits for its result: no value has a
      second accepted encoding. */
  lemma CompactCanonical(u: seq<byte>)
    requires ParseCompact(u).0.Ok?
    ensures var (r, n) := ParseCompact(u);
            r.value <= MAX_COMPACT_SIZE && n == SerCompactSizeof(r.value) && u[..n] == CompactBytes(r.value)
  {
    Pow256Values();
    if u[0] >= 253 {
      var n := 1 + Width(u[0]);
      FromLittleEndianRoundTrip(u[1..n]);
      assert u[..n] == [u[0]] + u[1..n];
    } else {
      assert u[..1] == [u[0]];
    }
    hide FromLittleEndian, LittleEndian, Pow256;
  }

  // ---- lists ----

  function CompactList(values: seq<nat>): seq<byte> {
    if values == [] then [] else CompactBytes(values[0]) + CompactList(values[1..])
  }

  function SumOfSizes(values: seq<nat>): nat {
    if values == [] then 0 else SerCompactSizeof(values[0]) + SumOfSizes(values[1..])
  }

  /** The encodings stand one behind the other in the order of the values. */
  lemma {:induction false} ListAt(values: seq<nat>, i: nat)
    requires i < |values|
    ensures SumOfSizes(values[..i]) + SerCompactSizeof(values[i]) <= |CompactList(values)|
    ensures CompactList(values)[SumOfSizes(values[..i])..][..SerCompactSizeof(values[i])] == CompactBytes(values[i])
  {
    var first, rest := CompactBytes(values[0]), CompactList(values[1..]);
    if i == 0 {
      assert SumOfSizes(values[..0]) == 0;
      hide *;
      assert (first + rest)[0..][..|first|] == first;
    } else {
      ListAt(values[1..], i - 1);
      var at := SumOfSizes(values[1..][..i - 1]);
      assert values[..i][0] == values[0] && values[..i][1..] == values[1..][..i - 1];
      assert SumOfSizes(values[..i]) == |first| + at;
      hide *;
      assert (first + rest)[|first| + at..] == rest[at..];
    }
  }

  /** Reading `count` compact sizes one after another. */
  function ParseList(u: seq<byte>, count: nat): (r: (Result<seq<nat>>, nat))
    ensures r.1 <= |u|
    decreases count
  {
    if count == 0 then (Ok([]), 0)
    else
      var (first, n) := ParseCompact(u);
      if first.Err? then (Err(first.error), n)
      else
        var (rest, m) := ParseList(u[n..], count - 1);
        (if rest.Err? then rest else Ok([first.value] + rest.value), n + m)
  }

  /** Any list of values within the limit, written and read back: the same list, consuming exactly the sum of
      the sizes. */
  lemma {:induction false} ListRoundTrip(values: seq<nat>, rest: seq<byte>)
    requires forall i | 0 <= i < |values| :: values[i] <= MAX_COMPACT_SIZE
    ensures ParseList(CompactList(values) + rest, |values|) == (Ok(values), SumOfSizes(values))
    ensures |CompactList(values)| == SumOfSizes(values)
  {
    if values != [] {
      var b, tail := CompactBytes(values[0]), CompactList(values[1..]);
      ListRoundTrip(values[1..], rest);
      CompactRoundTrip(values[0], tail + rest);
      hide CompactBytes, ParseCompact, SerCompactSizeof;
      assert CompactList(values) == b + tail;
      hide CompactList;
      Regroup(b, tail, rest);
      assert (b + (tail + rest))[|b|..] == tail + rest;
      assert [values[0]] + values[1..] == values;
    }
  }

  /** And any list read successfully was, byte for byte, what the writer emits for it. */
  lemma {:induction false} ListCanonical(u: seq<byte>, count: nat)
    requires ParseList(u, count).0.Ok?
    ensures var (r, n) := ParseList(u, count);
            |r.value| == count && u[..n] == CompactList(r.value)
    decreases count
  {
    if count > 0 {
      ListUnfolds(u, count);
      CompactCanonical(u);
      var v, n := ParseCompact(u).0.value, ParseCompact(u).1;
      ListCanonical(u[n..], count - 1);
      var rest, m := ParseList(u[n..], count - 1).0.value, ParseList(u[n..], count - 1).1;
      hide *;
      SliceTwo(u, n, m);
      ListHead(v, rest);
    } else {
      assert u[..0] == [];
    }
  }

  /** A list read begins with one value read and goes on with a list read. */
  lemma ListUnfolds(u: seq<byte>, count: nat)
    requires count > 0 && ParseList(u, count).0.Ok?
    ensures ParseCompact(u).0.Ok?
    ensures var (v, n) := ParseCompact(u);
            var (rest, m) := ParseList(u[n..], count - 1);
            rest.Ok? && ParseList(u, count) == (Ok([v.value] + rest.value), n + m)
  {
    hide ParseCompact;
  }

  // ---- the same through a stream ----

  /** Writes a list, one compact size after another. */
  method WriteList(s: DataStream, values: seq<nat>)
    requires s.Valid() && forall i | 0 <= i < |values| :: values[i] < TWO_64
    modifies s
    ensures s.Valid() && s.Unread() == old(s.Unread()) + CompactList(values)
  {
    hide CompactList, CompactBytes;
    ghost var u := s.Unread();
    var i := 0;
    NoList(u);
    while i < |values|
      invariant 0 <= i <= |values| && s.Valid() && s.Unread() == u + CompactList(values[..i])
    {
      ListGrows(values[..i], values[i]);
      assert values[..i + 1] == values[..i] + [values[i]];
      Regroup(u, CompactList(values[..i]), CompactBytes(values[i]));
      WriteCompact(s, values[i]);
      i := i + 1;
    }
    assert values[..i] == values;
  }

  lemma NoList(u: seq<byte>)
    ensures u == u + CompactList([])
  {}

  lemma Regroup(a: seq<byte>, b: seq<byte>, c: seq<byte>)
    ensures a + (b + c) == (a + b) + c
  {}

  lemma {:induction false} ListGrows(values: seq<nat>, last: nat)
    ensures CompactList(values + [last]) == CompactList(values) + CompactBytes(last)
  {
    hide CompactBytes;
    if values == [] {
      assert [last][1..] == [] && [] + [last] == [last];
      assert CompactBytes(last) + [] == [] + CompactBytes(last);
    } else {
      ListGrows(values[1..], last);
      assert (values + [last])[1..] == values[1..] + [last];
      Regroup(CompactBytes(values[0]), CompactList(values[1..]), CompactBytes(last));
    }
  }

  /** Reads a list, stopping at the first failure. */
  method ReadList(s: DataStream, count: nat) returns (r: Result<seq<nat>>)
    requires s.Valid()
    modifies s
    ensures s.Valid() && r == ParseList(old(s.Unread()), count).0
    ensures s.Unread() == old(s.Unread())[ParseList(old(s.Unread()), count).1..]
    decreases count
  {
    if count == 0 {
      return Ok([]);
    }
    ghost var u := s.Unread();
    ReadOne(u, count);
    hide ParseCompact, ParseList;
    var first := ReadCompact(s);
    if first.Err? {
      return Err(first.error);
    }
    ghost var n := ParseCompact(u).1;
    var rest := ReadList(s, count - 1);
    DropTwo(u, n, ParseList(u[n..], count - 1).1);
    r := if rest.Err? then rest else Ok([first.value] + rest.value);
  }

  lemma ReadOne(u: seq<byte>, count: nat)
    requires count > 0
    ensures var (first, n) := ParseCompact(u);
            ParseList(u, count) ==
              if first.Err? then (Err(first.error), n)
              else var (rest, m) := ParseList(u[n..], count - 1);
                   (if rest.Err? then rest else Ok([first.value] + rest.value), n + m)
  {
    hide ParseCompact;
  }

  lemma DropTwo(u: seq<byte>, n: nat, m: nat)
    requires n + m <= |u|
    ensures u[n..][m..] == u[n + m..]
  {}

  /** End to end: a list written to any stream, and read after what was there before, comes back whole and
      leaves nothing. */
  method ListThroughStream(s: DataStream, values: seq<nat>) returns (r: Result<seq<nat>>)
    requires s.Valid() && forall i | 0 <= i < |values| :: values[i] <= MAX_COMPACT_SIZE
    modifies s
    ensures s.Valid() && r == Ok(values) && s.Unread() == []
  {
    ghost var u := s.Unread();
    var avail := |s.Unread()|;
    WriteList(s, values);
    s.Skip(avail);
    assert (u + CompactList(values))[|u|..] == CompactList(values);
    ListRoundTrip(values, []);
    assert CompactList(values) + [] == CompactList(values);
    r := ReadList(s, |values|);
  }

  lemma SliceTwo(u: seq<byte>, n: nat, m: nat)
    requires n + m <= |u|
    ensures u[..n + m] == u[..n] + u[n..][..m]
  {}

  lemma ListHead(value: nat, rest: seq<nat>)
    ensures CompactList([value] + rest) == CompactBytes(value) + CompactList(rest)
  {
    hide CompactBytes;
    assert ([value] + rest)[1..] == rest;
  }
}
