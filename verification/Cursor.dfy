/** Walking and erasing over an ordered table through a cursor.

    The table is the sequence of its records, sorted by key. The methods of class Cursor stand for
    mdbx::cursor on a single-value table; the functions after it are those of mdbx.cpp. */
module Cursors {
  import opened Bytes
  import opened Options

  type Key = seq<byte>
  datatype Record = Record(key: Key, value: seq<byte>)
  datatype Direction = Forward | Reverse

  /** Lexicographic order on byte strings. */
  predicate Less(a: Key, b: Key) {
    b != [] && (a == [] || a[0] < b[0] || (a[0] == b[0] && Less(a[1..], b[1..])))
  }

  predicate StartsWith(key: Key, prefix: Key) {
    prefix <= key
  }

  ghost predicate Sorted(rs: seq<Record>) {
    forall i, j | 0 <= i < j < |rs| :: Less(rs[i].key, rs[j].key)
  }

  function Filter(rs: seq<Record>, p: Record -> bool): seq<Record> {
    if rs == [] then [] else (if p(rs[0]) then [rs[0]] else []) + Filter(rs[1..], p)
  }

  function Reversed(rs: seq<Record>): seq<Record> {
    if rs == [] then [] else Reversed(rs[1..]) + [rs[0]]
  }

  /** The first record whose key is not less than `key`. */
  function LowerBound(rs: seq<Record>, key: Key): (i: nat)
    ensures i <= |rs|
  {
    if rs == [] || !Less(rs[0].key, key) then 0 else 1 + LowerBound(rs[1..], key)
  }

  lemma {:induction false} LowerBoundSplits(rs: seq<Record>, key: Key)
    ensures var i := LowerBound(rs, key);
            && (i < |rs| ==> !Less(rs[i].key, key))
            && forall j | 0 <= j < i :: Less(rs[j].key, key)
  {
    if rs != [] && Less(rs[0].key, key) {
      LowerBoundSplits(rs[1..], key);
      hide Less;
      forall j | 0 <= j < LowerBound(rs, key)
        ensures Less(rs[j].key, key)
      {
        if j > 0 {
          assert rs[1..][j - 1] == rs[j];
        }
      }
    }
  }

  // ---- the order ----

  /** Lexicographic order said by positions: up to the first difference the keys agree, and there a ends or has the
      lesser byte. */
  lemma {:induction false} LessMeans(a: Key, b: Key)
    ensures Less(a, b) <==> exists i: nat :: FirstDifference(a, b, i) && (i == |a| || a[i] < b[i])
  {
    if b == [] || a == [] {
      assert b != [] ==> FirstDifference(a, b, 0);
    } else if a[0] != b[0] {
      assert FirstDifference(a, b, 0);
      forall i: nat | FirstDifference(a, b, i)
        ensures i == 0
      {
        if i > 0 {
          AgreeAtFirst(a, b, i);
        }
      }
    } else {
      LessMeans(a[1..], b[1..]);
      forall i: nat
        ensures FirstDifference(a[1..], b[1..], i) <==> FirstDifference(a, b, i + 1)
      {
        DifferenceInTails(a, b, i);
      }
      assert !FirstDifference(a, b, 0);
      if i: nat :| FirstDifference(a, b, i) && (i == |a| || a[i] < b[i]) {
        assert FirstDifference(a[1..], b[1..], i - 1);
      }
      if i: nat :| FirstDifference(a[1..], b[1..], i) && (i == |a[1..]| || a[1..][i] < b[1..][i]) {
        assert FirstDifference(a, b, i + 1);
      }
    }
  }

  /** The keys agree before i; there a ends, or both go on and differ. */
  predicate FirstDifference(a: Key, b: Key, i: nat) {
    i <= |a| && i < |b| && a[..i] == b[..i] && (i < |a| ==> a[i] != b[i])
  }

  lemma AgreeAtFirst(a: Key, b: Key, i: nat)
    requires i > 0 && FirstDifference(a, b, i)
    ensures a[0] == b[0]
  {
    assert a[..i][0] == b[..i][0];
  }

  lemma DifferenceInTails(a: Key, b: Key, i: nat)
    requires a != [] && b != [] && a[0] == b[0]
    ensures FirstDifference(a[1..], b[1..], i) <==> FirstDifference(a, b, i + 1)
  {
    if i + 1 <= |a| && i + 1 <= |b| {
      assert a[..i + 1] == [a[0]] + a[1..][..i] && b[..i + 1] == [b[0]] + b[1..][..i];
    }
  }

  lemma {:induction false} LessTransitive(a: Key, b: Key, c: Key)
    requires Less(a, b) && Less(b, c)
    ensures Less(a, c)
  {
    if a != [] && a[0] == b[0] == c[0] {
      LessTransitive(a[1..], b[1..], c[1..]);
    }
  }

  lemma {:induction false} LessTotal(a: Key, b: Key)
    ensures !(Less(a, b) && Less(b, a))
    ensures a != b ==> Less(a, b) || Less(b, a)
  {
    if a != [] && b != [] && a[0] == b[0] {
      LessTotal(a[1..], b[1..]);
      assert a[1..] == b[1..] ==> a == b by { assert a == [a[0]] + a[1..] && b == [b[0]] + b[1..]; }
    }
  }

  /** Nothing below the prefix starts with it. */
  lemma {:induction false} BelowPrefix(k: Key, prefix: Key)
    requires StartsWith(k, prefix)
    ensures !Less(k, prefix)
  {
    if prefix != [] {
      assert prefix[1..] <= k[1..];
      BelowPrefix(k[1..], prefix[1..]);
    }
  }

  /** A key at or above the prefix that does not start with it is above every key that does. */
  lemma {:induction false} AbovePrefix(k: Key, later: Key, prefix: Key)
    requires !Less(k, prefix) && !StartsWith(k, prefix) && Less(k, later)
    ensures !StartsWith(later, prefix)
  {
    if StartsWith(later, prefix) {
      if prefix == [] || k == [] {
        assert false;
      } else if k[0] == prefix[0] {
        assert later[0] == prefix[0];
        TailsStart(k, prefix);
        assert prefix[1..] <= later[1..];
        AbovePrefix(k[1..], later[1..], prefix[1..]);
        assert false;
      }
    }
  }

  lemma TailsStart(k: Key, prefix: Key)
    requires k != [] && prefix != [] && k[0] == prefix[0]
    ensures StartsWith(k, prefix) <==> StartsWith(k[1..], prefix[1..])
  {
    if prefix[1..] <= k[1..] {
      forall i | 0 <= i < |prefix|
        ensures prefix[i] == k[i]
      {
        if i > 0 {
          assert prefix[1..][i - 1] == k[1..][i - 1];
        }
      }
    }
  }

  /** Keys with a common prefix are contiguous, and begin at the lower bound of the prefix. */
  lemma PrefixContiguous(rs: seq<Record>, prefix: Key, end: nat)
    requires Sorted(rs)
    requires LowerBound(rs, prefix) <= end <= |rs|
    requires forall i | LowerBound(rs, prefix) <= i < end :: StartsWith(rs[i].key, prefix)
    requires end < |rs| ==> !StartsWith(rs[end].key, prefix)
    ensures forall i | 0 <= i < |rs| :: StartsWith(rs[i].key, prefix) <==> LowerBound(rs, prefix) <= i < end
  {
    var lo := LowerBound(rs, prefix);
    LowerBoundSplits(rs, prefix);
    forall i | 0 <= i < |rs| && StartsWith(rs[i].key, prefix)
      ensures lo <= i < end
    {
      BelowPrefix(rs[i].key, prefix);
      if end < i {
        NotLessFrom(rs, prefix, end);
        AbovePrefix(rs[end].key, rs[i].key, prefix);
      }
    }
  }

  /** From the lower bound on, no key is less. */
  lemma NotLessFrom(rs: seq<Record>, key: Key, i: nat)
    requires Sorted(rs) && LowerBound(rs, key) <= i < |rs|
    ensures !Less(rs[i].key, key)
  {
    var lo := LowerBound(rs, key);
    LowerBoundSplits(rs, key);
    if lo < i && Less(rs[i].key, key) {
      LessTransitive(rs[lo].key, rs[i].key, key);
    }
  }

  lemma {:induction false} FilterAppend(a: seq<Record>, b: seq<Record>, p: Record -> bool)
    ensures Filter(a + b, p) == Filter(a, p) + Filter(b, p)
  {
    if a == [] {
      assert a + b == b;
    } else {
      assert (a + b)[1..] == a[1..] + b;
      FilterAppend(a[1..], b, p);
      var head := if p(a[0]) then [a[0]] else [];
      var x, y := Filter(a[1..], p), Filter(b, p);
      assert Filter(a + b, p) == head + (x + y);
      assert head + (x + y) == (head + x) + y;
    }
  }

  /** A filter keeps exactly the records it is asked to keep, in their order. */
  lemma {:induction false} FilterMeans(rs: seq<Record>, p: Record -> bool, r: Record)
    requires Sorted(rs)
    ensures r in Filter(rs, p) <==> r in rs && p(r)
    ensures Sorted(Filter(rs, p)) && forall x | x in Filter(rs, p) :: x in rs
  {
    hide Less;
    if rs != [] {
      FilterMeans(rs[1..], p, r);
      var rest := Filter(rs[1..], p);
      assert forall x | x in rest :: x in rs[1..];
      assert r in rs <==> r == rs[0] || r in rs[1..];
      assert Filter(rs, p) == (if p(rs[0]) then [rs[0]] else []) + rest;
      forall x | x in rest
        ensures Less(rs[0].key, x.key)
      {
        var k :| 0 <= k < |rs[1..]| && rs[1..][k] == x;
        assert rs[k + 1] == x;
      }
    }
  }

  lemma {:induction false} FilterAll(rs: seq<Record>, p: Record -> bool)
    requires forall i | 0 <= i < |rs| :: p(rs[i])
    ensures Filter(rs, p) == rs
  {
    if rs != [] {
      assert forall i | 0 <= i < |rs[1..]| :: rs[1..][i] == rs[i + 1];
      FilterAll(rs[1..], p);
    }
  }

  lemma {:induction false} FilterNone(rs: seq<Record>, p: Record -> bool)
    requires forall i | 0 <= i < |rs| :: !p(rs[i])
    ensures Filter(rs, p) == []
  {
    if rs != [] {
      assert forall i | 0 <= i < |rs[1..]| :: rs[1..][i] == rs[i + 1];
      FilterNone(rs[1..], p);
    }
  }

  lemma FilterThree(a: seq<Record>, b: seq<Record>, c: seq<Record>, p: Record -> bool)
    ensures Filter(a + b + c, p) == Filter(a, p) + Filter(b, p) + Filter(c, p)
  {
    hide Filter;
    FilterAppend(a + b, c, p);
    FilterAppend(a, b, p);
  }

  lemma FilterSlice(rs: seq<Record>, lo: nat, hi: nat, keep: bool, p: Record -> bool)
    requires lo <= hi <= |rs|
    requires forall i | lo <= i < hi :: p(rs[i]) == keep
    ensures Filter(rs[lo..hi], p) == if keep then rs[lo..hi] else []
  {
    hide Filter;
    var s := rs[lo..hi];
    forall i | 0 <= i < |s|
      ensures p(s[i]) == keep
    {
      assert s[i] == rs[lo + i];
    }
    if keep { FilterAll(s, p); } else { FilterNone(s, p); }
  }

  /** Filtering in three slices. */
  lemma FilterSlices(rs: seq<Record>, lo: nat, hi: nat, p: Record -> bool)
    requires lo <= hi <= |rs|
    ensures Filter(rs, p) == Filter(rs[0..lo], p) + Filter(rs[lo..hi], p) + Filter(rs[hi..|rs|], p)
  {
    hide Filter;
    FilterThree(rs[0..lo], rs[lo..hi], rs[hi..|rs|], p);
    SplitThree(rs, lo, hi);
  }

  lemma SplitThree(rs: seq<Record>, lo: nat, hi: nat)
    requires lo <= hi <= |rs|
    ensures rs == rs[0..lo] + rs[lo..hi] + rs[hi..|rs|]
    ensures [] + rs[lo..hi] + [] == rs[lo..hi]
    ensures rs[0..lo] + [] + rs[hi..|rs|] == Cut(rs, lo, hi)
  {}

  /** A filter that keeps an index range is a slice. */
  lemma FilterRange(rs: seq<Record>, lo: nat, hi: nat, p: Record -> bool)
    requires lo <= hi <= |rs|
    requires forall i | 0 <= i < |rs| :: p(rs[i]) <==> lo <= i < hi
    ensures Filter(rs, p) == rs[lo..hi]
  {
    hide Filter, Cut;
    FilterSlice(rs, 0, lo, false, p);
    FilterSlice(rs, lo, hi, true, p);
    FilterSlice(rs, hi, |rs|, false, p);
    FilterSlices(rs, lo, hi, p);
    SplitThree(rs, lo, hi);
  }

  /** The records at lo .. hi - 1. */
  function Slice(rs: seq<Record>, lo: nat, hi: nat): seq<Record>
    requires lo <= hi <= |rs|
  {
    rs[lo..hi]
  }

  lemma SliceGrows(rs: seq<Record>, lo: nat, hi: nat)
    requires lo <= hi <= |rs|
    ensures |Slice(rs, lo, hi)| == hi - lo
    ensures hi < |rs| ==> Slice(rs, lo, hi) + [rs[hi]] == Slice(rs, lo, hi + 1)
  {}

  /** The records without those at lo .. hi - 1. */
  function Cut(rs: seq<Record>, lo: nat, hi: nat): seq<Record>
    requires lo <= hi <= |rs|
  {
    rs[..lo] + rs[hi..]
  }

  /** A filter that drops an index range cuts it out. */
  lemma FilterOutside(rs: seq<Record>, lo: nat, hi: nat, p: Record -> bool)
    requires lo <= hi <= |rs|
    requires forall i | 0 <= i < |rs| :: p(rs[i]) <==> !(lo <= i < hi)
    ensures Filter(rs, p) == Cut(rs, lo, hi)
  {
    hide Filter, Cut;
    FilterSlice(rs, 0, lo, true, p);
    FilterSlice(rs, lo, hi, false, p);
    FilterSlice(rs, hi, |rs|, true, p);
    FilterSlices(rs, lo, hi, p);
    SplitThree(rs, lo, hi);
  }

  /** Cutting out the record after a gap, or the one before it, widens the gap. */
  lemma CutWidens(rs: seq<Record>, lo: nat, hi: nat)
    requires lo <= hi <= |rs|
    ensures |Cut(rs, lo, hi)| == |rs| - (hi - lo)
    ensures hi < |rs| ==> Cut(rs, lo, hi)[lo] == rs[hi] && Cut(Cut(rs, lo, hi), lo, lo + 1) == Cut(rs, lo, hi + 1)
    ensures lo > 0 ==> Cut(rs, lo, hi)[lo - 1] == rs[lo - 1] && Cut(Cut(rs, lo, hi), lo - 1, lo) == Cut(rs, lo - 1, hi)
  {}

  lemma CutNothing(rs: seq<Record>, lo: nat)
    requires lo <= |rs|
    ensures Cut(rs, lo, lo) == rs
  {}

  // ---- mdbx::cursor ----

  /** Off: not positioned, or moved past either end. Gap(i): just erased what was at i, so that the next record
      is the one now at i and the previous the one at i - 1. */
  datatype Position = Off | On(i: nat) | Gap(i: nat)

  class Cursor {
    var records: seq<Record>
    var pos: Position

    ghost predicate Valid()
      reads this
    {
      && Sorted(records)
      && (pos.On? ==> pos.i < |records|)
      && (pos.Gap? ==> pos.i <= |records|)
    }

    constructor (records: seq<Record>)
      requires Sorted(records)
      ensures Valid() && this.records == records && pos == Off
    {
      this.records := records;
      pos := Off;
    }

    /** Moves to index i when there is such a record. */
    method Place(i: int) returns (data: Option<Record>)
      requires Valid()
      modifies `pos
      ensures Valid()
      ensures if 0 <= i < |records| then pos == On(i) && data == Some(records[i]) else pos == Off && data == None
    {
      if 0 <= i < |records| {
        pos, data := On(i), Some(records[i]);
      } else {
        pos, data := Off, None;
      }
    }

    /** The record `current` returns; none when the cursor is at the end of data. */
    function Anchor(): (a: Option<nat>)
      reads this
      ensures a.Some? && Valid() ==> a.value < |records|
    {
      match pos
      case Off => None
      case On(i) => Some(i)
      case Gap(i) => if i < |records| then Some(i) else None
    }

    method LowerBoundAt(key: Key) returns (data: Option<Record>)
      requires Valid()
      modifies `pos
      ensures Valid()
      ensures var i := LowerBound(records, key);
              if i < |records| then pos == On(i) && data == Some(records[i]) else pos == Off && data == None
    {
      data := Place(LowerBound(records, key));
    }

    method Move(direction: Direction) returns (data: Option<Record>)
      requires Valid() && pos != Off
      modifies `pos
      ensures Valid()
      ensures var i := if direction == Reverse then old(pos).i - 1 else if old(pos).On? then old(pos).i + 1 else old(pos).i;
              if 0 <= i < |records| then pos == On(i) && data == Some(records[i]) else pos == Off && data == None
    {
      data := Place(if direction == Reverse then pos.i - 1 else if pos.On? then pos.i + 1 else pos.i);
    }

    method Erase()
      requires Valid() && pos.On?
      modifies this
      ensures Valid() && pos == Gap(old(pos).i)
      ensures records == Cut(old(records), old(pos).i, old(pos).i + 1)
    {
      records, pos := Cut(records, pos.i, pos.i + 1), Gap(pos.i);
    }
  }

  // ---- mdbx.cpp ----

  /** Where a walk in the given direction starts. */
  function StartIndex(n: nat, anchor: Option<nat>, direction: Direction): int {
    if anchor.Some? then anchor.value else if direction == Forward then 0 else n - 1
  }

  /** The records a walk from index `start` passes, in order. */
  function Passed(rs: seq<Record>, start: int, direction: Direction): seq<Record> {
    if !(0 <= start < |rs|) then []
    else if direction == Forward then rs[start..]
    else Reversed(rs[..start + 1])
  }

  /** What a walk from a position is to visit, said without the code's own terms: the whole table from the end of
      data, and otherwise from the current record on, which after an erasure is the one that followed. */
  ghost function Walk(rs: seq<Record>, pos: Position, direction: Direction): seq<Record>
    requires pos.On? ==> pos.i < |rs|
  {
    match direction
    case Forward =>
      if pos.Off? then rs else if pos.i < |rs| then rs[pos.i..] else rs
    case Reverse =>
      if pos.Off? then Reversed(rs) else if pos.i < |rs| then Reversed(rs[..pos.i + 1]) else Reversed(rs)
  }

  lemma WalkIsPassed(rs: seq<Record>, pos: Position, anchor: Option<nat>, direction: Direction)
    requires pos.On? ==> pos.i < |rs|
    requires anchor == if pos.Off? || pos.i >= |rs| then None else Some(pos.i)
    ensures Passed(rs, StartIndex(|rs|, anchor, direction), direction) == Walk(rs, pos, direction)
  {
    hide Reversed;
    assert rs[..|rs|] == rs && rs[0..] == rs;
    if rs == [] {
      NothingReversed();
    }
  }

  lemma WalkHere(c: Cursor, direction: Direction)
    requires c.Valid()
    ensures Passed(c.records, StartIndex(|c.records|, c.Anchor(), direction), direction) == Walk(c.records, c.pos, direction)
  {
    hide Sorted;
    WalkIsPassed(c.records, c.pos, c.Anchor(), direction);
  }

  lemma NothingReversed()
    ensures Reversed([]) == []
  {}

  /** Reversed is back to front. */
  lemma {:induction false} ReversedAt(rs: seq<Record>, i: nat)
    requires i < |rs|
    ensures |Reversed(rs)| == |rs| && Reversed(rs)[i] == rs[|rs| - 1 - i]
  {
    if |rs| > 1 {
      ReversedAt(rs[1..], if i < |rs| - 1 then i else 0);
    }
  }

  method AdjustIfUnpositioned(c: Cursor, d: Direction) returns (data: Option<Record>)
    requires c.Valid()
    modifies c`pos
    ensures c.Valid()
    ensures var i := StartIndex(|c.records|, old(c.Anchor()), d);
            if 0 <= i < |c.records| then c.pos == On(i) && data == Some(c.records[i]) else data == None
    // a cursor on a record stays there; one at the end of data goes to the first record, or in reverse to the last
    ensures old(c.pos).On? ==> c.pos == old(c.pos) && data == Some(c.records[old(c.pos).i])
    ensures old(c.pos).Off? && c.records != [] ==>
              data == Some(if d == Forward then c.records[0] else c.records[|c.records| - 1])
    ensures c.records == [] ==> data == None
  {
    if c.Anchor().None? {
      if d == Forward {
        data := c.Place(0);
      } else {
        data := c.Place(|c.records| - 1);
      }
    } else {
      data := c.Place(c.Anchor().value);
    }
  }

  /** The last record whose key is less than the given key. */
  method StrictLowerBound(c: Cursor, key: Key) returns (data: Option<Record>)
    requires c.Valid()
    modifies c`pos
    ensures c.Valid()
    ensures var i := LowerBound(c.records, key) - 1;
            if 0 <= i then c.pos == On(i) && data == Some(c.records[i]) else data == None
  {
    var found := c.LowerBoundAt(key);
    if found.None? {
      data := c.Place(|c.records| - 1);
    } else {
      data := c.Move(Reverse);
    }
  }

  /** Hands every record from the cursor on to the walker (`visited` is what the walker was given). */
  method CursorForEach(c: Cursor, direction: Direction) returns (ret: nat, visited: seq<Record>)
    requires c.Valid()
    modifies c`pos
    ensures c.Valid() && ret == |visited|
    ensures visited == Walk(c.records, old(c.pos), direction)
  {
    WalkHere(c, direction);
    hide *;
    ret, visited := WalkAll(c, direction);
  }

  /** The loop of it, in terms of where it starts. */
  method WalkAll(c: Cursor, direction: Direction) returns (ret: nat, visited: seq<Record>)
    requires c.Valid()
    modifies c`pos
    ensures c.Valid() && ret == |visited|
    ensures visited == Passed(c.records, StartIndex(|c.records|, old(c.Anchor()), direction), direction)
  {
    hide Passed, Sorted;
    ghost var start := StartIndex(|c.records|, c.Anchor(), direction);
    PassedNone(c.records, direction);
    var data := AdjustIfUnpositioned(c, direction);
    ret, visited := 0, [];
    while data.Some?
      invariant c.Valid() && ret == |visited|
      invariant data.Some? ==> c.pos.On? && data.value == c.records[c.pos.i]
      invariant data.None? ==> visited == Passed(c.records, start, direction)
      invariant data.Some? ==> Passed(c.records, start, direction) == visited + Passed(c.records, c.pos.i, direction)
      decreases if data.None? then 0 else if direction == Forward then 1 + |c.records| - c.pos.i else 1 + c.pos.i
    {
      PassedStep(c.records, c.pos.i, direction);
      ret := ret + 1;
      visited := visited + [data.value];
      data := c.Move(direction);
    }
  }

  lemma PassedNone(rs: seq<Record>, direction: Direction)
    ensures Passed(rs, -1, direction) == Passed(rs, |rs|, direction) == []
  {}

  lemma PassedStep(rs: seq<Record>, i: nat, direction: Direction)
    requires i < |rs|
    ensures var next := if direction == Forward then i + 1 else i - 1;
            Passed(rs, i, direction) == [rs[i]] + Passed(rs, next, direction)
  {
    if direction == Reverse {
      ReversedLast(rs[..i + 1]);
      assert rs[..i + 1][..i] == rs[..i];
    }
  }

  lemma {:induction false} ReversedLast(rs: seq<Record>)
    requires rs != []
    ensures Reversed(rs) == [rs[|rs| - 1]] + Reversed(rs[..|rs| - 1])
  {
    if |rs| > 1 {
      ReversedLast(rs[1..]);
      assert rs[1..][..|rs| - 2] == rs[..|rs| - 1][1..];
    } else {
      assert rs[1..] == [];
    }
  }

  /** As CursorForEach, stopping after `count` records. */
  method CursorForCount(c: Cursor, count0: nat, direction: Direction) returns (ret: nat, visited: seq<Record>)
    requires c.Valid()
    modifies c`pos
    ensures c.Valid() && ret == |visited|
    ensures var all := Walk(c.records, old(c.pos), direction);
            visited == if count0 <= |all| then all[..count0] else all
  {
    WalkHere(c, direction);
    hide *;
    ret, visited := WalkSome(c, count0, direction);
  }

  /** The loop of it, in terms of where it starts. */
  method WalkSome(c: Cursor, count0: nat, direction: Direction) returns (ret: nat, visited: seq<Record>)
    requires c.Valid()
    modifies c`pos
    ensures c.Valid() && ret == |visited|
    ensures var all := Passed(c.records, StartIndex(|c.records|, old(c.Anchor()), direction), direction);
            visited == if count0 <= |all| then all[..count0] else all
  {
    hide Passed, Sorted;
    ghost var start := StartIndex(|c.records|, c.Anchor(), direction);
    PassedNone(c.records, direction);
    ghost var all := Passed(c.records, start, direction);
    var data := AdjustIfUnpositioned(c, direction);
    ret, visited := 0, [];
    var count := count0;
    while count != 0 && data.Some?
      invariant c.Valid() && ret == |visited| && count >= 0 && count + ret == count0
      invariant data.Some? ==> c.pos.On? && data.value == c.records[c.pos.i]
      invariant data.None? ==> visited == all
      invariant data.Some? ==> all == visited + Passed(c.records, c.pos.i, direction)
      decreases count
    {
      PassedStep(c.records, c.pos.i, direction);
      ret := ret + 1;
      count := count - 1;
      visited := visited + [data.value];
      data := c.Move(direction);
    }
    if data.Some? {
      assert all[..count0] == visited;
    }
  }

  function WithPrefix(rs: seq<Record>, prefix: Key): seq<Record> {
    Filter(rs, (r: Record) => StartsWith(r.key, prefix))
  }

  function WithoutPrefix(rs: seq<Record>, prefix: Key): seq<Record> {
    Filter(rs, (r: Record) => !StartsWith(r.key, prefix))
  }

  function Below(rs: seq<Record>, key: Key): seq<Record> {
    Filter(rs, (r: Record) => Less(r.key, key))
  }

  function NotBelow(rs: seq<Record>, key: Key): seq<Record> {
    Filter(rs, (r: Record) => !Less(r.key, key))
  }

  /** What a prefix walk visits. */
  function PrefixWalk(rs: seq<Record>, prefix: Key, direction: Direction): seq<Record> {
    var all := WithPrefix(rs, prefix);
    if direction == Forward || |all| <= 1 then all else all[..1]
  }

  /** Forward, the walker is given exactly the records with the prefix, once each and in key order. In reverse the
      move after the first of them leaves the prefix, so it is given at most that one. */
  method CursorForPrefix(c: Cursor, prefix: Key, direction: Direction) returns (ret: nat, visited: seq<Record>)
    requires c.Valid()
    modifies c`pos
    ensures c.Valid() && ret == |visited|
    ensures visited == PrefixWalk(c.records, prefix, direction)
  {
    hide Filter, Sorted, LowerBound, WithPrefix, WithoutPrefix, StartsWith;
    ghost var rs, lo := c.records, LowerBound(c.records, prefix);
    SliceGrows(rs, lo, lo);
    hide Slice;
    var data := c.LowerBoundAt(prefix);
    ret, visited := 0, [];
    while data.Some?
      invariant c.Valid() && c.records == rs && ret == |visited|
      invariant data.Some? ==> c.pos.On? && data.value == rs[c.pos.i]
      invariant lo + ret <= |rs| && visited == Slice(rs, lo, lo + ret)
      invariant direction == Forward || ret == 0 ==> if data.Some? then c.pos == On(lo + ret) else lo + ret == |rs|
      invariant direction == Reverse ==> ret <= 1
      invariant direction == Reverse && ret == 1 && data.Some? ==> lo > 0 && c.pos == On(lo - 1)
      invariant forall i | lo <= i < lo + ret :: StartsWith(rs[i].key, prefix)
      decreases if data.None? then 0 else if direction == Forward then 1 + |rs| - c.pos.i else 1 + c.pos.i
    {
      if !StartsWith(data.value.key, prefix) {
        break;
      }
      if direction == Reverse && ret == 1 {
        BeforePrefix(rs, prefix, lo - 1);
        assert false;
      }
      SliceGrows(rs, lo, lo + ret);
      ret := ret + 1;
      visited := visited + [data.value];
      data := c.Move(direction);
    }
    if direction == Forward {
      PrefixIsSlice(rs, prefix, lo + ret);
    } else {
      FirstWithPrefix(rs, prefix, ret);
    }
  }

  lemma BeforePrefix(rs: seq<Record>, prefix: Key, i: nat)
    requires i < LowerBound(rs, prefix)
    ensures !StartsWith(rs[i].key, prefix)
  {
    LowerBoundSplits(rs, prefix);
    if StartsWith(rs[i].key, prefix) {
      BelowPrefix(rs[i].key, prefix);
    }
  }

  lemma FirstWithPrefix(rs: seq<Record>, prefix: Key, n: nat)
    requires Sorted(rs) && n <= 1 && LowerBound(rs, prefix) + n <= |rs|
    requires var lo := LowerBound(rs, prefix);
             lo < |rs| ==> (n == 1 <==> StartsWith(rs[lo].key, prefix))
    ensures var all := WithPrefix(rs, prefix);
            Slice(rs, LowerBound(rs, prefix), LowerBound(rs, prefix) + n) == if |all| <= 1 then all else all[..1]
  {
    hide Sorted, LowerBound, WithPrefix, WithoutPrefix, StartsWith;
    var lo := LowerBound(rs, prefix);
    var end := PrefixEnd(rs, prefix);
    PrefixIsSlice(rs, prefix, end);
    if n == 1 {
      assert rs[lo..end][..1] == rs[lo..lo + 1];
    } else {
      assert end == lo;
    }
  }

  lemma PrefixIsSlice(rs: seq<Record>, prefix: Key, end: nat)
    requires Sorted(rs) && LowerBound(rs, prefix) <= end <= |rs|
    requires forall i | LowerBound(rs, prefix) <= i < end :: StartsWith(rs[i].key, prefix)
    requires end < |rs| ==> !StartsWith(rs[end].key, prefix)
    ensures WithPrefix(rs, prefix) == Slice(rs, LowerBound(rs, prefix), end)
    ensures WithoutPrefix(rs, prefix) == Cut(rs, LowerBound(rs, prefix), end)
  {
    PrefixContiguous(rs, prefix, end);
    FilterRange(rs, LowerBound(rs, prefix), end, (r: Record) => StartsWith(r.key, prefix));
    FilterOutside(rs, LowerBound(rs, prefix), end, (r: Record) => !StartsWith(r.key, prefix));
  }

  /** The first record from the lower bound on that does not start with the prefix. */
  lemma PrefixEnd(rs: seq<Record>, prefix: Key) returns (end: nat)
    ensures LowerBound(rs, prefix) <= end <= |rs|
    ensures forall i | LowerBound(rs, prefix) <= i < end :: StartsWith(rs[i].key, prefix)
    ensures end < |rs| ==> !StartsWith(rs[end].key, prefix)
  {
    end := LowerBound(rs, prefix);
    while end < |rs| && StartsWith(rs[end].key, prefix)
      invariant LowerBound(rs, prefix) <= end <= |rs|
      invariant forall i | LowerBound(rs, prefix) <= i < end :: StartsWith(rs[i].key, prefix)
    {
      end := end + 1;
    }
  }

  /** A reverse walk gives the records with the prefix backwards exactly when there is at most one of them. */
  lemma ReverseWalkComplete(rs: seq<Record>, prefix: Key)
    ensures PrefixWalk(rs, prefix, Reverse) == Reversed(WithPrefix(rs, prefix)) <==> |WithPrefix(rs, prefix)| <= 1
  {
    var all := WithPrefix(rs, prefix);
    hide WithPrefix;
    ReversedLength(all);
    if |all| == 1 {
      assert all[1..] == [];
      assert Reversed(all) == [all[0]];
    }
  }

  /** A table with two records under the prefix, of which the reverse walk visits the lesser only. */
  lemma ReverseWalkMissesOne() returns (rs: seq<Record>, prefix: Key)
    ensures Sorted(rs) && |WithPrefix(rs, prefix)| == 2
    ensures PrefixWalk(rs, prefix, Reverse) == [rs[0]] != Reversed(WithPrefix(rs, prefix))
  {
    prefix := [7];
    rs := [Record([7, 1], []), Record([7, 2], [])];
    assert Less([1], [2]) && [7, 1][1..] == [1] && [7, 2][1..] == [2];
    assert prefix <= [7, 1] && prefix <= [7, 2];
    FilterAll(rs, (r: Record) => StartsWith(r.key, prefix));
    ReverseWalkComplete(rs, prefix);
    assert rs[..1] == [rs[0]];
  }

  lemma {:induction false} ReversedLength(rs: seq<Record>)
    ensures |Reversed(rs)| == |rs|
  {
    if rs != [] {
      ReversedLength(rs[1..]);
    }
  }

  /** Removes exactly the records with the prefix and says how many they were. */
  method CursorErasePrefix(c: Cursor, prefix: Key) returns (ret: nat)
    requires c.Valid()
    modifies c
    ensures c.Valid()
    ensures c.records == WithoutPrefix(old(c.records), prefix)
    ensures ret == |WithPrefix(old(c.records), prefix)| == |old(c.records)| - |c.records|
  {
    hide Filter, Sorted, LowerBound, WithPrefix, WithoutPrefix, StartsWith, Cut;
    ghost var rs, lo := c.records, LowerBound(c.records, prefix);
    CutNothing(rs, lo);
    var data := c.LowerBoundAt(prefix);
    ret := 0;
    while data.Some?
      invariant c.Valid() && lo + ret <= |rs| && c.records == Cut(rs, lo, lo + ret) && |c.records| == |rs| - ret
      invariant if data.Some? then c.pos == On(lo) && lo < |c.records| && data.value == c.records[lo] else lo + ret == |rs|
      invariant forall i | lo <= i < lo + ret :: StartsWith(rs[i].key, prefix)
      decreases |c.records|, if data.Some? then 1 else 0
    {
      CutWidens(rs, lo, lo + ret);
      if !StartsWith(data.value.key, prefix) {
        break;
      }
      ret := ret + 1;
      CutWidens(rs, lo, lo + ret);
      c.Erase();
      data := c.Move(Forward);
    }
    PrefixIsSlice(rs, prefix, lo + ret);
  }

  /** Forward: keeps exactly the records below set_key. Reverse: keeps exactly those at or above it. */
  method CursorErase(c: Cursor, setKey: Key, direction: Direction) returns (ret: nat)
    requires c.Valid()
    modifies c
    ensures c.Valid() && ret == |old(c.records)| - |c.records|
    ensures c.records == if direction == Forward then Below(old(c.records), setKey) else NotBelow(old(c.records), setKey)
  {
    hide Filter, Sorted, LowerBound, Less, Below, NotBelow, Cut;
    ghost var rs, lo := c.records, LowerBound(c.records, setKey);
    CutNothing(rs, lo);
    var data: Option<Record>;
    if direction == Forward {
      data := c.LowerBoundAt(setKey);
    } else {
      data := StrictLowerBound(c, setKey);
    }
    ret := 0;
    while data.Some?
      invariant c.Valid() && ret <= (if direction == Forward then |rs| - lo else lo) && |c.records| == |rs| - ret
      invariant c.records == if direction == Forward then Cut(rs, lo, lo + ret) else Cut(rs, lo - ret, lo)
      invariant if data.None? then ret == (if direction == Forward then |rs| - lo else lo)
                else if direction == Forward then c.pos == On(lo) && lo + ret < |rs|
                else ret < lo && c.pos == On(lo - ret - 1)
      decreases |c.records|, if data.Some? then 1 else 0
    {
      if direction == Forward {
        CutWidens(rs, lo, lo + ret);
        CutWidens(rs, lo, lo + ret + 1);
      } else {
        CutWidens(rs, lo - ret, lo);
        CutWidens(rs, lo - ret - 1, lo);
      }
      ret := ret + 1;
      c.Erase();
      data := c.Move(direction);
    }
    BoundIsSlice(rs, setKey);
  }

  /** "Not below" is "equal or above": the order leaves nothing else. */
  lemma {:induction false} NotBelowIsAtOrAbove(rs: seq<Record>, key: Key)
    ensures NotBelow(rs, key) == Filter(rs, (r: Record) => r.key == key || Less(key, r.key))
  {
    if rs != [] {
      LessTotal(rs[0].key, key);
      NotBelowIsAtOrAbove(rs[1..], key);
    }
  }

  lemma BoundIsSlice(rs: seq<Record>, key: Key)
    requires Sorted(rs)
    ensures Below(rs, key) == Cut(rs, LowerBound(rs, key), |rs|)
    ensures NotBelow(rs, key) == Cut(rs, 0, LowerBound(rs, key))
  {
    var lo := LowerBound(rs, key);
    LowerBoundSplits(rs, key);
    hide Less, LowerBound, Sorted;
    forall i | lo <= i < |rs|
      ensures !Less(rs[i].key, key)
    {
      NotLessFrom(rs, key, i);
    }
    FilterOutside(rs, lo, |rs|, (r: Record) => Less(r.key, key));
    FilterOutside(rs, 0, lo, (r: Record) => !Less(r.key, key));
  }
}
