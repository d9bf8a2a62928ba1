/** Reference-counted locking of memory pages.

    The operating system is a Locker that grants or refuses each call as a script says; the script is
    arbitrary, so what is proved holds whatever calls are refused. */
module LockedPages {
  import opened Bytes
  import opened Bits

  // ---- pages ----

  /** What the constructor asserts of a page size. */
  predicate PageSize(ps: nat) {
    512 <= ps <= 0x4000_0000 && BitAnd(ps, ps - 1) == 0
  }

  predicate IsPage(page: nat, ps: nat)
    requires ps > 0
  {
    page % ps == 0
  }

  function RoundDown(address: nat, ps: nat): (page: nat)
    requires ps > 0
  {
    address - address % ps
  }

  lemma NextPage(a: nat, b: nat, ps: nat)
    requires ps > 0 && IsPage(a, ps)
    ensures IsPage(a + ps, ps)
    ensures IsPage(b, ps) && a < b ==> a + ps <= b
  {
    var i := a / ps;
    assert a + ps == ps * (i + 1) + 0;
    Residue(ps, i + 1, 0);
    if IsPage(b, ps) && a < b && b < a + ps {
      var j := b / ps;
      assert b == ps * j;
      if j <= i { MulMono(ps, j, i); } else { MulMono(ps, i + 1, j); }
    }
  }

  lemma RoundDownIsPage(address: nat, ps: nat)
    requires ps > 0
    ensures IsPage(RoundDown(address, ps), ps)
    ensures RoundDown(address, ps) <= address < RoundDown(address, ps) + ps
  {
    assert RoundDown(address, ps) == ps * (address / ps) + 0;
    Residue(ps, address / ps, 0);
  }

  /** The boundaries computed with the mask are the pages holding the first and the last byte. */
  lemma MaskIsRoundDown(address: nat, ps: nat)
    requires PageSize(ps) && address < TWO_64
    ensures BitAnd(address, TWO_64 - ps) == RoundDown(address, ps)
  {
    var k := PowerOfTwoTest(ps);
    Pow2At64();
    if k > 64 {
      Pow2Grows(64, k);
    }
    MaskRoundsDown(address, k, 64);
  }

  lemma {:induction false} Pow2Grows(a: nat, b: nat)
    requires a <= b
    ensures Pow2(a) <= Pow2(b)
  {
    if a < b {
      Pow2Grows(a, b - 1);
    }
  }

  datatype Range = Range(address: nat, size: nat)

  /** Some byte of the range lies on the page. */
  predicate Overlaps(r: Range, page: nat, ps: nat) {
    page < r.address + r.size && r.address < page + ps
  }

  /** A page is overlapped exactly when a byte of the range is one of the page's bytes. */
  lemma OverlapsMeans(r: Range, page: nat, ps: nat)
    requires ps > 0 && r.size > 0
    ensures Overlaps(r, page, ps) <==> exists b: nat :: OnBoth(r, page, ps, b)
  {
    assert OnBoth(r, page, ps, if page < r.address then r.address else page) <==> Overlaps(r, page, ps);
  }

  predicate OnBoth(r: Range, page: nat, ps: nat, b: nat) {
    r.address <= b < r.address + r.size && page <= b < page + ps
  }

  /** The pages from the first to the last boundary are exactly the overlapped ones. */
  lemma BoundariesAreOverlap(r: Range, page: nat, ps: nat)
    requires ps > 0 && r.size > 0 && IsPage(page, ps)
    ensures RoundDown(r.address, ps) <= page <= RoundDown(r.address + r.size - 1, ps) <==> Overlaps(r, page, ps)
  {
    var start, end := RoundDown(r.address, ps), RoundDown(r.address + r.size - 1, ps);
    RoundDownIsPage(r.address, ps);
    RoundDownIsPage(r.address + r.size - 1, ps);
    hide RoundDown;
    NextPage(page, start, ps);
    NextPage(end, page, ps);
    hide IsPage;
  }

  // ---- the operating system ----

  /** Refuses the n-th call unless grants(n). */
  class Locker {
    const grants: nat -> bool
    var calls: nat
    var held: set<nat>  // the pages the system holds locked for us

    constructor (grants: nat -> bool)
      ensures this.grants == grants && held == {}
    {
      this.grants := grants;
      calls := 0;
      held := {};
    }

    method Lock(page: nat) returns (ok: bool)
      modifies this
      ensures ok == grants(old(calls)) && calls == old(calls) + 1
      ensures held == if ok then old(held) + {page} else old(held)
    {
      ok := grants(calls);
      calls := calls + 1;
      if ok {
        held := held + {page};
      }
    }

    method Unlock(page: nat) returns (ok: bool)
      modifies this
      ensures ok == grants(old(calls)) && calls == old(calls) + 1
      ensures held == if ok then old(held) - {page} else old(held)
    {
      ok := grants(calls);
      calls := calls + 1;
      if ok {
        held := held - {page};
      }
    }

    ghost predicate NeverRefuses() {
      forall n :: grants(n)
    }
  }

  // ---- LockedPagesManagerBase ----

  function CountOf(m: map<nat, int>, page: nat): int {
    if page in m then m[page] else 0
  }

  /** The counts of the pages in [lo, hi) are each one higher, all others as before. */
  ghost predicate Raised(before: map<nat, int>, after: map<nat, int>, lo: nat, hi: nat, ps: nat)
    requires ps > 0
  {
    forall page: nat :: CountOf(after, page) == CountOf(before, page) + if lo <= page < hi && IsPage(page, ps) then 1 else 0
  }

  /** The counts of the locked pages in [lo, hi) are each one lower, all others as before. */
  ghost predicate Lowered(before: map<nat, int>, after: map<nat, int>, lo: nat, hi: nat, ps: nat)
    requires ps > 0
  {
    forall page: nat :: CountOf(after, page) ==
      CountOf(before, page) - if lo <= page < hi && IsPage(page, ps) && page in before then 1 else 0
  }

  // ---- the loop counter ----

  /** The loop counter after n rounds, in 64-bit arithmetic. */
  function PageAt(start: nat, n: nat, ps: nat): nat {
    if n == 0 then start else (PageAt(start, n - 1, ps) + ps) % TWO_64
  }

  /** How many of the first n rounds come to the page. */
  function Visits(start: nat, n: nat, page: nat, ps: nat): nat {
    if n == 0 then 0 else Visits(start, n - 1, page, ps) + if PageAt(start, n - 1, ps) == page then 1 else 0
  }

  /** n rounds of locking: every count has grown by the number of visits. */
  ghost predicate RaisedBy(before: map<nat, int>, after: map<nat, int>, start: nat, n: nat, ps: nat) {
    forall page: nat :: CountOf(after, page) == CountOf(before, page) + Visits(start, n, page, ps)
  }

  /** n rounds of unlocking: every count has fallen by the number of visits, but not below zero. */
  ghost predicate LoweredBy(before: map<nat, int>, after: map<nat, int>, start: nat, n: nat, ps: nat) {
    forall page: nat :: CountOf(after, page) ==
      if CountOf(before, page) <= Visits(start, n, page, ps) then 0 else CountOf(before, page) - Visits(start, n, page, ps)
  }

  /** The rounds before the n-th have all passed the test `page <= end`. */
  ghost predicate Passed(start: nat, end: nat, n: nat, ps: nat) {
    forall i: nat | i < n :: PageAt(start, i, ps) <= end
  }

  /** Where a loop from `start` to `end` stands when at most `steps` rounds are looked at: it has left for its
      return, with `ret`, or has not; `rounds` of them were completed. */
  ghost predicate LoopAt(start: nat, end: nat, ps: nat, steps: nat, left: bool, ret: bool, rounds: nat) {
    && rounds <= steps && Passed(start, end, rounds, ps)
    && (left && ret ==> PageAt(start, rounds, ps) > end)
    && (left && !ret ==> PageAt(start, rounds, ps) <= end)
    && (!left ==> ret && rounds == steps && PageAt(start, rounds, ps) <= end)
  }

  /** When the loop is left: without a refusal and given enough rounds, if and only if the range does not reach
      the last page of the address space. There, nothing but a refusal ends it. */
  lemma LeavesUnlessLastPage(start: nat, end: nat, ps: nat, steps: nat, left: bool, ret: bool, rounds: nat)
    requires PageSize(ps) && IsPage(start, ps) && IsPage(end, ps) && start < TWO_64 && end < TWO_64
    requires LoopAt(start, end, ps, steps, left, ret, rounds)
    ensures ret && start + steps * ps > end ==> (left <==> end + ps < TWO_64)
    ensures end + ps >= TWO_64 ==> (left <==> !ret)
    ensures end + ps < TWO_64 && start + steps * ps > end ==> left
  {
    if end + ps < TWO_64 {
      CounterRises(start, end, rounds, ps);
    } else {
      CounterIsPage(start, rounds, ps);
      hide PageAt;
      NotPastLast(PageAt(start, rounds, ps), end, ps);
    }
  }

  lemma {:induction false} CounterIsPage(start: nat, n: nat, ps: nat)
    requires PageSize(ps) && IsPage(start, ps) && start < TWO_64
    ensures IsPage(PageAt(start, n, ps), ps) && PageAt(start, n, ps) < TWO_64
  {
    if n > 0 {
      CounterIsPage(start, n - 1, ps);
      NextCounter(PageAt(start, n - 1, ps), ps);
    }
  }

  lemma RaiseOne(before: map<nat, int>, m: map<nat, int>, start: nat, n: nat, ps: nat)
    requires RaisedBy(before, m, start, n, ps)
    ensures var page := PageAt(start, n, ps);
            RaisedBy(before, m[page := CountOf(m, page) + 1], start, n + 1, ps)
  {
    hide PageAt;
  }

  /** The table with one lock of the page fewer, and without the page when that was the last. */
  function Dropped(m: map<nat, int>, page: nat): map<nat, int> {
    if CountOf(m, page) > 1 then m[page := CountOf(m, page) - 1] else m - {page}
  }

  lemma LowerOne(before: map<nat, int>, m: map<nat, int>, start: nat, n: nat, ps: nat)
    requires LoweredBy(before, m, start, n, ps)
    ensures LoweredBy(before, Dropped(m, PageAt(start, n, ps)), start, n + 1, ps)
  {
    hide PageAt;
  }

  /** Whatever the range, the counter stays a page and never passes the last page of the address space. */
  lemma NextCounter(page: nat, ps: nat)
    requires PageSize(ps) && IsPage(page, ps) && page < TWO_64
    ensures IsPage((page + ps) % TWO_64, ps) && page + ps <= TWO_64
  {
    LastPageOfAll(ps);
    ZeroIsPage(ps);
    assert ps > 0;
    hide PageSize, IsPage;
    NextPage(page, TWO_64, ps);
    Wrap(page + ps);
  }

  lemma Wrap(x: nat)
    requires x <= TWO_64
    ensures x % TWO_64 == if x == TWO_64 then 0 else x
  {}

  lemma ZeroIsPage(ps: nat)
    requires ps > 0
    ensures IsPage(0, ps)
  {
    Residue(ps, 0, 0);
  }

  lemma LastPageOfAll(ps: nat)
    requires PageSize(ps)
    ensures IsPage(TWO_64, ps)
  {
    var k := PowerOfTwoTest(ps);
    Pow2At64();
    if k > 64 {
      Pow2Grows(64, k);
    }
    var m := Pow2Divides(k, 64);
    Residue(ps, m, 0);
  }

  lemma {:induction false} Pow2Divides(k: nat, n: nat) returns (m: nat)
    requires k <= n
    ensures Pow2(n) == Pow2(k) * m
  {
    if k == n {
      m := 1;
    } else {
      m := Pow2Divides(k, n - 1);
      m := 2 * m;
    }
  }

  /** Below the last page nothing wraps: the counter goes up page by page and comes to each page once. */
  lemma {:induction false} NoWrap(start: nat, end: nat, n: nat, ps: nat)
    requires ps > 0 && IsPage(start, ps) && end + ps < TWO_64 && Passed(start, end, n, ps)
    ensures IsPage(PageAt(start, n, ps), ps) && PageAt(start, n, ps) >= start
    ensures n > 0 ==> PageAt(start, n, ps) == PageAt(start, n - 1, ps) + ps <= end + ps
    ensures forall q: nat :: Visits(start, n, q, ps) == if IsPage(q, ps) && start <= q < PageAt(start, n, ps) then 1 else 0
  {
    if n > 0 {
      var page := PageAt(start, n - 1, ps);
      NoWrap(start, end, n - 1, ps);
      assert page <= end && PageAt(start, n, ps) == (page + ps) % TWO_64;
      hide IsPage, PageAt, Visits, Passed;
      Wrap(page + ps);
      NextPage(page, page, ps);
      OneMoreVisit(start, n, ps);
    }
  }

  lemma {:induction false} CounterRises(start: nat, end: nat, n: nat, ps: nat)
    requires ps > 0 && IsPage(start, ps) && end + ps < TWO_64 && Passed(start, end, n, ps)
    ensures PageAt(start, n, ps) == start + n * ps
  {
    NoWrap(start, end, n, ps);
    if n > 0 {
      CounterRises(start, end, n - 1, ps);
      hide PageAt, IsPage, Passed;
      MulStep(n - 1, ps);
    }
  }

  lemma OneMoreVisit(start: nat, n: nat, ps: nat)
    requires ps > 0 && n > 0
    requires var page := PageAt(start, n - 1, ps);
             IsPage(page, ps) && start <= page && PageAt(start, n, ps) == page + ps
    requires forall q: nat :: Visits(start, n - 1, q, ps) == if IsPage(q, ps) && start <= q < PageAt(start, n - 1, ps) then 1 else 0
    ensures forall q: nat :: Visits(start, n, q, ps) == if IsPage(q, ps) && start <= q < PageAt(start, n, ps) then 1 else 0
  {
    hide IsPage, PageAt;
    var page := PageAt(start, n - 1, ps);
    forall q: nat
      ensures Visits(start, n, q, ps) == if IsPage(q, ps) && start <= q < page + ps then 1 else 0
    {
      assert Visits(start, n, q, ps) == Visits(start, n - 1, q, ps) + if page == q then 1 else 0;
      NextPage(page, q, ps);
    }
  }

  lemma MulStep(n: nat, ps: nat)
    ensures (n + 1) * ps == n * ps + ps
  {}

  /** A lock that has left its loop below the last page: exactly the pages up to the one reached count one more,
      and without a refusal those are the pages up to the last boundary. */
  lemma OrdinaryLock(before: map<nat, int>, m: map<nat, int>, start: nat, end: nat, n: nat, ps: nat)
    requires ps > 0 && IsPage(start, ps) && IsPage(end, ps) && end + ps < TWO_64
    requires Passed(start, end, n, ps) && RaisedBy(before, m, start, n, ps)
    ensures Raised(before, m, start, PageAt(start, n, ps), ps)
    ensures PageAt(start, n, ps) > end ==> Raised(before, m, start, end + ps, ps)
  {
    NoWrap(start, end, n, ps);
    hide PageAt, Visits, IsPage;
    if PageAt(start, n, ps) > end {
      NextPage(end, PageAt(start, n, ps), ps);
    }
  }

  lemma OrdinaryUnlock(before: map<nat, int>, m: map<nat, int>, start: nat, end: nat, n: nat, ps: nat)
    requires ps > 0 && IsPage(start, ps) && IsPage(end, ps) && end + ps < TWO_64
    requires Passed(start, end, n, ps) && LoweredBy(before, m, start, n, ps)
    requires forall page | page in before :: before[page] >= 1
    ensures Lowered(before, m, start, PageAt(start, n, ps), ps)
    ensures PageAt(start, n, ps) > end ==> Lowered(before, m, start, end + ps, ps)
  {
    NoWrap(start, end, n, ps);
    hide PageAt, Visits, IsPage;
    if PageAt(start, n, ps) > end {
      NextPage(end, PageAt(start, n, ps), ps);
    }
  }

  class Manager {
    const pageSize: nat
    const pageMask: nat
    const locker: Locker
    var lockedPages: map<nat, int>

    /** Whatever was refused: the table's keys are exactly the pages the system holds, each counted at least once. */
    ghost predicate Valid()
      reads this, locker
    {
      && PageSize(pageSize) && pageMask == TWO_64 - pageSize
      && lockedPages.Keys == locker.held
      && forall page | page in lockedPages :: lockedPages[page] >= 1
    }

    constructor (pageSize: nat, locker: Locker)
      requires PageSize(pageSize) && locker.held == {}  // ZEN_ASSERT
      ensures Valid() && lockedPages == map[] && this.locker == locker && this.pageSize == pageSize
    {
      this.pageSize := pageSize;
      pageMask := TWO_64 - 1 - (pageSize - 1);
      this.locker := locker;
      lockedPages := map[];
    }

    /** In 64-bit arithmetic. */
    function Boundaries(address: nat, size: nat): (nat, nat)
      requires address < TWO_64 && 0 < size < TWO_64
    {
      (BitAnd(address, pageMask), BitAnd((address + size - 1) % TWO_64, pageMask))
    }

    /** Both are pages, whether or not the range wraps around the address space. */
    lemma BoundariesArePages(address: nat, size: nat)
      requires PageSize(pageSize) && pageMask == TWO_64 - pageSize
      requires address < TWO_64 && 0 < size < TWO_64
      ensures var (start, end) := Boundaries(address, size);
              && start == RoundDown(address, pageSize) && IsPage(start, pageSize)
              && end == RoundDown((address + size - 1) % TWO_64, pageSize) && IsPage(end, pageSize)
    {
      hide BitAnd;
      MaskIsRoundDown(address, pageSize);
      MaskIsRoundDown((address + size - 1) % TWO_64, pageSize);
      RoundDownIsPage(address, pageSize);
      RoundDownIsPage((address + size - 1) % TWO_64, pageSize);
    }

    /** The call, cut off after `steps` rounds of its loop; `left` says that it has come to its return. Locks upward
        from the first page and stops at the first refusal, keeping what it has locked. For every range and every
        number of rounds the table is what the system holds. A range that reaches the last page of the address
        space makes the counter wrap; LeavesUnlessLastPage says what that means. */
    method LockRange(address: nat, size: nat, steps: nat) returns (left: bool, ret: bool, rounds: nat)
      requires Valid() && address < TWO_64 && size < TWO_64
      modifies this, locker
      ensures Valid()
      ensures address == 0 || size == 0 ==> left && !ret && lockedPages == old(lockedPages)
      ensures address != 0 && size != 0 ==>
                var (start, end) := Boundaries(address, size);
                && LoopAt(start, end, pageSize, steps, left, ret, rounds)
                && RaisedBy(old(lockedPages), lockedPages, start, rounds, pageSize)
                && (!ret ==> PageAt(start, rounds, pageSize) !in lockedPages)
      ensures locker.NeverRefuses() && address != 0 && size != 0 ==> ret
    {
      if address == 0 || size == 0 {
        return true, false, 0;
      }
      var (start, end) := Boundaries(address, size);
      BoundariesArePages(address, size);
      hide *;
      left, ret, rounds := LockPages(start, end, steps);
    }

    /** The loop of LockRange. */
    method LockPages(start: nat, end: nat, steps: nat) returns (left: bool, ret: bool, rounds: nat)
      requires Valid()
      modifies this, locker
      ensures Valid() && LoopAt(start, end, pageSize, steps, left, ret, rounds)
      ensures RaisedBy(old(lockedPages), lockedPages, start, rounds, pageSize)
      ensures !ret ==> PageAt(start, rounds, pageSize) !in lockedPages
      ensures locker.NeverRefuses() ==> ret
    {
      hide PageSize, RaisedBy;
      ghost var before := lockedPages;
      RaisedNone(before, start, pageSize);
      hide Valid;
      ret, rounds := true, 0;
      var page := start;
      while page <= end && rounds < steps
        invariant Valid() && ret && rounds <= steps && page == PageAt(start, rounds, pageSize)
        invariant Passed(start, end, rounds, pageSize)
        invariant RaisedBy(before, lockedPages, start, rounds, pageSize)
        decreases steps - rounds
      {
        RaiseOne(before, lockedPages, start, rounds, pageSize);
        var ok := LockPage(page);
        if !ok {
          return true, false, rounds;
        }
        page := (page + pageSize) % TWO_64;
        rounds := rounds + 1;
      }
      left := page > end;
    }

    /** One round: count the page, asking the system when it is new. */
    method LockPage(page: nat) returns (ok: bool)
      requires Valid()
      modifies this, locker
      ensures Valid() && (locker.NeverRefuses() ==> ok)
      ensures ok ==> lockedPages == old(lockedPages)[page := CountOf(old(lockedPages), page) + 1]
      ensures !ok ==> lockedPages == old(lockedPages) && page !in lockedPages
    {
      hide PageSize;
      if page in lockedPages {
        lockedPages := lockedPages[page := lockedPages[page] + 1];
        return true;
      }
      ok := locker.Lock(page);
      if ok {
        lockedPages := lockedPages[page := 1];
      }
    }

    /** The call, cut off after `steps` rounds of its loop. Unlocks upward from the first page, passing over pages
        not in the table, and stops at the first refusal with that page's count restored. */
    method UnlockRange(address: nat, size: nat, steps: nat) returns (left: bool, ret: bool, rounds: nat)
      requires Valid() && address < TWO_64 && size < TWO_64
      modifies this, locker
      ensures Valid()
      ensures address == 0 || size == 0 ==> left && !ret && lockedPages == old(lockedPages)
      ensures address != 0 && size != 0 ==>
                var (start, end) := Boundaries(address, size);
                && LoopAt(start, end, pageSize, steps, left, ret, rounds)
                && LoweredBy(old(lockedPages), lockedPages, start, rounds, pageSize)
                && (!ret ==> CountOf(lockedPages, PageAt(start, rounds, pageSize)) == 1)
      ensures locker.NeverRefuses() && address != 0 && size != 0 ==> ret
    {
      if address == 0 || size == 0 {
        return true, false, 0;
      }
      var (start, end) := Boundaries(address, size);
      BoundariesArePages(address, size);
      hide *;
      left, ret, rounds := UnlockPages(start, end, steps);
    }

    /** The loop of UnlockRange. */
    method UnlockPages(start: nat, end: nat, steps: nat) returns (left: bool, ret: bool, rounds: nat)
      requires Valid()
      modifies this, locker
      ensures Valid() && LoopAt(start, end, pageSize, steps, left, ret, rounds)
      ensures LoweredBy(old(lockedPages), lockedPages, start, rounds, pageSize)
      ensures !ret ==> CountOf(lockedPages, PageAt(start, rounds, pageSize)) == 1
      ensures locker.NeverRefuses() ==> ret
    {
      hide PageSize, LoweredBy;
      ghost var before := lockedPages;
      LoweredNone(before, start, pageSize);
      hide Valid;
      ret, rounds := true, 0;
      var page := start;
      while page <= end && rounds < steps
        invariant Valid() && ret && rounds <= steps && page == PageAt(start, rounds, pageSize)
        invariant Passed(start, end, rounds, pageSize)
        invariant LoweredBy(before, lockedPages, start, rounds, pageSize)
        decreases steps - rounds
      {
        LowerOne(before, lockedPages, start, rounds, pageSize);
        var ok := UnlockPage(page);
        if !ok {
          return true, false, rounds;
        }
        page := (page + pageSize) % TWO_64;
        rounds := rounds + 1;
      }
      left := page > end;
    }

    /** One round: pages not previously locked are passed over. */
    method UnlockPage(page: nat) returns (ok: bool)
      requires Valid()
      modifies this, locker
      ensures Valid() && (locker.NeverRefuses() ==> ok)
      ensures ok ==> lockedPages == Dropped(old(lockedPages), page)
      ensures !ok ==> lockedPages == old(lockedPages) && CountOf(lockedPages, page) == 1
    {
      ok := true;
      if page in lockedPages {
        ok := Release(page);
      } else {
        assert lockedPages - {page} == lockedPages;
      }
    }

    /** One page of an unlock: its last lock also asks the system, and is restored when refused. */
    method Release(page: nat) returns (ok: bool)
      requires Valid() && page in lockedPages
      modifies this, locker
      ensures Valid() && (locker.NeverRefuses() ==> ok)
      ensures ok && old(lockedPages)[page] > 1 ==> lockedPages == old(lockedPages)[page := old(lockedPages)[page] - 1]
      ensures ok && old(lockedPages)[page] == 1 ==> lockedPages == old(lockedPages) - {page}
      ensures !ok ==> lockedPages == old(lockedPages) && lockedPages[page] == 1
    {
      hide PageSize;
      assert lockedPages[page] > 0;  // ZEN_ASSERT
      ok := true;
      lockedPages := lockedPages[page := lockedPages[page] - 1];
      if lockedPages[page] == 0 {
        ok := locker.Unlock(page);
        if !ok {
          lockedPages := lockedPages[page := lockedPages[page] + 1];
          return;
        }
        lockedPages := lockedPages - {page};
      }
    }

    /** Whether the page of that address is counted. */
    method Contains(address: nat) returns (r: bool)
      requires Valid() && address < TWO_64
      ensures r <==> RoundDown(address, pageSize) in lockedPages
    {
      MaskIsRoundDown(address, pageSize);
      r := BitAnd(address, pageMask) in lockedPages;
    }

    /** One unlock per page whatever its count, in address order; refused pages stay as they were. */
    method Clear()
      requires Valid()
      modifies this, locker
      ensures Valid()
      ensures forall page | page in lockedPages :: page in old(lockedPages) && lockedPages[page] == old(lockedPages)[page]
      ensures locker.calls == old(locker.calls) + |old(lockedPages)|
      ensures locker.NeverRefuses() ==> lockedPages == map[]
    {
      hide PageSize;
      ghost var before := lockedPages;
      var rest := lockedPages.Keys;
      while rest != {}
        invariant Valid() && rest <= lockedPages.Keys
        invariant forall page | page in lockedPages :: page in before && lockedPages[page] == before[page]
        invariant locker.calls + |rest| == old(locker.calls) + |before|
        invariant locker.NeverRefuses() ==> lockedPages.Keys == rest
        decreases |rest|
      {
        var page := Least(rest);
        rest := rest - {page};
        var ok := locker.Unlock(page);
        if ok {
          lockedPages := lockedPages - {page};
        }
      }
    }
  }

  /** Where an ordered map's iterator goes next. */
  method Least(s: set<nat>) returns (x: nat)
    requires s != {}
    ensures x in s && forall y | y in s :: x <= y
  {
    LeastExists(s);
    x :| x in s && forall y | y in s :: x <= y;
  }

  lemma RaisedNone(m: map<nat, int>, start: nat, ps: nat)
    ensures RaisedBy(m, m, start, 0, ps)
  {}

  lemma LoweredNone(m: map<nat, int>, start: nat, ps: nat)
    requires forall page | page in m :: m[page] >= 1
    ensures LoweredBy(m, m, start, 0, ps)
  {}

  lemma NotPastLast(page: nat, end: nat, ps: nat)
    requires ps > 0 && IsPage(page, ps) && IsPage(end, ps) && page < TWO_64 && end + ps >= TWO_64
    ensures page <= end
  {
    NextPage(end, page, ps);
  }

  lemma {:induction false} LeastExists(s: set<nat>)
    requires s != {}
    ensures exists x :: x in s && forall y | y in s :: x <= y
  {
    var x :| x in s;
    if s - {x} == {} {
      assert forall y | y in s :: y == x by {
        forall y | y in s
          ensures y == x
        {
          assert y !in s - {x};
        }
      }
    } else {
      LeastExists(s - {x});
      var y :| y in s - {x} && forall z | z in s - {x} :: y <= z;
      LeastOf(s, x, y);
    }
  }

  lemma LeastOf(s: set<nat>, x: nat, y: nat)
    requires x in s && y in s && forall z | z in s - {x} :: y <= z
    ensures exists least :: least in s && forall z | z in s :: least <= z
  {
    var least := if x <= y then x else y;
    forall z | z in s
      ensures least <= z
    {
      assert z == x || z in s - {x};
    }
    assert least in s;
  }

  // ---- a history of matched calls, never refused ----

  datatype Op = Lock(range: Range) | Unlock(range: Range) | Clear

  function CountOverlaps(live: seq<Range>, page: nat, ps: nat): nat {
    if live == [] then 0 else CountOverlaps(live[1..], page, ps) + if Overlaps(live[0], page, ps) then 1 else 0
  }

  /** The ranges still locked after an operation: unlocking releases one earlier lock of the same range. */
  function LiveAfter(live: seq<Range>, op: Op): seq<Range> {
    match op
    case Lock(r) => [r] + live
    case Unlock(r) => Without(live, r)
    case Clear => []
  }

  function Without(live: seq<Range>, r: Range): seq<Range> {
    if live == [] then [] else if live[0] == r then live[1..] else [live[0]] + Without(live[1..], r)
  }

  /** A range of real memory that does not reach the last page. */
  predicate Ordinary(r: Range, ps: nat)
    requires ps > 0
  {
    0 < r.address && 0 < r.size && r.address + r.size - 1 + ps < TWO_64
  }

  ghost predicate Matched(live: seq<Range>, ops: seq<Op>, ps: nat)
    requires ps > 0
    decreases |ops|
  {
    ops != [] ==>
      && (ops[0].Lock? ==> Ordinary(ops[0].range, ps))
      && (ops[0].Unlock? ==> ops[0].range in live)
      && Matched(LiveAfter(live, ops[0]), ops[1..], ps)
  }

  function LiveAtEnd(live: seq<Range>, ops: seq<Op>): seq<Range>
    decreases |ops|
  {
    if ops == [] then live else LiveAtEnd(LiveAfter(live, ops[0]), ops[1..])
  }

  /** The table counts, for every page, the live ranges that overlap it. */
  ghost predicate Counts(m: map<nat, int>, live: seq<Range>, ps: nat)
    requires ps > 0
  {
    && (forall r | r in live :: Ordinary(r, ps))
    && forall page: nat :: CountOf(m, page) == if IsPage(page, ps) then CountOverlaps(live, page, ps) else 0
  }

  lemma {:induction false} CountWithout(live: seq<Range>, r: Range, page: nat, ps: nat)
    requires r in live
    ensures CountOverlaps(live, page, ps) == CountOverlaps(Without(live, r), page, ps) + if Overlaps(r, page, ps) then 1 else 0
    ensures forall x | x in Without(live, r) :: x in live
  {
    if live[0] != r {
      CountWithout(live[1..], r, page, ps);
      var w := [live[0]] + Without(live[1..], r);
      assert w[1..] == Without(live[1..], r);
    }
  }

  lemma CountsLocked(before: map<nat, int>, m: map<nat, int>, live: seq<Range>, r: Range, ps: nat)
    requires ps > 0 && Counts(before, live, ps) && Ordinary(r, ps)
    requires Raised(before, m, RoundDown(r.address, ps), RoundDown(r.address + r.size - 1, ps) + ps, ps)
    ensures Counts(m, [r] + live, ps)
  {
    assert ([r] + live)[1..] == live;
    forall page: nat
      ensures CountOf(m, page) == if IsPage(page, ps) then CountOverlaps([r] + live, page, ps) else 0
    {
      LastPage(r, page, ps);
    }
  }

  /** Below the end of the last page means not above the last page. */
  lemma LastPage(r: Range, page: nat, ps: nat)
    requires ps > 0 && r.size > 0
    ensures IsPage(page, ps) ==>
              (RoundDown(r.address, ps) <= page < RoundDown(r.address + r.size - 1, ps) + ps <==> Overlaps(r, page, ps))
  {
    if IsPage(page, ps) {
      BoundariesAreOverlap(r, page, ps);
      RoundDownIsPage(r.address + r.size - 1, ps);
      NextPage(RoundDown(r.address + r.size - 1, ps), page, ps);
    }
  }

  lemma CountsUnlocked(before: map<nat, int>, m: map<nat, int>, live: seq<Range>, r: Range, ps: nat)
    requires ps > 0 && Counts(before, live, ps) && r in live
    requires Lowered(before, m, RoundDown(r.address, ps), RoundDown(r.address + r.size - 1, ps) + ps, ps)
    ensures Counts(m, Without(live, r), ps)
  {
    CountWithout(live, r, 0, ps);
    forall page: nat
      ensures CountOf(m, page) == if IsPage(page, ps) then CountOverlaps(Without(live, r), page, ps) else 0
    {
      CountWithout(live, r, page, ps);
      LastPage(r, page, ps);
    }
  }

  method RunOne(m: Manager, op: Op, ghost live: seq<Range>)
    requires m.Valid() && m.locker.NeverRefuses() && Counts(m.lockedPages, live, m.pageSize)
    requires op.Lock? ==> Ordinary(op.range, m.pageSize)
    requires op.Unlock? ==> op.range in live
    modifies m, m.locker
    ensures m.Valid() && Counts(m.lockedPages, LiveAfter(live, op), m.pageSize)
  {
    var ps := m.pageSize;
    assert ps > 0;
    CountsEmpty(ps);
    ghost var before := m.lockedPages;
    hide Counts, Raised, Lowered, IsPage, BitAnd, PageSize, RoundDown, Overlaps, Ordinary, RaisedBy, LoweredBy, PageAt;
    match op
    case Lock(r) =>
      LockOne(m, r);
      CountsLocked(before, m.lockedPages, live, r, ps);
    case Unlock(r) =>
      CountsOrdinary(before, live, r, ps);
      UnlockOne(m, r);
      CountsUnlocked(before, m.lockedPages, live, r, ps);
    case Clear =>
      m.Clear();
  }

  /** The loop over an ordinary range leaves within these rounds, and without a refusal only behind the end. */
  lemma OrdinaryLeaves(r: Range, ps: nat, left: bool, ret: bool, rounds: nat)
    requires PageSize(ps) && Ordinary(r, ps) && ret
    requires LoopAt(RoundDown(r.address, ps), RoundDown(r.address + r.size - 1, ps), ps, r.size + 1, left, ret, rounds)
    ensures var start, end := RoundDown(r.address, ps), RoundDown(r.address + r.size - 1, ps);
            && IsPage(start, ps) && IsPage(end, ps) && end + ps < TWO_64
            && left && Passed(start, end, rounds, ps) && PageAt(start, rounds, ps) > end
  {
    EndBelow(r, ps);
    EnoughSteps(r, ps);
    RoundDownIsPage(r.address, ps);
    RoundDownIsPage(r.address + r.size - 1, ps);
    hide RoundDown, IsPage, PageSize, PageAt, Passed;
    LeavesUnlessLastPage(RoundDown(r.address, ps), RoundDown(r.address + r.size - 1, ps), ps, r.size + 1, left, ret, rounds);
  }

  lemma PositivePage(ps: nat)
    requires PageSize(ps)
    ensures ps > 0
  {}

  /** A lock of an ordinary range comes to its return, and raises exactly the pages between the boundaries. */
  method LockOne(m: Manager, r: Range)
    requires m.Valid() && m.locker.NeverRefuses() && Ordinary(r, m.pageSize)
    modifies m, m.locker
    ensures m.Valid()
    ensures Raised(old(m.lockedPages), m.lockedPages, RoundDown(r.address, m.pageSize), RoundDown(r.address + r.size - 1, m.pageSize) + m.pageSize, m.pageSize)
  {
    hide BitAnd, IsPage, RoundDown, Ordinary, PageSize, Raised, RaisedBy, Lowered, LoweredBy, LoopAt, PageAt, Passed;
    var ps := m.pageSize;
    assert ps > 0 by { PositivePage(ps); }
    EndBelow(r, ps);
    m.BoundariesArePages(r.address, r.size);
    assert PageSize(ps);
    hide *;
    var left, ret, rounds := m.LockRange(r.address, r.size, r.size + 1);
    OrdinaryLeaves(r, ps, left, ret, rounds);
    OrdinaryLock(old(m.lockedPages), m.lockedPages, RoundDown(r.address, ps), RoundDown(r.address + r.size - 1, ps), rounds, ps);
  }

  method UnlockOne(m: Manager, r: Range)
    requires m.Valid() && m.locker.NeverRefuses() && Ordinary(r, m.pageSize)
    modifies m, m.locker
    ensures m.Valid()
    ensures Lowered(old(m.lockedPages), m.lockedPages, RoundDown(r.address, m.pageSize), RoundDown(r.address + r.size - 1, m.pageSize) + m.pageSize, m.pageSize)
  {
    hide BitAnd, IsPage, RoundDown, Ordinary, PageSize, Raised, RaisedBy, Lowered, LoweredBy, LoopAt, PageAt, Passed;
    var ps := m.pageSize;
    assert ps > 0 by { PositivePage(ps); }
    EndBelow(r, ps);
    m.BoundariesArePages(r.address, r.size);
    assert PageSize(ps) && forall page | page in m.lockedPages :: m.lockedPages[page] >= 1;
    hide *;
    var left, ret, rounds := m.UnlockRange(r.address, r.size, r.size + 1);
    OrdinaryLeaves(r, ps, left, ret, rounds);
    OrdinaryUnlock(old(m.lockedPages), m.lockedPages, RoundDown(r.address, ps), RoundDown(r.address + r.size - 1, ps), rounds, ps);
  }

  /** Run any matched history on a fresh manager whose locker never refuses: every page's count is the number
      of live ranges overlapping it, and when all are released nothing is left locked. */
  method RunMatched(m: Manager, ops: seq<Op>)
    requires m.Valid() && m.lockedPages == map[] && m.locker.NeverRefuses() && Matched([], ops, m.pageSize)
    modifies m, m.locker
    ensures m.Valid() && Counts(m.lockedPages, LiveAtEnd([], ops), m.pageSize)
    ensures LiveAtEnd([], ops) == [] ==> m.lockedPages == map[] && m.locker.held == {}
  {
    var ps := m.pageSize;
    assert ps > 0;
    hide Counts, Raised, Lowered, IsPage, BitAnd, PageSize, RoundDown, Overlaps, Ordinary;
    CountsEmpty(ps);
    ghost var live := [];
    var i := 0;
    assert ops[0..] == ops;
    while i < |ops|
      invariant 0 <= i <= |ops| && m.Valid() && m.locker.NeverRefuses()
      invariant Counts(m.lockedPages, live, ps) && Matched(live, ops[i..], ps)
      invariant LiveAtEnd(live, ops[i..]) == LiveAtEnd([], ops)
      decreases |ops| - i
    {
      assert ops[i..][0] == ops[i] && ops[i..][1..] == ops[i + 1..];
      RunOne(m, ops[i], live);
      live := LiveAfter(live, ops[i]);
      i := i + 1;
    }
    assert ops[i..] == [];
    if live == [] {
      NothingCounted(m.lockedPages, ps);
    }
  }

  lemma CountsEmpty(ps: nat)
    requires ps > 0
    ensures Counts(map[], [], ps)
  {}

  lemma CountsOrdinary(m: map<nat, int>, live: seq<Range>, r: Range, ps: nat)
    requires ps > 0 && Counts(m, live, ps) && r in live
    ensures Ordinary(r, ps)
  {}

  lemma NothingCounted(m: map<nat, int>, ps: nat)
    requires ps > 0 && Counts(m, [], ps) && forall page | page in m :: m[page] >= 1
    ensures m == map[]
  {
    assert forall page | page in m :: m[page] == CountOf(m, page) == 0;
    assert m.Keys == {};
  }

  /** More rounds than a range below the last page can need. */
  lemma EnoughSteps(r: Range, ps: nat)
    requires ps > 0 && r.size > 0
    ensures RoundDown(r.address, ps) + (r.size + 1) * ps > RoundDown(r.address + r.size - 1, ps)
  {
    RoundDownIsPage(r.address, ps);
    RoundDownIsPage(r.address + r.size - 1, ps);
    hide RoundDown, IsPage;
    MulStep(r.size, ps);
    AtLeast(r.size, ps);
  }

  lemma AtLeast(n: nat, ps: nat)
    requires ps > 0
    ensures n <= n * ps
  {
    MulMono(n, 1, ps);
  }

  lemma EndBelow(r: Range, ps: nat)
    requires ps > 0 && Ordinary(r, ps)
    ensures 0 < r.address < TWO_64 && 0 < r.size < TWO_64
    ensures (r.address + r.size - 1) % TWO_64 == r.address + r.size - 1
    ensures RoundDown(r.address + r.size - 1, ps) + ps < TWO_64
  {}

  /** One byte on the last page of the address space, and a system that refuses nothing: after any number of rounds
      the lock has not come to its return. */
  method LastPageNeverLeaves(m: Manager, steps: nat) returns (left: bool)
    requires m.Valid() && m.locker.NeverRefuses()
    modifies m, m.locker
    ensures m.Valid() && !left
  {
    var ps := m.pageSize;
    PositivePage(ps);
    var address := TWO_64 - ps;
    PageBelow(ps);
    m.BoundariesArePages(address, 1);
    hide BitAnd, PageSize, IsPage, LoopAt, RaisedBy;
    var (start, end) := m.Boundaries(address, 1);
    assert end == address by { OnPage(address, ps); }
    var ret, rounds;
    left, ret, rounds := m.LockRange(address, 1, steps);
    LeavesUnlessLastPage(start, end, ps, steps, left, ret, rounds);
  }

  lemma PageBelow(ps: nat)
    requires PageSize(ps)
    ensures ps < TWO_64 && IsPage(TWO_64 - ps, ps)
  {
    LastPageOfAll(ps);
    assert 0 < ps < TWO_64;
    hide PageSize, IsPage;
    PreviousPage(TWO_64, ps);
  }

  lemma PreviousPage(page: nat, ps: nat)
    requires 0 < ps <= page && IsPage(page, ps)
    ensures IsPage(page - ps, ps)
  {
    var q, r := (page - ps) / ps, (page - ps) % ps;
    assert page - ps == ps * q + r;
    OneMore(ps, q);
    Residue(ps, q + 1, r);
  }

  lemma OneMore(ps: nat, q: nat)
    ensures ps * (q + 1) == ps * q + ps
  {}

  lemma OnPage(page: nat, ps: nat)
    requires ps > 0 && IsPage(page, ps) && page < TWO_64
    ensures RoundDown((page + 1 - 1) % TWO_64, ps) == page
  {}
}
