/** Recycled contexts: the hashers of one class on one thread, and the pool their contexts come from.

    Contexts are memory cells that several hashers reach one after another, so the question is whether a
    hasher can ever see another's data. A world maps live hashers to context cells and cells to contents; a
    run is any sequence of constructing, initialising, feeding, finalising and destroying hashers. */
module ContextPool {
  import opened Bytes
  import opened Options
  import opened Padding
  import opened Digest
  import opened Hashers

  // ---- the pool: a stack, for the class below and for the runs after it ----

  function Pushed<T>(pool: seq<T>, t: T): seq<T> {
    pool + [t]
  }

  function Popped<T>(pool: seq<T>): (Option<T>, seq<T>) {
    if pool == [] then (None, pool) else (Some(pool[|pool| - 1]), pool[..|pool| - 1])
  }

  /** What was added last is acquired first, and the pool is then as it was before. */
  lemma LastInFirstOut<T>(pool: seq<T>, t: T)
    ensures Popped(Pushed(pool, t)) == (Some(t), pool)
  {
    assert Pushed(pool, t)[..|pool|] == pool;
  }

  /** zen::ObjectPool: a stack that owns what it holds. */
  class ObjectPool<T> {
    var pool: seq<T>

    constructor ()
      ensures pool == []
    {
      pool := [];
    }

    method Add(t: T)
      modifies this
      ensures pool == Pushed(old(pool), t)
    {
      pool := pool + [t];
    }

    /** Hands out the most recently added object; nothing when empty. */
    method Acquire() returns (r: Option<T>)
      modifies this
      ensures (r, pool) == Popped(old(pool))
    {
      if |pool| == 0 {
        return None;
      }
      r := Some(pool[|pool| - 1]);
      pool := pool[..|pool| - 1];
    }
  }

  type HasherId = nat
  type ContextId = nat

  /** The members of a live hasher: its context pointer, the filled part of its buffer, its byte counter. */
  datatype Local = Local(ctx: ContextId, pending: seq<byte>, total: nat)

  /** `memory` holds every context ever allocated. */
  datatype World = World(live: map<HasherId, Local>, memory: map<ContextId, seq<nat>>, pool: seq<ContextId>)

  datatype Event =
    | Construct(h: HasherId)
    | Init(h: HasherId)
    | Update(h: HasherId, data: seq<byte>)
    | Finalize(h: HasherId)
    | Destroy(h: HasherId)

  datatype Output = Output(h: HasherId, digest: seq<byte>)

  const EMPTY := World(map[], map[], [])

  ghost predicate Enabled(w: World, e: Event) {
    if e.Construct? then e.h !in w.live else e.h in w.live
  }

  /** What one update does to a context and to the buffered tail: complete blocks are compressed, the rest kept. */
  function Feed(alg: Algorithm, ctx: seq<nat>, pending: seq<byte>, data: seq<byte>): (seq<nat>, seq<byte>)
    requires Known(alg.variant)
  {
    var all := pending + data;
    (Fold(alg, ctx, all), all[|all| - |all| % alg.variant.blockSize..])
  }

  /** One update of hasher h, in place in its context cell. */
  ghost function Fed(alg: Algorithm, w: World, h: HasherId, data: seq<byte>): World
    requires Known(alg.variant) && h in w.live && w.live[h].ctx in w.memory
  {
    var local := w.live[h];
    var (ctx, pending) := Feed(alg, w.memory[local.ctx], local.pending, data);
    w.(live := w.live[h := Local(local.ctx, pending, (local.total + |data|) % TWO_64)],
       memory := w.memory[local.ctx := ctx])
  }

  /** init_context with a context in hand. */
  ghost function Initialised(alg: Algorithm, w: World, h: HasherId, c: ContextId): World {
    w.(live := w.live[h := Local(c, [], 0)], memory := w.memory[c := alg.iv])
  }

  ghost predicate HeldBy(w: World, h: HasherId, c: ContextId) {
    h in w.live && w.live[h].ctx == c
  }

  /** Every context belongs to exactly one live hasher or to one place in the pool. */
  ghost predicate Owned(w: World) {
    && (forall h | h in w.live :: w.live[h].ctx in w.memory && w.live[h].ctx !in w.pool)
    && (forall g, h | g in w.live && h in w.live && g != h :: w.live[g].ctx != w.live[h].ctx)
    && (forall c | c in w.pool :: c in w.memory)
    && (forall i, j | 0 <= i < j < |w.pool| :: w.pool[i] != w.pool[j])
    && (forall c | c in w.memory :: c in w.pool || exists h :: HeldBy(w, h, c))
  }

  /** make_unique returns a cell not in use; which one does not matter. */
  ghost function FreshContext(w: World): (c: ContextId)
    ensures c !in w.memory
  {
    MaxBound(w.memory.Keys);
    var c :| c !in w.memory;
    c
  }

  lemma {:induction false} MaxBound(s: set<nat>)
    ensures exists c: nat :: c !in s
  {
    var bound := Bound(s);
    assert bound !in s;
  }

  lemma {:induction false} Bound(s: set<nat>) returns (bound: nat)
    ensures forall x | x in s :: x < bound
  {
    if s == {} {
      bound := 0;
    } else {
      var x :| x in s;
      var b := Bound(s - {x});
      bound := if b > x then b else x + 1;
      forall y | y in s
        ensures y < bound
      {
        assert y == x || y in s - {x};
      }
    }
  }

  /** The context a new hasher gets: the pool's, or a new one when the pool has none. */
  ghost function Taken(w: World): (ContextId, World) {
    var (c, rest) := Popped(w.pool);
    if c.None? then (FreshContext(w), w) else (c.value, w.(pool := rest))
  }

  /** One event, with what it returns to the caller. */
  ghost function Step(alg: Algorithm, w: World, e: Event): (World, seq<Output>)
    requires Known(alg.variant) && Enabled(w, e) && Owned(w)
  {
    match e
    case Construct(h) =>
      var (c, w1) := Taken(w);
      (Initialised(alg, w1, h, c), [])
    case Init(h) =>
      (Initialised(alg, w, h, w.live[h].ctx), [])
    case Update(h, data) =>
      (Fed(alg, w, h, data), [])
    case Finalize(h) =>
      var w' := Fed(alg, w, h, Suffix(alg.variant, w.live[h].total));
      (w', [Output(h, Serialize(alg.variant, w'.memory[w'.live[h].ctx]))])
    case Destroy(h) =>
      (w.(live := w.live - {h}, pool := Pushed(w.pool, w.live[h].ctx)), [])
  }

  // ---- the same run without contexts: each hasher is just the bytes fed since its last init ----

  type Messages = map<HasherId, seq<byte>>

  ghost predicate PlainEnabled(ms: Messages, e: Event) {
    if e.Construct? then e.h !in ms else e.h in ms
  }

  ghost function PlainStep(alg: Algorithm, ms: Messages, e: Event): (Messages, seq<Output>)
    requires Known(alg.variant) && PlainEnabled(ms, e)
  {
    match e
    case Construct(h) => (ms[h := []], [])
    case Init(h) => (ms[h := []], [])
    case Update(h, data) => (ms[h := ms[h] + data], [])
    case Finalize(h) => (ms[h := Padded(alg.variant, ms[h])], [Output(h, Hash(alg, ms[h]))])
    case Destroy(h) => (ms - {h}, [])
  }

  /** Every live hasher's context and buffer are what its own bytes alone make of them. */
  ghost predicate Represents(alg: Algorithm, w: World, ms: Messages)
    requires Known(alg.variant)
  {
    && w.live.Keys == ms.Keys
    && forall h | h in w.live :: w.live[h].ctx in w.memory
         && Absorbed(alg, ms[h], w.live[h].pending, w.live[h].total, w.memory[w.live[h].ctx])
  }

  lemma FeedAbsorbs(alg: Algorithm, m: seq<byte>, pending: seq<byte>, total: nat, ctx: seq<nat>, data: seq<byte>)
    requires Known(alg.variant) && Absorbed(alg, m, pending, total, ctx)
    ensures var (ctx', pending') := Feed(alg, ctx, pending, data);
            Absorbed(alg, m + data, pending', (total + |data|) % TWO_64, ctx')
  {
    var base := BaseOf(alg, m, pending, total, ctx);
    hide Fold, Absorbed, Known;
    assert m + data == base + (pending + data);
    FoldResumes(alg, base, pending, data);
    SumResidue(alg.variant, |base|, |pending + data|);
    WrapSum(|m|, |data|);
    var k := |pending + data| % alg.variant.blockSize;
    assert k <= |pending + data| && k == |m + data| % alg.variant.blockSize;
    BaseAndAll(alg, m + data, base, pending + data, k, (total + |data|) % TWO_64, Fold(alg, ctx, pending + data));
  }

  /** Feed is what Hasher.Update does: its contract leaves no other outcome. */
  lemma UpdateIsFeed(alg: Algorithm, m: seq<byte>, pending: seq<byte>, total: nat, ctx: seq<nat>, data: seq<byte>,
                     pending': seq<byte>, total': nat, ctx': seq<nat>)
    requires Known(alg.variant) && Absorbed(alg, m, pending, total, ctx)
    requires Absorbed(alg, m + data, pending', total', ctx')
    ensures (ctx', pending') == Feed(alg, ctx, pending, data) && total' == (total + |data|) % TWO_64
  {
    FeedAbsorbs(alg, m, pending, total, ctx, data);
    hide Fold, Feed;
  }

  /** The complete blocks behind the pending tail. */
  lemma BaseOf(alg: Algorithm, m: seq<byte>, pending: seq<byte>, total: nat, ctx: seq<nat>) returns (base: seq<byte>)
    requires Known(alg.variant) && Absorbed(alg, m, pending, total, ctx)
    ensures m == base + pending && |base| % alg.variant.blockSize == 0 && |pending| < alg.variant.blockSize
    ensures ctx == Fold(alg, alg.iv, base + pending) && total == |m| % TWO_64
  {
    hide Fold;
    base := m[..|m| - |pending|];
    WholeBlocks(alg.variant, |m|);
  }

  /** The last k bytes of what lies behind whole blocks are the last k bytes of the message. */
  lemma BaseAndAll(alg: Algorithm, m: seq<byte>, base: seq<byte>, all: seq<byte>, k: nat, total: nat, ctx: seq<nat>)
    requires Known(alg.variant) && m == base + all && total == |m| % TWO_64 && ctx == Fold(alg, alg.iv, m)
    requires k == |m| % alg.variant.blockSize && k <= |all|
    ensures Absorbed(alg, m, all[|all| - k..], total, ctx)
  {
    hide Fold;
    assert m[|m| - k..] == all[|all| - k..];
  }

  /** The tail can be kept back and compressed later. */
  lemma FoldResumes(alg: Algorithm, base: seq<byte>, pending: seq<byte>, data: seq<byte>)
    requires Known(alg.variant) && |base| % alg.variant.blockSize == 0 && |pending| < alg.variant.blockSize
    ensures Fold(alg, alg.iv, base + (pending + data)) == Fold(alg, Fold(alg, alg.iv, base + pending), pending + data)
  {
    FoldAppend(alg, alg.iv, base, pending);
    FoldAppend(alg, alg.iv, base, pending + data);
    assert Fold(alg, Fold(alg, alg.iv, base), pending) == Fold(alg, alg.iv, base);
  }

  lemma SumResidue(v: Variant, a: nat, b: nat)
    requires Known(v) && a % v.blockSize == 0
    ensures (a + b) % v.blockSize == b % v.blockSize
  {
    if v.blockSize == 64 {
      Residue64(a, b);
    } else {
      Residue128(a, b);
    }
  }

  lemma Residue64(a: nat, b: nat)
    requires a % 64 == 0
    ensures (a + b) % 64 == b % 64
  {}

  lemma Residue128(a: nat, b: nat)
    requires a % 128 == 0
    ensures (a + b) % 128 == b % 128
  {}

  lemma WrapSum(n: nat, more: nat)
    ensures (n % TWO_64 + more) % TWO_64 == (n + more) % TWO_64
  {}

  /** One event keeps ownership exclusive, keeps the worlds in step, and returns the same. */
  lemma StepRefines(alg: Algorithm, w: World, ms: Messages, e: Event)
    requires Known(alg.variant) && Owned(w) && Represents(alg, w, ms) && Enabled(w, e)
    ensures PlainEnabled(ms, e)
    ensures var (w', out) := Step(alg, w, e);
            var (ms', out') := PlainStep(alg, ms, e);
            Owned(w') && Represents(alg, w', ms') && out == out'
  {
    hide Owned, Represents;
    match e
    case Construct(h) => ConstructRefines(alg, w, ms, h);
    case Init(h) => InitRefines(alg, w, ms, h);
    case Update(h, data) => FedRefines(alg, w, ms, h, data);
    case Finalize(h) => FinalizeRefines(alg, w, ms, h);
    case Destroy(h) => DestroyRefines(alg, w, ms, h);
  }

  lemma ConstructRefines(alg: Algorithm, w: World, ms: Messages, h: HasherId)
    requires Known(alg.variant) && Owned(w) && Represents(alg, w, ms) && h !in w.live
    ensures h !in ms
    ensures var w' := Step(alg, w, Construct(h)).0;
            Owned(w') && Represents(alg, w', ms[h := []])
  {
    var (c, w1) := Taken(w);
    if w.pool == [] {
      NewOwner(alg, w, h, c);
    } else {
      PoppedOwner(alg, w, h);
    }
    TakenNotHeld(w);
    hide Owned, Initialised, Taken, FreshContext, Popped;
    RepresentsInit(alg, w1, ms, h, c);
    hide Represents;
  }

  lemma TakenNotHeld(w: World)
    requires Owned(w)
    ensures var (c, w1) := Taken(w);
            w1.live == w.live && w1.memory == w.memory && forall g | g in w.live :: w.live[g].ctx != c
  {
    NotHeld(w, Taken(w).0);
    hide Owned;
  }

  /** A context in the pool, or none that exists, is no live hasher's. */
  lemma NotHeld(w: World, c: ContextId)
    requires Owned(w) && (c in w.pool || c !in w.memory)
    ensures forall g | g in w.live :: w.live[g].ctx != c
  {}

  lemma InitRefines(alg: Algorithm, w: World, ms: Messages, h: HasherId)
    requires Known(alg.variant) && Owned(w) && Represents(alg, w, ms) && h in w.live
    ensures h in ms
    ensures var w' := Step(alg, w, Init(h)).0;
            Owned(w') && Represents(alg, w', ms[h := []])
  {
    hide Absorbed;
    RepresentsInit(alg, w, ms, h, w.live[h].ctx);
    SameOwners(w, Step(alg, w, Init(h)).0);
  }

  lemma FedRefines(alg: Algorithm, w: World, ms: Messages, h: HasherId, data: seq<byte>)
    requires Known(alg.variant) && Owned(w) && Represents(alg, w, ms) && h in w.live
    ensures h in ms && w.live[h].ctx in w.memory
    ensures var w' := Fed(alg, w, h, data);
            Owned(w') && Represents(alg, w', ms[h := ms[h] + data])
  {
    hide Absorbed, Feed;
    RepresentsFed(alg, w, ms, h, data);
    SameOwners(w, Fed(alg, w, h, data));
  }

  lemma FinalizeRefines(alg: Algorithm, w: World, ms: Messages, h: HasherId)
    requires Known(alg.variant) && Owned(w) && Represents(alg, w, ms) && h in w.live
    ensures h in ms
    ensures var (w', out) := Step(alg, w, Finalize(h));
            var (ms', out') := PlainStep(alg, ms, Finalize(h));
            Owned(w') && Represents(alg, w', ms') && out == out'
  {
    SuffixOf(alg, w, ms, h);
    var w' := Step(alg, w, Finalize(h)).0;
    FedRefines(alg, w, ms, h, Suffix(alg.variant, w.live[h].total));
    ContextOf(alg, w', ms[h := Padded(alg.variant, ms[h])], h);
    hide Owned, Represents, Suffix, Fold;
  }

  lemma SuffixOf(alg: Algorithm, w: World, ms: Messages, h: HasherId)
    requires Known(alg.variant) && Represents(alg, w, ms) && h in w.live
    ensures h in ms && Suffix(alg.variant, w.live[h].total) == Suffix(alg.variant, |ms[h]|)
  {
    assert w.live[h].total % TWO_64 == |ms[h]| % TWO_64;
    hide Represents, ZeroCount, LengthField;
  }

  lemma ContextOf(alg: Algorithm, w: World, ms: Messages, h: HasherId)
    requires Known(alg.variant) && Represents(alg, w, ms) && h in ms
    ensures h in w.live && w.live[h].ctx in w.memory && w.memory[w.live[h].ctx] == Fold(alg, alg.iv, ms[h])
  {}

  lemma DestroyRefines(alg: Algorithm, w: World, ms: Messages, h: HasherId)
    requires Known(alg.variant) && Owned(w) && Represents(alg, w, ms) && h in w.live
    ensures h in ms
    ensures var w' := Step(alg, w, Destroy(h)).0;
            Owned(w') && Represents(alg, w', ms - {h})
  {
    PushedOwner(w, h);
    hide Owned;
    RepresentsLess(alg, w, ms, h);
    hide Represents;
  }

  lemma RepresentsLess(alg: Algorithm, w: World, ms: Messages, h: HasherId)
    requires Known(alg.variant) && Represents(alg, w, ms) && h in w.live
    ensures h in ms
    ensures Represents(alg, w.(live := w.live - {h}, pool := Pushed(w.pool, w.live[h].ctx)), ms - {h})
  {
    hide Absorbed;
  }

  lemma RepresentsInit(alg: Algorithm, w: World, ms: Messages, h: HasherId, c: ContextId)
    requires Known(alg.variant) && Represents(alg, w, ms)
    requires forall g | g in w.live && g != h :: w.live[g].ctx != c
    ensures Represents(alg, Initialised(alg, w, h, c), ms[h := []])
  {
    assert Absorbed(alg, [], [], 0, alg.iv);
    hide Absorbed;
  }

  lemma RepresentsFed(alg: Algorithm, w: World, ms: Messages, h: HasherId, data: seq<byte>)
    requires Known(alg.variant) && Owned(w) && Represents(alg, w, ms) && h in w.live
    ensures Represents(alg, Fed(alg, w, h, data), ms[h := ms[h] + data])
  {
    hide Absorbed, Feed;
    var local := w.live[h];
    FeedAbsorbs(alg, ms[h], local.pending, local.total, w.memory[local.ctx], data);
  }

  /** Feeding rewrites one context in place and moves none. */
  lemma SameOwners(w: World, w': World)
    requires Owned(w) && w'.pool == w.pool && w'.live.Keys == w.live.Keys && w'.memory.Keys == w.memory.Keys
    requires forall h | h in w.live :: w'.live[h].ctx == w.live[h].ctx
    ensures Owned(w')
  {
    forall c | c in w'.memory && c !in w'.pool
      ensures exists h :: HeldBy(w', h, c)
    {
      var h :| HeldBy(w, h, c);
      assert HeldBy(w', h, c);
    }
  }

  lemma NewOwner(alg: Algorithm, w: World, h: HasherId, c: ContextId)
    requires Owned(w) && h !in w.live && c !in w.memory
    ensures Owned(Initialised(alg, w, h, c))
  {
    var w' := Initialised(alg, w, h, c);
    forall x | x in w'.memory && x !in w'.pool
      ensures exists g :: HeldBy(w', g, x)
    {
      if x == c {
        assert HeldBy(w', h, c);
      } else {
        var g :| HeldBy(w, g, x);
        assert HeldBy(w', g, x);
      }
    }
  }

  /** As Owned, but context c has been taken out of the pool and given to nobody yet. */
  ghost predicate InHand(w: World, c: ContextId) {
    && c in w.memory && c !in w.pool
    && (forall h | h in w.live :: w.live[h].ctx in w.memory && w.live[h].ctx !in w.pool && w.live[h].ctx != c)
    && (forall g, h | g in w.live && h in w.live && g != h :: w.live[g].ctx != w.live[h].ctx)
    && (forall x | x in w.pool :: x in w.memory)
    && (forall i, j | 0 <= i < j < |w.pool| :: w.pool[i] != w.pool[j])
    && (forall x | x in w.memory && x != c :: x in w.pool || exists h :: HeldBy(w, h, x))
  }

  lemma PoppedInHand(w: World)
    requires Owned(w) && w.pool != []
    ensures InHand(w.(pool := w.pool[..|w.pool| - 1]), w.pool[|w.pool| - 1])
  {
    var last := |w.pool| - 1;
    var c := w.pool[last];
    var w' := w.(pool := w.pool[..last]);
    assert w.pool == w'.pool + [c];
    forall x | x in w'.memory && x != c && x !in w'.pool
      ensures exists h :: HeldBy(w', h, x)
    {
      var h :| HeldBy(w, h, x);
      assert HeldBy(w', h, x);
    }
  }

  lemma GivenOwner(alg: Algorithm, w: World, h: HasherId, c: ContextId)
    requires InHand(w, c) && h !in w.live
    ensures Owned(Initialised(alg, w, h, c))
  {
    var w' := Initialised(alg, w, h, c);
    forall x | x in w'.memory && x !in w'.pool
      ensures exists g :: HeldBy(w', g, x)
    {
      if x == c {
        assert HeldBy(w', h, c);
      } else {
        var g :| HeldBy(w, g, x);
        assert HeldBy(w', g, x);
      }
    }
  }

  lemma PoppedOwner(alg: Algorithm, w: World, h: HasherId)
    requires Owned(w) && h !in w.live && w.pool != []
    ensures Owned(Initialised(alg, w.(pool := w.pool[..|w.pool| - 1]), h, w.pool[|w.pool| - 1]))
  {
    PoppedInHand(w);
    hide Owned, InHand;
    GivenOwner(alg, w.(pool := w.pool[..|w.pool| - 1]), h, w.pool[|w.pool| - 1]);
  }

  lemma PushedOwner(w: World, h: HasherId)
    requires Owned(w) && h in w.live
    ensures Owned(w.(live := w.live - {h}, pool := w.pool + [w.live[h].ctx]))
  {
    var c := w.live[h].ctx;
    var w' := w.(live := w.live - {h}, pool := w.pool + [c]);
    forall x | x in w'.memory && x !in w'.pool
      ensures exists g :: HeldBy(w', g, x)
    {
      var g :| HeldBy(w, g, x);
      assert HeldBy(w', g, x);
    }
  }

  // ---- runs ----

  ghost predicate IsRun(alg: Algorithm, w: World, events: seq<Event>)
    requires Known(alg.variant)
    decreases |events|
  {
    events != [] ==> Owned(w) && Enabled(w, events[0]) && IsRun(alg, Step(alg, w, events[0]).0, events[1..])
  }

  ghost function Run(alg: Algorithm, w: World, events: seq<Event>): (World, seq<Output>)
    requires Known(alg.variant) && IsRun(alg, w, events)
    decreases |events|
  {
    if events == [] then (w, [])
    else
      var (w1, out1) := Step(alg, w, events[0]);
      var (w2, out2) := Run(alg, w1, events[1..]);
      (w2, out1 + out2)
  }

  ghost predicate IsPlainRun(alg: Algorithm, ms: Messages, events: seq<Event>)
    requires Known(alg.variant)
    decreases |events|
  {
    events != [] ==> PlainEnabled(ms, events[0]) && IsPlainRun(alg, PlainStep(alg, ms, events[0]).0, events[1..])
  }

  ghost function PlainRun(alg: Algorithm, ms: Messages, events: seq<Event>): (Messages, seq<Output>)
    requires Known(alg.variant) && IsPlainRun(alg, ms, events)
    decreases |events|
  {
    if events == [] then (ms, [])
    else
      var (ms1, out1) := PlainStep(alg, ms, events[0]);
      var (ms2, out2) := PlainRun(alg, ms1, events[1..]);
      (ms2, out1 + out2)
  }

  lemma {:induction false} RunRefines(alg: Algorithm, w: World, ms: Messages, events: seq<Event>)
    requires Known(alg.variant) && Owned(w) && Represents(alg, w, ms) && IsPlainRun(alg, ms, events)
    ensures IsRun(alg, w, events)
    ensures var (w', out) := Run(alg, w, events);
            var (ms', out') := PlainRun(alg, ms, events);
            Owned(w') && Represents(alg, w', ms') && out == out'
    decreases |events|
  {
    if events != [] {
      var e := events[0];
      StepRefines(alg, w, ms, e);
      hide Owned, Represents;
      RunRefines(alg, Step(alg, w, e).0, PlainStep(alg, ms, e).0, events[1..]);
    }
  }

  /** Any interleaving of any number of hashers, from a fresh thread: contexts are never shared or lost, and
      every digest returned is the hash of exactly the bytes that hasher was fed since its own last init. */
  lemma RecycledContextsDoNotLeak(alg: Algorithm, events: seq<Event>)
    requires Known(alg.variant) && IsPlainRun(alg, map[], events)
    ensures IsRun(alg, EMPTY, events)
    ensures Owned(Run(alg, EMPTY, events).0)
    ensures Run(alg, EMPTY, events).1 == PlainRun(alg, map[], events).1
  {
    RunRefines(alg, EMPTY, map[], events);
  }

  // ---- what a hasher was fed, read off the events ----

  /** The data of h's updates, in order. */
  function OwnBytes(events: seq<Event>, h: HasherId): seq<byte> {
    if events == [] then []
    else (if events[0].Update? && events[0].h == h then events[0].data else []) + OwnBytes(events[1..], h)
  }

  lemma {:induction false} PlainRunAppend(alg: Algorithm, ms: Messages, first: seq<Event>, second: seq<Event>)
    requires Known(alg.variant) && IsPlainRun(alg, ms, first + second)
    ensures IsPlainRun(alg, ms, first) && IsPlainRun(alg, PlainRun(alg, ms, first).0, second)
    ensures PlainRun(alg, ms, first + second).0 == PlainRun(alg, PlainRun(alg, ms, first).0, second).0
    ensures PlainRun(alg, ms, first + second).1 == PlainRun(alg, ms, first).1 + PlainRun(alg, PlainRun(alg, ms, first).0, second).1
    decreases |first|
  {
    hide PlainStep, PlainEnabled;
    if first == [] {
      assert first + second == second;
      assert [] + PlainRun(alg, ms, second).1 == PlainRun(alg, ms, second).1;
    } else {
      var all := first + second;
      assert all[0] == first[0] && all[1..] == first[1..] + second;
      var (ms1, out1) := PlainStep(alg, ms, first[0]);
      PlainRunAppend(alg, ms1, first[1..], second);
      var (ms2, out2) := PlainRun(alg, ms1, first[1..]);
      var out3 := PlainRun(alg, ms2, second).1;
      assert out1 + (out2 + out3) == out1 + out2 + out3;
    }
  }

  /** Events of other hashers leave a message alone, updates of its own lengthen it. */
  lemma {:induction false} MessageGrows(alg: Algorithm, ms: Messages, events: seq<Event>, h: HasherId)
    requires Known(alg.variant) && IsPlainRun(alg, ms, events) && h in ms
    requires forall e | e in events && e.h == h :: e.Update?
    ensures var ms' := PlainRun(alg, ms, events).0;
            h in ms' && ms'[h] == ms[h] + OwnBytes(events, h)
    decreases |events|
  {
    if events != [] {
      var e := events[0];
      var ms1 := PlainStep(alg, ms, e).0;
      assert e in events;
      hide Padded, Hash;
      var own := if e.Update? && e.h == h then e.data else [];
      assert h in ms1 && ms1[h] == ms[h] + own;
      hide PlainStep, PlainEnabled;
      MessageGrows(alg, ms1, events[1..], h);
      assert ms[h] + own + OwnBytes(events[1..], h) == ms[h] + (own + OwnBytes(events[1..], h));
    }
  }

  lemma DigestOfMessage(alg: Algorithm, ms: Messages, first: Event, events: seq<Event>, h: HasherId)
    requires Known(alg.variant) && (first == Construct(h) || first == Init(h))
    requires IsPlainRun(alg, ms, [first] + events + [Finalize(h)])
    requires forall e | e in events && e.h == h :: e.Update?
    ensures IsPlainRun(alg, ms, [first] + events)
    ensures PlainRun(alg, ms, [first] + events + [Finalize(h)]).1
         == PlainRun(alg, ms, [first] + events).1 + [Output(h, Hash(alg, OwnBytes(events, h)))]
  {
    PlainRunAppend(alg, ms, [first] + events, [Finalize(h)]);
    var ms2 := PlainRun(alg, ms, [first] + events).0;
    MessageSince(alg, ms, first, events, h);
    FinalizeStep(alg, ms2, h);
    hide *;
  }

  lemma FinalizeStep(alg: Algorithm, ms: Messages, h: HasherId)
    requires Known(alg.variant) && IsPlainRun(alg, ms, [Finalize(h)]) && h in ms
    ensures PlainRun(alg, ms, [Finalize(h)]).1 == [Output(h, Hash(alg, ms[h]))]
  {
    FirstStep(alg, ms, Finalize(h));
    hide IsPlainRun, PlainRun, Padded, Hash;
  }

  /** What h has been fed since its construction or last init. */
  lemma MessageSince(alg: Algorithm, ms: Messages, first: Event, events: seq<Event>, h: HasherId)
    requires Known(alg.variant) && (first == Construct(h) || first == Init(h))
    requires IsPlainRun(alg, ms, [first] + events)
    requires forall e | e in events && e.h == h :: e.Update?
    ensures var ms' := PlainRun(alg, ms, [first] + events).0;
            h in ms' && ms'[h] == OwnBytes(events, h)
  {
    PlainRunAppend(alg, ms, [first], events);
    FirstStep(alg, ms, first);
    var ms1 := PlainStep(alg, ms, first).0;
    assert h in ms1 && ms1[h] == [];
    hide PlainStep, PlainEnabled, PlainRun, IsPlainRun;
    MessageGrows(alg, ms1, events, h);
    assert [] + OwnBytes(events, h) == OwnBytes(events, h);
  }

  lemma FirstStep(alg: Algorithm, ms: Messages, e: Event)
    requires Known(alg.variant) && IsPlainRun(alg, ms, [e])
    ensures PlainEnabled(ms, e) && PlainRun(alg, ms, [e]) == PlainStep(alg, ms, e)
  {
    hide PlainEnabled, PlainStep;
    var (ms1, out) := PlainStep(alg, ms, e);
    assert [e][1..] == [] && out + [] == out;
    assert PlainRun(alg, ms1, []) == (ms1, []);
  }

  lemma DigestBehind(alg: Algorithm, before: seq<Event>, first: Event, events: seq<Event>, h: HasherId)
    requires Known(alg.variant) && (first == Construct(h) || first == Init(h))
    requires forall e | e in events && e.h == h :: e.Update?
    requires IsPlainRun(alg, map[], before + ([first] + events + [Finalize(h)]))
    ensures IsPlainRun(alg, map[], before + ([first] + events))
    ensures PlainRun(alg, map[], before + ([first] + events + [Finalize(h)])).1
         == PlainRun(alg, map[], before + ([first] + events)).1 + [Output(h, Hash(alg, OwnBytes(events, h)))]
  {
    var all, most := [first] + events + [Finalize(h)], [first] + events;
    PlainRunAppend(alg, map[], before, all);
    var (ms, out) := PlainRun(alg, map[], before);
    DigestOfMessage(alg, ms, first, events, h);
    assert before + all == before + most + [Finalize(h)];
    PlainRunAppend(alg, map[], before + most, [Finalize(h)]);
    PlainRunAppend(alg, map[], before, most);
    hide *;
    assert out + (PlainRun(alg, ms, most).1 + [Output(h, Hash(alg, OwnBytes(events, h)))])
        == out + PlainRun(alg, ms, most).1 + [Output(h, Hash(alg, OwnBytes(events, h)))];
  }

  /** The same without the unshared run: whatever came before, and whatever other hashers do meanwhile, a
      finalize returns one more digest, the hash of the data of that hasher's updates since its last init. */
  lemma DigestIsOfOwnUpdates(alg: Algorithm, before: seq<Event>, first: Event, events: seq<Event>, h: HasherId)
    requires Known(alg.variant) && (first == Construct(h) || first == Init(h))
    requires forall e | e in events && e.h == h :: e.Update?
    requires IsPlainRun(alg, map[], before + ([first] + events + [Finalize(h)]))
    ensures IsRun(alg, EMPTY, before + ([first] + events)) && IsRun(alg, EMPTY, before + ([first] + events + [Finalize(h)]))
    ensures Run(alg, EMPTY, before + ([first] + events + [Finalize(h)])).1
         == Run(alg, EMPTY, before + ([first] + events)).1 + [Output(h, Hash(alg, OwnBytes(events, h)))]
  {
    hide *;
    DigestBehind(alg, before, first, events, h);
    RecycledContextsDoNotLeak(alg, before + ([first] + events + [Finalize(h)]));
    RecycledContextsDoNotLeak(alg, before + ([first] + events));
  }
}
