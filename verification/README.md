# Verified model of the zen node's core

This project models the hard parts of the zen node in Dafny and proves what they promise.

| file | what it models |
|---|---|
| `Fips180.dfy`, `Primes.dfy` | SHA-256's compression function as section 6.2.2 of FIPS 180-4 writes it: the reference; the primes its constants come from |
| `Sha256Transform.dfy` | the hand-unrolled compression of the legacy SHA-256, with its rolling 16-word schedule |
| `Padding.dfy`, `Digest.dfy` | padding and digest of SHA-1, SHA-256, SHA-512 and RIPEMD-160 against the standards |
| `Hasher.dfy` | the block-buffering engine behind those four hashers |
| `Sha256Old.dfy` | the legacy SHA-256 class, which buffers on its own |
| `Composite.dfy` | HMAC, Hash256 and Hash160 |
| `ContextPool.dfy` | the pool that recycles OpenSSL contexts among hashers |
| `Worker.dfy` | the kick/stop protocol, one atomic operation a step, over all interleavings |
| `WorkerLedger.dfy` | every call of a run against what it leaves behind: kicks stored, stops requested, threads created |
| `WorkerCalls.dfy` | which calls of start and stop keep the program from being terminated |
| `Cursor.dfy` | cursor walks and erasures over an ordered table |
| `LockedPages.dfy`, `Bits.dfy` | reference-counted page locking, and bit arithmetic |
| `Options.dfy` | optional values |
| `Hex.dfy` | hexadecimal text: encoder, unrolled decoder, byte reversal |
| `Serialization.dfy`, `Bytes.dfy` | the data stream, compact sizes, byte orders |
| `Amounts.dfy` | printing and parsing token amounts |

The C++ objects are classes with the same fields, and each method is tied to a function of its inputs or of the old
state. The laws are lemmas about those functions. `std::size_t`, `uint32_t` and `uint64_t` arithmetic wraps
explicitly wherever a wrap can be reached. Parts of the C++ functions that had to be cut for the verifier keep their
statements and order.

The main results:

- **Unrolled equals standard.** `Sha256Transform.Transform` computes exactly `Fips180.Compress`: register
  renaming realises the a..h shift, and slot t mod 16 holds W_t at step t, including the two rounds that use it
  unstored.
- **Streaming equals one-shot.** For every splitting of a message into updates, both engines return the fold of
  the compression function over the standard's padding of the concatenation (`Hashers.HashChunks`,
  `Sha256Olds.HashWrites`), and the two engines agree (`Sha256Olds.EnginesAgree`).
- **Padding is the standard's**, the shortest possible and injective. For SHA-512 that is so exactly below 2^61
  bytes.
- **HMAC is RFC 2104** over the standard's hash, for every key length and every chunking.
- **Recycled contexts do not leak.** Every run of any number of hashers sharing a pool returns what hashers that
  share nothing would return: the hash of the data of that hasher's own updates since its last init.
- **No kick is lost or invented, at most one thread works, a stop is noticed**, in every interleaving. The program
  is never terminated if every start that wins comes after a completed join of the one before and waiting stops do
  not overlap. Every kick() call stores its kick, so one that has returned makes a waiting call return
  (`WorkerLedger.EveryKickIsStored`, `WorkerLedger.KickWakes`). The exact condition, for any number of callers whose waiting stops do not overlap, is that a completed
  join lies between any two assignments of `thread_`. A pending kick is noticed as a stop is.
- **Prefix erasure and range erasure remove exactly the records they should, and walks visit exactly the table** from
  the cursor's record on, or all of it when the cursor has none.
- **The page table is what the system holds locked**, whatever calls the system refuses, for every range and after
  every round of the loops; counts are the numbers of live overlapping ranges when it refuses none.
- **Hex, compact sizes and amounts round-trip**, with the exact condition where the code does not.

Where the code does not meet what one would expect of it, the exact condition is proved instead:
`Padding.SuffixIsStandard`, `WorkerCalls.CallersCrash`, `WorkerCalls.SingleCaller`,
`LockedPages.LeavesUnlessLastPage`, `Cursors.ReverseWalkComplete`, `Hex.ReverseHexReverses`,
`Serialization.CompactRoundTrip`, `Serialization.BoolComesBackNegated`, `Amounts.ParseUndoesPrint` and
`Amounts.NegativePrint`. Concrete failing inputs are `WorkerCalls.RestartWithoutJoinCrashes`,
`WorkerCalls.OverlappingStopsCrash`, `WorkerCalls.JoinWithWorkerRunning`,
`LockedPages.LastPageNeverLeaves`, `Cursors.ReverseWalkMissesOne` and `Hex.ReverseHexHidesError`.

## Model

| member | source | states |
|---|---|---|
| Fips180.RoundConstantsAreCubeRoots | zen/core/crypto/sha_2_256_old.cpp:52-118 | the sixty-four constants in the rounds are the first 32 fractional bits of the cube roots of the first sixty-four primes, as section 4.2.2 of FIPS 180-4 defines them |
| Fips180.InitialValueIsSquareRoots | zen/core/crypto/sha_2_256_old.cpp:36-45 | the initial state is the fractional bits of the square roots of the first eight primes |
| Primes.TableIsThePrimes | zen/core/crypto/sha_2_256_old.cpp:52-118 | the numbers those roots are taken of are prime, increase without repetition, and no prime up to the last of them is missing: they are the first sixty-four |
| Primes.SieveIsExact | zen/core/crypto/sha_2_256_old.cpp:52-118 | below 361, no divisor among the seven primes up to 17 means no divisor at all |
| Sha256Transform.FunctionsAgree | zen/core/crypto/sha_2_256_old.cpp:19-24 | the six bit functions, in the code's shorter forms, equal those of section 4.1.2 on all words |
| Sha256Transform.SumReordered | zen/core/crypto/sha_2_256_old.cpp:69-118 | adding W_{t-16} first, or accumulating from it, gives the sum the standard writes with it last, modulo 2^32 |
| Sha256Transform.Round | zen/core/crypto/sha_2_256_old.cpp:27-33 | rewriting only d and h performs step t of the standard: reading the registers one place to the right gives the working variables after t+1 steps |
| Sha256Transform.Extend | zen/core/crypto/sha_2_256_old.cpp:69-116 | the in-place `+=` takes a slot from W_{t-16} to W_t of the recurrence |
| Sha256Transform.ExtendUnstored | zen/core/crypto/sha_2_256_old.cpp:117-118 | the last two rounds, which do not store the slot, still use W_62 and W_63 |
| Sha256Transform.Rounds0 | zen/core/crypto/sha_2_256_old.cpp:52-67 | the first sixteen unrolled lines are steps 0 to 15 |
| Sha256Transform.Rounds16 | zen/core/crypto/sha_2_256_old.cpp:69-84 | the next sixteen lines are steps 16 to 31 and leave W_16..W_31 in the slots |
| Sha256Transform.Rounds32 | zen/core/crypto/sha_2_256_old.cpp:86-101 | the next sixteen lines are steps 32 to 47 and leave W_32..W_47 in the slots |
| Sha256Transform.Rounds48 | zen/core/crypto/sha_2_256_old.cpp:103-118 | the last sixteen lines are steps 48 to 63 |
| Sha256Transform.AddInto | zen/core/crypto/sha_2_256_old.cpp:120-127 | each state word grows by its own register, modulo 2^32 |
| Sha256Transform.Transform | zen/core/crypto/sha_2_256_old.cpp:48-128 | the whole function replaces the state by the standard's compression of state and block |
| Bytes.LittleEndianRoundTrip | zen/core/common/endian.hpp:63 | loading what was stored gives the value back |
| Bytes.FromLittleEndianRoundTrip | zen/core/common/endian.hpp:45-63 | every byte string is the storing of exactly one value, the one loaded from it |
| Bytes.BigEndianInjective | zen/core/common/endian.hpp:54 | no two values that fit are stored big-endian alike |
| Bytes.BigEndianZeroExtend | zen/core/crypto/sha_2_512.cpp:32-33 | eight zero bytes before an eight-byte store are a sixteen-byte store of the same value |
| Bytes.BigEndianAt | zen/core/common/endian.hpp:51-54 | byte i of an n-byte big-endian store of v is v / 256^(n-1-i) mod 256 |
| Bytes.LittleEndianAt | zen/core/common/endian.hpp:57-63 | byte i of a little-endian store of v is v / 256^i mod 256 |
| Bytes.LoadOfStore | zen/core/crypto/sha_2_256_old.cpp:52-67 | the big-endian load of the four bytes of a big-endian store gives every 32-bit value back |
| Bytes.StoreOfLoad | zen/core/crypto/sha_2_256_old.cpp:52-67 | and storing what was loaded from four bytes gives those four bytes, in their places |
| Fips180.WordOfBlock | zen/core/crypto/sha_2_256_old.cpp:52-67 | word t of the block is the one 32-bit value whose big-endian store is bytes 4t to 4t+3, as section 5.2.1 of FIPS 180-4 cuts a block |
| Padding.ZeroCountIsStandard | zen/core/crypto/sha_2_256.cpp:34 | the 119/64 and 239/128 formulas give the smallest number of zero bits that sections 5.1.1 and 5.1.2 of FIPS 180-4 ask for, at every length |
| Padding.LengthFieldIsStandard | zen/core/crypto/sha_2_512.cpp:32-33 | the stored length is the standard's field, for SHA-512 exactly while the bit count fits 64 bits |
| Padding.SuffixIsStandard | zen/core/crypto/sha_2_512.cpp:29-37 | marker, zeros and length fed by finalize are the standard's padding: for SHA-1 and SHA-256 at every length the standard defines, for RIPEMD-160 at every length, for SHA-512 if and only if the message is below 2^61 bytes |
| Padding.StandardSuffixUnique | zen/core/crypto/sha_1.cpp:28-34 | the standard leaves no choice of padding |
| Padding.PaddedIsShortest | zen/core/crypto/sha_2_256.cpp:30-35 | the padded length is a whole number of blocks, and no smaller multiple of the block size has room for marker and length |
| Padding.PaddedInjective | zen/core/crypto/ripemd.cpp:28-34 | no two messages are padded alike, even where the length counter has wrapped |
| Digest.HashIsStandard | zen/core/crypto/sha_1.cpp:28-43 | on every message covered, the digest computed is the standard's and the only one that is |
| Digest.FoldAppend | zen/core/crypto/hasher.cpp:27-31 | compressing whole blocks and then the rest is compressing all of it |
| Digest.FoldGrow | zen/core/crypto/hasher.cpp:14-24 | bytes that do not complete the block leave the chaining value; bytes that complete it compress tail and bytes once |
| Digest.SerializePrefix | zen/core/crypto/sha_2_256.cpp:43-47 | the digest begins with the words before the i-th, then the i-th |
| Digest.SerializeAt | zen/core/crypto/sha_1.cpp:36-41 | word i of the state stands at its own offset of the digest, in the variant's byte order |
| Digest.StoredByte | zen/core/crypto/ripemd.cpp:37-43 | each byte of a stored word is the word's own byte, the high one first or, for RIPEMD-160, the low one |
| Digest.DigestLength | zen/core/crypto/sha_2_512.cpp:40-49 | a digest has 20, 32, 64 or 20 bytes: SHA-1, SHA-256, SHA-512, RIPEMD-160 |
| Hashers.AbsorbPart | zen/core/crypto/hasher.cpp:15-23 | taking in bytes up to the end of the block keeps the representation invariant, with one compression exactly when the block fills |
| Hashers.Hasher.constructor | zen/core/crypto/hasher.hpp:29-30 | a new hasher has absorbed the empty message |
| Hashers.Hasher.Init | zen/core/crypto/sha_2_256.cpp:50-59 | afterwards nothing fed before matters, though the buffer keeps its old bytes |
| Hashers.Hasher.Update | zen/core/crypto/hasher.cpp:12-39 | after any run of updates the context is the fold over the complete blocks, the first buffer_offset_ bytes are the unprocessed tail and the counter is the length modulo 2^64, all of the concatenation only |
| Hashers.Hasher.FinalizeNoPadding | zen/core/crypto/sha_2_256.cpp:38-48 | the state words one after another, each in its byte order |
| Hashers.Hasher.Finalize | zen/core/crypto/sha_2_256.cpp:29-37 | exactly the padded message has been compressed, the buffer is empty, and the digest is the hash of what was fed |
| Hashers.PaddingBytes | zen/core/crypto/ripemd.cpp:29-34 | the two byte strings fed by finalize make the padded message of the bytes counted |
| Hashers.HashChunks | zen/core/crypto/hasher.cpp:12-39 | end to end, from any state: init, any pieces, finalize return the hash of the concatenation, the standard's where the standard applies |
| Sha256Olds.Sha256Old.constructor | zen/core/crypto/sha_2_256_old.cpp:133 | a new object has absorbed the empty message |
| Sha256Olds.Sha256Old.Initialize | zen/core/crypto/sha_2_256_old.cpp:36-45 | the state becomes the initial value of section 5.3.3 of FIPS 180-4 |
| Sha256Olds.Sha256Old.Reset | zen/core/crypto/sha_2_256_old.cpp:184-188 | afterwards nothing written before matters |
| Sha256Olds.Sha256Old.FillBuffer | zen/core/crypto/sha_2_256_old.cpp:137-145 | a buffer that the input can fill is completed and compressed, and only then |
| Sha256Olds.Sha256Old.ProcessChunks | zen/core/crypto/sha_2_256_old.cpp:146-151 | all whole blocks left in the input are compressed from where they are |
| Sha256Olds.Sha256Old.KeepRest | zen/core/crypto/sha_2_256_old.cpp:152-156 | the rest is buffered behind what is already there |
| Sha256Olds.Sha256Old.Write | zen/core/crypto/sha_2_256_old.cpp:135-158 | the invariant of the generic engine holds here too, for the message extended by the input, despite the different branches |
| Sha256Olds.Sha256Old.FinalizeNoPadding | zen/core/crypto/sha_2_256_old.cpp:169-182 | the eight big-endian words of the fold over the complete blocks written |
| Sha256Olds.Sha256Old.Finalize | zen/core/crypto/sha_2_256_old.cpp:160-167 | the SHA-256 of exactly what was written |
| Sha256Olds.HashWrites | zen/core/crypto/sha_2_256_old.cpp:135-188 | Reset, any Writes and Finalize return the SHA-256 of the concatenation, which below 2^61 bytes is the digest FIPS 180-4 defines |
| Sha256Olds.EnginesAgree | zen/core/crypto/hasher.cpp:12-39 | a hasher whose compression agrees with the standard's on states and blocks hashes every message as Sha256Old does |
| Composite.XorTwice | zen/core/crypto/hmac.hpp:50-59 | xor with 0x5c and then with 0x5c ^ 0x36 leaves the byte xor 0x36 |
| Composite.XorAllTwice | zen/core/crypto/hmac.hpp:50-59 | so the key in place goes from the outer to the inner pad |
| Composite.XorAllAt | zen/core/crypto/hmac.hpp:50-59 | every byte of a padded key, from the first on, is the key's byte at that place xor the pad |
| Composite.KeyFits | zen/core/crypto/hmac.hpp:42-48 | a hashed key is no longer than a block, so resizing only appends zeros |
| Composite.XorInPlace | zen/core/crypto/hmac.hpp:50-52 | afterwards every byte of the key, from the first on, is the old byte at that place xor the pad |
| Composite.Hmac.FitKey | zen/core/crypto/hmac.hpp:40-48 | the key is hashed when longer than a block, then zero-filled to a block, and the inner hasher is left as freshly initialised |
| Composite.Hmac.Init | zen/core/crypto/hmac.hpp:36-60 | from any state, the inner hasher has absorbed K xor ipad and the outer K xor opad, nothing else |
| Composite.Hmac.Update | zen/core/crypto/hmac.hpp:64 | text goes to the inner hasher only |
| Composite.Hmac.Finalize | zen/core/crypto/hmac.hpp:67-70 | H(K xor opad, H(K xor ipad, text)) of section 2 of RFC 2104, and while key and text behind a block stay below 2^61 bytes, with H the standard's hash |
| Composite.HmacChunks | zen/core/crypto/hmac.hpp:36-70 | end to end for every key length and every chunking, whatever the object did before: the code's HMAC, and where the standard's hash is defined the standard's |
| Composite.BlockKeyIsStandard | zen/core/crypto/hmac.hpp:40-48 | the key brought to block length is the one RFC 2104 prescribes over the standard's hash, and only that |
| Composite.HmacIsStandard | zen/core/crypto/hmac.hpp:36-70 | within those lengths the code's HMAC is the one RFC 2104 defines over the standard's hash, and the only value that is |
| Composite.Hash256.Finalize | zen/core/crypto/hash256.cpp:28-34 | SHA-256 of the SHA-256 of what was fed, though one hasher does both passes; below 2^61 bytes the standard's of the standard's |
| Composite.Hash160.Finalize | zen/core/crypto/hash160.cpp:29-34 | RIPEMD-160 of the SHA-256 of what was fed; below 2^61 bytes the standard's of the standard's |
| Composite.DoubleIsStandard | zen/core/crypto/hash160.cpp:29-34 | nesting the code's hashes is nesting the standard's, with one possible result |
| ContextPool.ObjectPool.Add | zen/core/common/object_pool.hpp:31-34 | the pool gains the object on top and loses nothing, as in the push of the runs |
| ContextPool.ObjectPool.Acquire | zen/core/common/object_pool.hpp:36-44 | the most recently added object leaves the pool, or nothing when it is empty, as in the pop of the runs |
| ContextPool.LastInFirstOut | zen/core/common/object_pool.hpp:31-44 | acquiring after adding gives the added object and the pool as it was |
| ContextPool.FeedAbsorbs | zen/core/crypto/hasher.cpp:12-39 | feeding bytes to an invariant-satisfying context and tail gives the one context and tail of the longer message |
| ContextPool.UpdateIsFeed | zen/core/crypto/hasher.cpp:12-39 | the contract of Hasher.Update leaves no other outcome than the one the shared-memory model uses |
| ContextPool.StepRefines | zen/core/crypto/sha_2_256.cpp:16-59 | constructing, initialising, feeding, finalising or destroying a hasher keeps every context owned by exactly one live hasher or one place in the pool, and returns what a hasher with no shared memory would |
| ContextPool.RunRefines | zen/core/crypto/sha_2_512.cpp:16-60 | so does every run of such events, from every state |
| ContextPool.RecycledContextsDoNotLeak | zen/core/crypto/ripemd.cpp:16-54 | from a fresh thread, every digest in every run is the hash of exactly the bytes that hasher was fed since its own last init |
| ContextPool.DigestIsOfOwnUpdates | zen/core/crypto/sha_2_256.cpp:16-59 | read off the events alone: whatever happened before and whatever other hashers do meanwhile, a finalize returns one more digest, the hash of the data of that hasher's updates since it was constructed or initialised |
| Worker.InvStep | zen/node/concurrency/worker.cpp:16-101 | every atomic step of every thread keeps the protocol's invariant |
| Worker.InvAfter | zen/node/concurrency/worker.cpp:16-101 | so does every run |
| Worker.StateLifeCycle | zen/node/concurrency/worker.cpp:16-101 | in every run state_ moves only Stopped, Starting, Started; Started to KickWaiting, Stopping or Stopped; KickWaiting to Started or Stopping; Stopping to Stopped |
| Worker.OneWorkerAtATime | zen/node/concurrency/worker.cpp:16-64 | in every run at most one thread is inside work(), state_ is Stopped exactly when no thread is alive or being launched, and one stop call at most has stored the request |
| Worker.JoinLeavesOnlyUnassigned | zen/node/concurrency/worker.cpp:26-62 | when a join completes, every worker thread has finished, other than one created by a start that has not yet assigned it to thread_ |
| Worker.KicksCoverConsumes | zen/node/concurrency/worker.cpp:66-73 | if each consumed kick directly follows a store of one, consumed plus pending kicks never exceed kicks stored |
| Worker.KicksAccountedFor | zen/node/concurrency/worker.cpp:66-101 | in every run, of the writes of kicked_: no kick is invented, none is lost while kicked_ is false, and wait_for_kick has returned true no more often than kicks were consumed; that every kick() call makes its write is `WorkerLedger.EveryKickIsStored` |
| Worker.WaitForKickAnswers | zen/node/concurrency/worker.cpp:71-101 | true only if that very call consumed a kick and was begun before any stop or signal, and then state_ is Started; false only if a stop was requested or signalled, and then state_ is Stopping; a call sleeps as KickWaiting only |
| Worker.RankDecreases | zen/node/concurrency/worker.cpp:73-101 | with a stop flag up, a waiting thread's own steps bring it nearer to returning and no other thread's step sets it back |
| Worker.ReturnsWithinRank | zen/node/concurrency/worker.cpp:73-101 | so it returns within as many own steps as its rank |
| Worker.StopIsNoticed | zen/node/concurrency/stoppable.cpp:14-20 | in every run, once a stop is requested or signalled, a thread inside wait_for_kick returns within ten steps of its own, notified or not |
| Worker.KickKept | zen/node/concurrency/worker.cpp:66-73 | while a thread is in wait_for_kick no other thread consumes its kick, and no start can store that there is none |
| Worker.ReturnsWithinKickRank | zen/node/concurrency/worker.cpp:71-101 | with a kick pending, a thread in the loop returns within as many own steps as its rank |
| Worker.KickIsNoticed | zen/node/concurrency/worker.cpp:66-101 | in every run, if kicked_ is set while a thread is anywhere in the loop of wait_for_kick, that call returns within eight steps of its own, notified or not |
| WorkerLedger.EveryKickIsStored | zen/node/concurrency/worker.cpp:56-69 | in every run, stores of a kick plus kicks still owed are the kick() calls begun plus the one stop that raised the request: each kick() that has returned, and the winning stop past its kick, stored one |
| WorkerLedger.StoredIsSet | zen/node/concurrency/worker.cpp:23-69 | kicked_ is true right after kick() or stop's kick, and start's argument right after start stored it |
| WorkerLedger.KickReturns | zen/node/concurrency/worker.cpp:66-69 | a call of kick(), other threads going on meanwhile, returns with kicked_ set |
| WorkerLedger.KickWakes | zen/node/concurrency/worker.cpp:66-101 | after any kick() in any run, a thread then in the loop of wait_for_kick is back in work() within eight steps of its own |
| WorkerLedger.EveryStopIsRequested | zen/node/concurrency/stoppable.cpp:14-20 | in every run the request is up exactly when some stop() call is past its compare-exchange, and a signal is seen exactly when there was one |
| WorkerLedger.EveryThreadWasStarted | zen/node/concurrency/worker.cpp:16-47 | in every run each thread created goes back to one store of kicked_ by a start, and each such store to a start call made with that argument |
| WorkerLedger.LaunchCreates | zen/node/concurrency/worker.cpp:23-47 | a start that has won creates its thread within three steps of its own, whatever others do in between |
| WorkerLedger.StartCreates | zen/node/concurrency/worker.cpp:16-47 | a start that finds no thread alive and none being launched wins, and creates its thread within four steps of its own |
| WorkerCalls.JoinWithWorkerRunning | zen/node/concurrency/worker.cpp:26-62 | a run of two callers in which a join is about to complete while a worker is inside work(): the starts were not separated by joins |
| WorkerCalls.JoinWithWorkerEndsWell | zen/node/concurrency/worker.cpp:26-62 | such a run goes on until both calls have returned, without ending the program: the starts were not separated by joins, the assignments were |
| WorkerCalls.RestartWithoutJoinCrashes | zen/node/concurrency/worker.cpp:16-47 | a run of one caller, without any race: start, work() returns, start again, and the program is terminated |
| WorkerCalls.OverlappingStopsCrash | zen/node/concurrency/worker.cpp:56-64 | a run with one start in which two waiting stops overlap and the program is terminated: that stops do not overlap is needed |
| WorkerCalls.OrderlyStep | zen/node/concurrency/worker.cpp:16-64 | every step of orderly callers keeps the bookkeeping of thread_: who may assign, join or reset it, and what it holds |
| WorkerCalls.OrderlyCallersNeverCrash | zen/node/concurrency/worker.cpp:16-64 | any number of callers, any interleaving: if every winning start comes after a completed join of the one before it, and no waiting stop begins while another is in flight, the program is never terminated |
| WorkerCalls.OrderlyJoinLeavesNothing | zen/node/concurrency/worker.cpp:56-64 | under the same condition a completed join leaves no thread running at all |
| WorkerCalls.SingleCaller | zen/node/concurrency/worker.cpp:16-64 | one caller, every run: a completed join lies between any two winning starts if and only if the program has not been terminated and is not about to be by the start under way |
| WorkerCalls.SingleCallerCrashes | zen/node/concurrency/worker.cpp:16-64 | so when all its calls have returned, or one has ended the program: terminated if and only if two starts won without a completed join between them |
| WorkerCalls.TidyStep | zen/node/concurrency/worker.cpp:16-64 | every step of callers whose waiting stops do not overlap keeps thread_ as the calls have made it, or loses it by assigning over what is owned |
| WorkerCalls.CallersCrash | zen/node/concurrency/worker.cpp:16-64 | any number of callers whose waiting stops do not overlap, every run: a completed join lies between any two assignments of thread_ if and only if the program has not been terminated and no stop is about to drop a thread it has not joined |
| WorkerCalls.ReturnedCallersCrash | zen/node/concurrency/worker.cpp:16-64 | so when all calls have returned, or one has ended the program: terminated if and only if thread_ was assigned twice without a completed join between |
| Cursors.LessTotal | zen/node/database/mdbx.cpp:286-313 | byte-string order is asymmetric and total |
| Cursors.LessTransitive | zen/node/database/mdbx.cpp:286-313 | and transitive |
| Cursors.LessMeans | zen/node/database/mdbx.cpp:286-313 | one key is below another exactly when it is a proper prefix of it or smaller at the first byte in which they differ |
| Cursors.FilterMeans | zen/node/database/mdbx.cpp:301-339 | of a sorted table exactly the records that satisfy the condition are kept, in order |
| Cursors.BelowPrefix | zen/node/database/mdbx.cpp:289-291 | no key below the prefix starts with it |
| Cursors.AbovePrefix | zen/node/database/mdbx.cpp:291-292 | after the first key at or above the prefix without it, no later key has it |
| Cursors.PrefixContiguous | zen/node/database/mdbx.cpp:286-313 | keys with the prefix are exactly an interval that begins at the prefix's lower bound |
| Cursors.AdjustIfUnpositioned | zen/node/database/mdbx.cpp:20-30 | a cursor on a record stays and gives that record; one at the end of data goes to the first record, or in reverse to the last, and gives it; an empty table gives nothing |
| Cursors.StrictLowerBound | zen/node/database/mdbx.cpp:33-40 | the last record below the key, in all three cases: no larger key, a middle key, none below |
| Cursors.CursorForEach | zen/node/database/mdbx.cpp:275-284 | from a cursor at the end of data the walker is given the whole table, in reverse backwards; from one on record i, the records from i on, or those up to i backwards; each once, and their number is returned |
| Cursors.CursorForCount | zen/node/database/mdbx.cpp:315-325 | the first count records of that same walk, or all of it when it is shorter |
| Cursors.ReversedAt | zen/node/database/mdbx.cpp:275-284 | backwards means that record i comes i-th from the end, and none is added or lost |
| Cursors.WalkAll | zen/node/database/mdbx.cpp:275-284 | the loop itself, from the record it starts on |
| Cursors.WalkSome | zen/node/database/mdbx.cpp:315-325 | the loop cut after count records |
| Cursors.CursorForPrefix | zen/node/database/mdbx.cpp:286-299 | forward, exactly the records with the prefix, once each and in key order; in reverse, at most the first of them |
| Cursors.ReverseWalkComplete | zen/node/database/mdbx.cpp:286-299 | the reverse walk gives the prefixed records backwards if and only if there is at most one |
| Cursors.ReverseWalkMissesOne | zen/node/database/mdbx.cpp:286-299 | a table with two records under a prefix of which the reverse walk visits one |
| Cursors.CursorErasePrefix | zen/node/database/mdbx.cpp:301-313 | exactly the records with the prefix are gone, all others remain in order, and the number removed is returned |
| Cursors.CursorErase | zen/node/database/mdbx.cpp:327-339 | forward leaves exactly the records below set_key, reverse exactly those at or above it; the drop in size is returned, and the loop ends |
| Cursors.NotBelowIsAtOrAbove | zen/node/database/mdbx.cpp:327-339 | what the reverse erasure keeps is the record at set_key and those above it |
| Bits.PowerOfTwoTest | zen/core/common/memory.hpp:42 | `p & (p - 1)` is zero exactly for powers of two |
| Bits.MaskRoundsDown | zen/core/common/memory.hpp:43 | masking with the complement of 2^k - 1 subtracts the residue modulo 2^k |
| LockedPages.MaskIsRoundDown | zen/core/common/memory.hpp:130-135 | for every page size the constructor accepts, the mask rounds a 64-bit address down to its page |
| LockedPages.OverlapsMeans | zen/core/common/memory.hpp:130-135 | a range overlaps a page exactly when some byte belongs to both |
| LockedPages.BoundariesAreOverlap | zen/core/common/memory.hpp:130-135 | the pages from first to last boundary are exactly those some byte of the range lies on |
| LockedPages.Manager.constructor | zen/core/common/memory.hpp:40-44 | a new manager counts nothing and holds nothing |
| LockedPages.Manager.BoundariesArePages | zen/core/common/memory.hpp:130-135 | both boundaries are page addresses, also when the range wraps around the address space |
| LockedPages.Manager.LockRange | zen/core/common/memory.hpp:49-69 | for every range, wrapping or not, and cut off after any number of rounds: the table is what the system holds, every page counts as many more as rounds came to it, and a refused page is not counted |
| LockedPages.Manager.LockPages | zen/core/common/memory.hpp:54-67 | the loop of it, with the counter wrapping at 2^64 |
| LockedPages.Manager.LockPage | zen/core/common/memory.hpp:55-66 | one round: the page counts one more, or was new and refused and nothing has changed |
| LockedPages.LeavesUnlessLastPage | zen/core/common/memory.hpp:54-90 | without a refusal and given rounds enough, the loops come to their end if and only if the range does not reach the last page of the address space; there nothing but a refusal ends them |
| LockedPages.LastPageNeverLeaves | zen/core/common/memory.hpp:49-69 | the failing input: one byte on the last page, nothing refused, and after any number of rounds the lock has not returned |
| LockedPages.NextCounter | zen/core/common/memory.hpp:54 | whatever the range, the counter stays a page address and never passes the last page |
| LockedPages.NoWrap | zen/core/common/memory.hpp:54 | below the last page the counter goes up page by page and comes to every page between the boundaries once |
| LockedPages.OrdinaryLock | zen/core/common/memory.hpp:54-67 | there, exactly the pages below the one reached count one more, and without a refusal those up to the last boundary |
| LockedPages.OrdinaryUnlock | zen/core/common/memory.hpp:77-89 | there, exactly the locked pages below the one reached count one less, and without a refusal those up to the last boundary |
| LockedPages.LockOne | zen/core/common/memory.hpp:49-69 | a lock of such a range that is not refused returns, with each page of it counted once more |
| LockedPages.UnlockOne | zen/core/common/memory.hpp:72-91 | an unlock of such a range that is not refused returns, with each locked page of it counted once less |
| LockedPages.Manager.Release | zen/core/common/memory.hpp:78-88 | one page's count falls by one, the last one asks the system, and a refusal restores it |
| LockedPages.Manager.UnlockRange | zen/core/common/memory.hpp:72-91 | for every range and cut off after any number of rounds: the table is what the system holds, every count has fallen by the rounds that came to the page but not below zero, and a refused page keeps its last count |
| LockedPages.Manager.UnlockPages | zen/core/common/memory.hpp:77-89 | the loop of it, with the counter wrapping at 2^64 |
| LockedPages.Manager.UnlockPage | zen/core/common/memory.hpp:78-88 | one round: an unlocked page is passed over, a locked one counts one less or is refused and unchanged |
| LockedPages.Manager.Contains | zen/core/common/memory.hpp:106-109 | whether the page of the address is counted |
| LockedPages.Manager.Clear | zen/core/common/memory.hpp:112-121 | one unlock call a page whatever its count; refused pages stay with their counts; empty if none is refused |
| LockedPages.CountsLocked | zen/core/common/memory.hpp:49-69 | raising the range's pages makes counts the overlaps of the live ranges with that one added |
| LockedPages.CountsUnlocked | zen/core/common/memory.hpp:72-91 | lowering them makes counts the overlaps of the live ranges with one such range removed |
| LockedPages.RunOne | zen/core/common/memory.hpp:49-121 | one matched call, not refused, keeps every count equal to the number of live ranges on the page |
| LockedPages.RunMatched | zen/core/common/memory.hpp:49-121 | so does every matched history; when all ranges are released nothing is counted and nothing held |
| Hex.TablesGiveDigits | zen/core/encoding/hex.cpp:16-47 | both tables hold the digit's value, or 0xff for every character that is no hex digit |
| Hex.DigitsMean | zen/core/encoding/hex.cpp:16-47 | the sixteen digits in either case stand for 0 to 15 |
| Hex.OrOfFour | zen/core/encoding/hex.cpp:129 | the or of four table entries is 0xff exactly when one of the four characters is no hex digit: the test misses nothing and rejects nothing valid |
| Hex.PairStep | zen/core/encoding/hex.cpp:132-144 | or-ing the two table entries appends the byte of the digit pair |
| Hex.DecodeFour | zen/core/encoding/hex.cpp:120-136 | one round of the unrolled loop decodes four bytes, or finds a character that is no digit |
| Hex.DecodeRest | zen/core/encoding/hex.cpp:118-146 | both loops together decode all remaining pairs, or find such a character |
| Hex.Decode | zen/core/encoding/hex.cpp:96-147 | equals the plain decoder: fails exactly when some character after the optional prefix is no hex digit, and otherwise pairs the digits, an odd text read with a leading zero |
| Hex.PrefixMeans | zen/core/encoding/hex.cpp:96-104 | the prefix is 0x or 0X, and what follows it is what is decoded |
| Hex.OddText | zen/core/encoding/hex.cpp:106-116 | an odd text is read as with a zero in front, unless that would make a prefix of its x |
| Hex.DecodedAt | zen/core/encoding/hex.cpp:118-146 | byte i is sixteen times the digit at 2i plus the one at 2i+1 |
| Hex.Encode | zen/core/encoding/hex.cpp:81-94 | the length is two characters a byte and two for the prefix; with the prefix the text begins 0x, without it it has none; the two characters at byte i's own place are lower-case digits, upper nibble first, that say that byte |
| Hex.DecodeEncode | zen/core/encoding/hex.cpp:81-147 | decoding undoes encoding for all bytes, with and without prefix |
| Hex.ReverseHex | zen/core/encoding/hex.cpp:51-71 | the characters at each pair's place are the pair counted from the end of the input, in their order; a lone first digit comes last behind a zero; a prefix is kept in front as 0x |
| Hex.ReversePairsDecode | zen/core/encoding/hex.cpp:61-68 | the reversed text has an even number of characters, all digits exactly when the input's are, and decodes to the bytes reversed |
| Hex.ReverseHexReverses | zen/core/encoding/hex.cpp:51-147 | every valid text decodes after reverse_hex to its bytes reversed; an invalid text becomes valid exactly when it has no prefix, its tail reads as one (or it is a lone x), and the rest is digits |
| Hex.ReverseHexHidesError | zen/core/encoding/hex.cpp:51-71 | "ab0x" is such a text |
| Serialization.DataStream.constructor | zen/core/serialization/stream.cpp:71-74 | an empty stream, nothing unread |
| Serialization.DataStream.Write | zen/core/serialization/stream.cpp:22-24 | appends behind the unread bytes |
| Serialization.DataStream.PushBack | zen/core/serialization/stream.cpp:38 | appends one byte behind the unread bytes |
| Serialization.DataStream.Read | zen/core/serialization/stream.cpp:40-48 | returns and consumes the next count bytes, or fails and does not move |
| Serialization.DataStream.Skip | zen/core/serialization/stream.cpp:50-52 | consumes count bytes, or all when there are fewer |
| Serialization.DataStream.Seekp | zen/core/serialization/stream.cpp:58 | never moves past the end |
| Serialization.DataStream.Shrink | zen/core/serialization/stream.cpp:62-65 | drops the consumed bytes and keeps exactly the unread ones |
| Serialization.DataStream.Clear | zen/core/serialization/stream.cpp:71-74 | nothing is left, read or unread |
| Serialization.DataStream.GetClear | zen/core/serialization/stream.cpp:76-79 | the unread bytes move to the end of the other stream |
| Serialization.WriteData | zen/core/serialization/serialize.hpp:48-52 | appends the bytes of the value, signed or unsigned, in two's complement and little-endian order |
| Serialization.ReadData | zen/core/serialization/serialize.hpp:106-114 | the unsigned value of the next bytes, consumed; a failed read consumes nothing |
| Serialization.ReadSigned | zen/core/serialization/serialize.hpp:106-114 | the signed value of the next bytes, consumed; a failed read consumes nothing |
| Serialization.DataRoundTrip | zen/core/serialization/serialize.hpp:48-114 | what was written comes back, unsigned values as unsigned and signed values as signed, and the bits written are the value's, or the value's plus 256^size below zero |
| Serialization.WriteBool | zen/core/serialization/serialize.hpp:56-59 | appends 0 for true and 1 for false |
| Serialization.ReadBool | zen/core/serialization/serialize.hpp:106-114 | true for any byte but zero, consumed; a failed read consumes nothing |
| Serialization.BoolComesBackNegated | zen/core/serialization/serialize.hpp:56-114 | so every bool written to any stream, and read after what was there before, is the other one |
| Serialization.WriteCompact | zen/core/serialization/serialize.hpp:77-101 | appends the shortest of the four encodings |
| Serialization.CompactFormat | zen/core/serialization/serialize.hpp:77-101 | one byte up to 252, else a marker 253, 254 or 255 and the value's two, four or eight bytes, the low one first |
| Serialization.ReadCompact | zen/core/serialization/serialize.hpp:118-143 | for every content of the stream: the result, and the bytes consumed, failures included |
| Serialization.CompactRoundTrip | zen/core/serialization/serialize.hpp:77-143 | a value written comes back and exactly its ser_compact_sizeof bytes are consumed if and only if it does not exceed 0x02000000; above that the reader says it is too big |
| Serialization.CompactCanonical | zen/core/serialization/serialize.hpp:118-143 | a successful read consumed exactly the bytes the writer emits for its result |
| Serialization.ListRoundTrip | zen/core/serialization/serialize.hpp:36-143 | any list of values within the limit comes back, consuming exactly the sum of the sizes and nothing behind it |
| Serialization.ListAt | zen/core/serialization/serialize.hpp:77-101 | the encoding of value i stands behind those of the values before it |
| Serialization.ListCanonical | zen/core/serialization/serialize.hpp:118-143 | any list read was, byte for byte, what the writer emits for it |
| Serialization.WriteList | zen/core/serialization/serialize.hpp:77-101 | writing values one after another appends the list's encoding |
| Serialization.ReadList | zen/core/serialization/serialize.hpp:118-143 | reading values one after another gives the parsed list or the first failure, and consumes what was parsed |
| Serialization.ListThroughStream | zen/core/serialization/serialize.hpp:77-143 | end to end: any list within the limit, written to any stream and read after what was there before, comes back whole and leaves nothing |
| Amounts.ToString | zen/core/types/amounts.cpp:41-71 | the stripping loop ends and leaves the formatted text without trailing zeros and trailing point, followed by a space and ZEN |
| Amounts.DigitsAre | zen/core/types/amounts.cpp:51 | the decimal digits are 0 to 9 and stand for themselves |
| Amounts.TextShape | zen/core/types/amounts.cpp:51-68 | a non-negative amount prints as its whole coins, then nothing or a point and the fraction's digits without trailing zeros: no significant digit is stripped, and every other one is |
| Amounts.AcceptedIffMatch | zen/core/types/amounts.cpp:85-92 | the inputs accepted are exactly those matching the pattern |
| Amounts.MatchUnique | zen/core/types/amounts.cpp:90-95 | an input matches in one way only |
| Amounts.ValueFits | zen/core/types/amounts.cpp:101-103 | every matching input stands for a value that fits int64 |
| Amounts.Parse | zen/core/types/amounts.cpp:83-107 | the decimal value in units of 10^-8, or the error that applies |
| Amounts.ParseMeaning | zen/core/types/amounts.cpp:83-107 | every matching input yields the value of its two groups and is accepted exactly when that is valid money |
| Amounts.ParseUndoesPrint | zen/core/types/amounts.cpp:41-107 | for every non-negative amount: parsing the printed text gives it back exactly up to 21 million coins, and above that the error is the range or, from 10^16 on, the syntax |
| Amounts.PrintInjective | zen/core/types/amounts.cpp:41-71 | no two non-negative amounts print alike |
| Amounts.NegativeFormat | zen/core/types/amounts.cpp:44-51 | before stripping, a negative amount carries its sign and the quotient's own |
| Amounts.NegativePrint | zen/core/types/amounts.cpp:41-71 | a negative amount prints as a minus sign and its absolute value exactly above minus one coin; from there down with two minus signs |

## Left out

- The OpenSSL compression functions and initial values are parameters of `Digest.Algorithm`: everything about the four hashers and what is built on them holds for whatever they compute. Only the legacy SHA-256 has its compression function modelled.
- The four hasher classes are one class with a `Padding.Variant` of constants. Their contexts are values there; sharing and recycling of contexts is the subject of `ContextPool`, for one class and one thread-local pool.
- `ContextPool` models a run over many hashers on values (cells and contents), not on heap objects; `ContextPool.UpdateIsFeed` ties its feeding step to `Hasher.Update`.
- Sha256Transform.Transform: the sixty-four lines are four methods of sixteen, and `w += ...` inside an argument is a call of `Extend` before the round; `Sha256Old::Write` is three methods in a row. Order and effect are the source's.
- SHA-512 above 2^61 bytes: the upper half of the length field stays zero, so the padding differs from the standard's; `Padding.SuffixIsStandard` says exactly when.
- Digest.HashIsStandard: asks for less than 2^61 bytes for SHA-1, SHA-256 and SHA-512; for the first two no longer message is defined, for SHA-512 longer ones fail as `Padding.SuffixIsStandard` says.
- libmdbx itself is a contract: class `Cursors.Cursor` over a sorted sequence of single-value records. After a failed move the cursor counts as at the end of data; after an erase, current and next give the record that followed, previous the one before. Multi-value tables, transactions, cursor handles and `open_env` are not modelled, nor a walker that changes the table it walks.
- LockedPages.Manager.LockRange: takes a number of rounds after which it is cut off, because on a range that reaches the last page of the address space the C++ counter wraps to zero and the loop goes on: it ends as soon as the system refuses a page, and never if none is refused. `UnlockRange` likewise, where pages not in the table are passed over. A range that wraps around zero locks nothing and reports success. Counts are unbounded.
- The page manager's mutex, and the singleton around it, are not modelled: its calls are atomic here.
- Worker: every atomic load, store and compare-exchange is one step, and so is each access to `thread_`, which in C++ is unsynchronised; creating a thread and assigning it to `thread_` are two steps. A join waits for the thread that `thread_` holds; what becomes of a join already blocked when another caller joins the same thread and assigns a new one is not modelled. Not modelled either: when a timed wait wakes up, `start(wait = true)` waiting for its notification (it can miss it, so no termination is claimed), `id_`'s values, what stop returns, the stored exception, and the state-change signal. Destroying a joinable std::thread, and joining it twice inside a noexcept stop, terminate the program in C++; joining through a null `thread_` has no defined behaviour there. All three are the state `crashed` here, in which nothing moves. `Ossignals` only ever raises its flag.
- WorkerCalls.OrderlyCallersNeverCrash: one way only, as a rule for callers about the starts they make; what is exact is about the assignments those starts come to, in `WorkerCalls.CallersCrash`. Overlapping waiting stops may or may not end the program, and are not characterised further.
- Worker.KicksAccountedFor: a start that stores `kicked = false` overwrites a pending kick; such a kick counts as answered.
- Serialization.DataStream.Read: positions are naturals; `read_position_ + count` wrapping past 2^64 is not modelled.
- Serialization.DataStream.Skip: likewise.
- `DataStream`'s `insert`, `erase` and `resize` are left out (`resize` can leave the read position past the end).
- Integers are stored by memcpy; the model is of a little-endian host. Floats and doubles are stored as integers of the same bits and add nothing.
- Hex: integer encodings, `zeroless_view` and `decode_digit` are left out as easy. `decode_digit` is the table lookup of `Hex.TablesGiveDigits`.
- Amounts.Parse: the regular expression engine is not modelled; the pattern is stated as what it means on the whole input, a `$` matching at the end only. `boost::format` and `std::to_string` are modelled as decimal printing.
- `Amount`'s arithmetic operators, `FeeRate` and its fee (not monotone because of the zero fallback), `CappedSet`, Jenkins' hash, Base64, the fixed-width hash type, stage progress, schema versions, directories, logging and signals handling: input and output, thin wrappers, or easy.
- The counters and logs that only observe (`message`, `text`, `log`, `stopStores`, `trueReturns`) are unbounded and have no counterpart in the program.
