# dutil core, modelled in Dafny

This project models six small sequential cores of the Go utility library
`dutil` and proves what their code promises:

- **pkg/dsync** (`DSync`, dsync.dfy): the distributed read-write mutex.
  - Quorum and tolerance arithmetic, with the write-lock tie-break.
  - The grant table of one lock round, one slot per lock server.
  - `checkQuorumMet`, `releaseAll`, `cleanLocks` and `unlock`.
  - The decision loop of `lock`, which runs over a given order of answers and a position for the acquire timeout. After it, the late answers are drained.
  - The commit of a successful round into `writeLocks` or the `readersLocks` queue.
  - `Unlock` and `RUnlock`.
  - Every `sendRelease` is returned to the caller as a `Release(index, uid, isRead)` entry.
- **pkg/chash/hash32.go** (`Murmur32`, hash32.dfy): `sum32`, and the byte picker `hashFunc`.
  - `sum32` is MurmurHash3 x86_32 under the seed 0x1234abcd.
  - It is written as the imperative block loop and fall-through switch, and proved equal to a block-by-block reference definition.
- **pkg/chash/set.go** (`NodeSets`, nodeset.dfy): the `NodeSet` registry. It holds a list, a map from name to position, and a uint32 count.
- **pkg/filter/bloomfilter.go** (`BloomFilter`, bloomfilter.dfy): `Put`, `Contains` and `Delete` on the 2^20-byte array.
- **pkg/limiter** (`Limiter`, limiter.dfy): the token bucket and the leaky bucket, on Go int64 arithmetic.
  - The int64 arithmetic is modelled with wrap-around and with division that truncates toward zero (module `GoInt`, goint.dfy).
  - `now` is the nanosecond within the current second.
- **pkg/uidgen/genid.go** (`UidGen`, uidgen.dfy): the snowflake generator. It has a sequence counter that wraps at 1000, and the 64-bit layout of the identifier.

Each object whose fields the Go code updates is a Dafny `class`:
`DRWMutex`, `NodeSet`, `BloomFilter64`, `TokenBucket`, `LeakyBucket` and
`IdGenerator`. Its methods state the new state in terms of the old, and they
are proved against functions on values. The lemmas about those functions carry
the properties.

Parameters stand in for three things:

- The lock servers: the order of their answers, and the answer before which the
  timeout fires.
- Each `lockBlocking` attempt: one `Round` of a given sequence.
- The clocks and murmur3's 64-bit hash.

## Model

| member | source | states |
|---|---|---|
| DSync.IsLocked | pkg/dsync/drwmutex.go:63-69 | a uid, or an answer's uid, holds a grant iff it is not the empty string |
| DSync.QuorumFor | pkg/dsync/drwmutex.go:196-213 | the tolerance is always n minus the quorum; an explicit tolerance t gives quorum n − t, except that a write lock whose quorum would equal t gets t + 1 |
| DSync.DefaultQuorums | pkg/dsync/drwmutex.go:196-213 | with the default tolerance a write lock needs n/2 + 1 grants and a read lock n − n/2, at least half |
| DSync.WriteQuorumIsMajority | pkg/dsync/drwmutex.go:201-211 | for n ≥ 1 and the default tolerance (or one of at most n/2) the write quorum is a strict majority, 2q > n, and at most n |
| DSync.QuorumInRange | pkg/dsync/drwmutex.go:196-213 | for n ≥ 1 and 0 ≤ tolerance < n the quorum lies in 1..n and the recomputed tolerance is not negative |
| DSync.QuorumsIntersect | pkg/dsync/drwmutex.go:201-211 | two tables of one length whose grant counts sum to more than the length share a granted slot |
| DSync.WriteLocksOverlap | pkg/dsync/drwmutex.go:201-211 | two tables that each meet the default write quorum have a lock server granting both (no split brain) |
| DSync.EmptyTable | pkg/dsync/drwmutex.go:72-78 | the table of n empty slots, all not granted |
| DSync.CountFill | pkg/dsync/drwmutex.go:280-282 | writing a grant into an empty slot adds one to the count |
| DSync.CheckQuorumMet | pkg/dsync/drwmutex.go:336-345 | true iff the number of non-empty slots is at least the quorum |
| DSync.ReleaseAll | pkg/dsync/drwmutex.go:348-355 | sends exactly ReleasesOf the old table and leaves every slot empty |
| DSync.ReleasesOfExactly | pkg/dsync/drwmutex.go:348-355 | a release is sent for a slot iff the slot was granted, and it carries that slot's own uid and the lock kind |
| DSync.ReleasesOfOncePerSlot | pkg/dsync/drwmutex.go:348-355 | one release per granted slot, in strictly increasing slot order, so no server is released twice |
| DSync.ReleasesOfEmpty | pkg/dsync/drwmutex.go:417-429 | an all-empty table sends no release |
| DSync.CleanLocks | pkg/dsync/drwmutex.go:150-154 | every slot becomes empty |
| DSync.SendReleases | pkg/dsync/drwmutex.go:417-429 | `unlock` sends exactly ReleasesOf the copied table |
| DSync.AnyLocked | pkg/dsync/drwmutex.go:370-380 | true iff some slot holds a grant, equivalently iff the count is positive |
| DSync.FillCount | pkg/dsync/drwmutex.go:276-293 | from an empty table, after k answers of distinct servers, grants plus refusals equal k, and servers that did not answer keep empty slots |
| DSync.FillHolds | pkg/dsync/drwmutex.go:280-282 | a grant among the answers taken sits in its server's slot |
| DSync.FillKeeps | pkg/dsync/drwmutex.go:280-282 | a server that has not answered keeps its slot |
| DSync.FillFrom | pkg/dsync/drwmutex.go:280-282 | every granted slot of a table filled from empty came from an answer taken |
| DSync.AllAnswersMeetQuorum | pkg/dsync/drwmutex.go:272-312 | if all n servers answered and at most n − quorum refused, the table meets the quorum |
| DSync.DrainExactly | pkg/dsync/drwmutex.go:320-327 | a late answer is released iff it is a grant, with its own index and uid |
| DSync.Decide | pkg/dsync/drwmutex.go:272-309 | the decision loop ends in one of three states (see `Decided`), never after answer `timeoutAt` and exactly there on a timeout; with these bounds the state is unique (DecidedDeterministic) |
| DSync.DrainLate | pkg/dsync/drwmutex.go:320-327 | the releases of the answers after the decision are exactly Drain of them, and the table is not touched |
| DSync.LockRound | pkg/dsync/drwmutex.go:191-332 | the round reaches a `Decided` state no later than the timeout, and exactly at it when the timeout fired, then drains the rest; the result is true iff the final table meets the quorum (checkQuorumMet on the final table) |
| DSync.FailedMonotone | pkg/dsync/drwmutex.go:283-289 | the count of refusals never decreases as answers are taken |
| DSync.RefusalsStopFirst | pkg/dsync/drwmutex.go:283-289 | a refusal past the tolerance ends the loop at that answer: no other bounded decided state of the round exits differently or elsewhere |
| DSync.DecidedDeterministic | pkg/dsync/drwmutex.go:272-309 | two decided states of one round that respect its timeout agree on the exit, the answers taken, the table and the releases |
| DSync.EarlyTimeoutFails | pkg/dsync/drwmutex.go:295-304 | a timeout that fires before quorum-many answers were taken leaves a table below the quorum, so `lock` fails (three granting servers, write quorum 2, timeout before the second answer) |
| DSync.GrantAccounted | pkg/dsync/drwmutex.go:272-327 | after a round from a clean table, every grant is either held in the table or released, never both |
| DSync.ReleaseHasGrant | pkg/dsync/drwmutex.go:272-327 | every release a round sends is for a grant a server gave in it |
| DSync.RoundOutcome | pkg/dsync/drwmutex.go:272-312 | all answers in (tolerance ≥ 0) means the quorum is met; giving up on refusals leaves an empty table, and the quorum had become unreachable; after a timeout the table meets the quorum or is empty |
| DSync.RunAttempt | pkg/dsync/drwmutex.go:150-170 | one attempt from a cleaned table: the record it returns is a run of `lock` on the round that respects the round's timeout (`AttemptOf`), its table is the final table, and the result is true iff that table meets the quorum |
| DSync.NextAttempt | pkg/dsync/drwmutex.go:159-187 | the next attempt after failed ones: the record grows by one attempt on the next round, whose table is the final table, and the releases sent grow by its releases |
| DSync.AttemptsOfAt | pkg/dsync/drwmutex.go:159-187 | in the record, attempt k ran `lock` on round k |
| DSync.FailedAttemptReleasesAll | pkg/dsync/drwmutex.go:159-187 | an attempt that misses the quorum (tolerance ≥ 0) ends with a clean table, and every grant a server gave in it was released |
| DSync.RetriedStep | pkg/dsync/drwmutex.go:159-187 | after failed attempts, one more attempt extends the record, which stays consistent, and appends its releases to those sent |
| DSync.RetriedReleasesFailures | pkg/dsync/drwmutex.go:159-187 | in a `lockBlocking` record, every attempt but the one that locked holds nothing and released each grant it got |
| DSync.DRWMutex.constructor | pkg/dsync/drwmutex.go:72-78 | no write grant and an empty reader queue |
| DSync.DRWMutex.LockBlocking | pkg/dsync/drwmutex.go:142-189 | every attempt made is recorded (`Retried`): each ran `lock` on its round from a cleaned table and reached a `Decided` state within that round's timeout; only the last can meet the quorum, and it does iff the mutex was locked; `sent` is every attempt's releases, in order; on success the last table becomes `writeLocks`, or joins the tail of `readersLocks`; on failure every round was tried and nothing changes |
| DSync.DRWMutex.Commit | pkg/dsync/drwmutex.go:170-184 | a read lock appends the table to the tail of `readersLocks`; a write lock makes it `writeLocks`; the other field is unchanged |
| DSync.DRWMutex.Unlock | pkg/dsync/drwmutex.go:360-390 | panics (Misuse) iff no write slot is granted, changing nothing; otherwise `writeLocks` becomes empty and exactly the previously granted slots are released with their uids |
| DSync.DRWMutex.RUnlock | pkg/dsync/drwmutex.go:395-415 | panics (Misuse) on an empty queue; otherwise removes the head (FIFO), releases exactly its granted slots and keeps the rest of the queue |
| GoInt.Wrap64 | pkg/limiter/token.go:18 | int64 wrap-around: the result differs from x by a multiple of 2^64, and equals x when x fits in int64 |
| GoInt.TruncDiv | pkg/limiter/token.go:18 | Go's `/` for a positive divisor: rounded toward zero, so the remainder has the sign of the dividend and is smaller than the divisor |
| Murmur32.Sum32 | pkg/chash/hash32.go:24-71 | the imperative `sum32` returns Hash(data), the reference MurmurHash3 x86_32 with seed 0x1234abcd |
| Murmur32.MixBlock | pkg/chash/hash32.go:35-41 | one loop iteration folds the scrambled block into h1 as MixH |
| Murmur32.Times5Is | pkg/chash/hash32.go:41 | `h1*4 + h1` is `h1*5` modulo 2^32 |
| Murmur32.ScrambleK | pkg/chash/hash32.go:35-37 | multiply by C321, rotate left 15, multiply by C322 |
| Murmur32.BlocksNext | pkg/chash/hash32.go:32-42 | the block at byte offset 4j, read little-endian, is the next block of the reference definition |
| Murmur32.MixTailSwitch | pkg/chash/hash32.go:44-60 | the fall-through switch mixes a non-empty tail once and leaves h1 alone for an empty one |
| Murmur32.TailKey | pkg/chash/hash32.go:46-55 | the xors of the switch assemble the 1 to 3 tail bytes as a little-endian word |
| Murmur32.TailIsWord | pkg/chash/hash32.go:47-55 | that word is t[0] \| t[1]<<8 \| t[2]<<16, cut to the tail length |
| Murmur32.Finalize | pkg/chash/hash32.go:62-68 | xors in the length as uint32, then the fmix32 steps |
| Murmur32.HashEmpty | pkg/chash/hash32.go:25-31 | the empty input hashes to fmix32(Seed ^ 0) |
| Murmur32.BlocksPrefix | pkg/chash/hash32.go:32-42 | the block pass reads only the complete blocks it covers |
| Murmur32.BlocksAppend | pkg/chash/hash32.go:32-42 | appending one block folds exactly that block into the hash |
| Murmur32.FmixRoundTrip | pkg/chash/hash32.go:64-68 | the finaliser has an inverse, so fmix32 is a permutation of 32-bit words |
| Murmur32.FmixInjective | pkg/chash/hash32.go:64-68 | fmix32 of two states is equal iff the states are |
| Murmur32.HashFunc | pkg/chash/hash32.go:76-80 | as written: bytes 4n, 4n+1, 4n+2 in bits 0-23 and byte 3+n in bits 24-31, all four in range |
| Murmur32.DigestWord | pkg/chash/hash32.go:76-80 | the intended picker: bytes 4n..4n+3 in bits 0-31 |
| Murmur32.HashFuncFirstWord | pkg/chash/hash32.go:76-80 | the two pickers agree for n = 0 |
| Murmur32.HashFuncSecondWordDiffers | pkg/chash/hash32.go:76-80 | they differ for n = 1 on the digest 0..15 |
| NodeSets.NodeSet.constructor | pkg/chash/set.go:15-19 | an empty registry, which is indexed |
| NodeSets.NodeSet.Get | pkg/chash/set.go:21-23 | requires i < \|nodeList\|; the result is a registered name |
| NodeSets.NodeSet.Len | pkg/chash/set.go:44-46 | returns `nodeNum`, which equals \|nodeList\| while the registry is indexed |
| NodeSets.NodeSet.Add | pkg/chash/set.go:25-33 | a mapped name gives DuplicateNode and changes nothing; a new name is appended, mapped to the old count, and the count grows by 1 modulo 2^32; the registry stays indexed |
| NodeSets.AddKeepsIndexed | pkg/chash/set.go:25-33 | while only Add is used, names are distinct, nodeMap[nodeList[i]] == i and nodeNum == \|nodeList\| |
| NodeSets.IndexedLookup | pkg/chash/set.go:21-23 | in an indexed registry a name's recorded position is where Get finds it |
| NodeSets.Without | pkg/chash/set.go:40 | the list with one element cut out, the rest in order |
| NodeSets.NodeSet.Remove | pkg/chash/set.go:35-42 | an unmapped name gives NodeNotExist and changes nothing; a recorded position at or past the end of the list is the slicing panic (IndexPanic) and changes nothing; otherwise exactly the element at the recorded position is cut out; the map and count always stay as they were |
| NodeSets.StaleIndexRemovesWrongNode | pkg/chash/set.go:35-42 | on the indexed registry a, b, c, removing a and then b removes c; removing a and then c panics, since c is still mapped to 2 in a list of length 2 |
| NodeSets.Unmapped | pkg/chash/set.go:35-42 | the corrected map drops exactly the removed name |
| NodeSets.RemoveKeepsIndexed | pkg/chash/set.go:35-42 | the corrected removal keeps the registry indexed and forgets the name |
| NodeSets.NodeSet.RemoveIndexed | pkg/chash/set.go:35-42 | the corrected Remove: error cases as in Remove, and the registry stays indexed |
| BloomFilter.BloomFilter64.constructor | pkg/filter/bloomfilter.go:18-24 | an all-zero array of BitSize bytes and the seeds given |
| BloomFilter.BloomFilter64.Indices | pkg/filter/bloomfilter.go:28 | one index per seed, in seed order, each inside the array |
| BloomFilter.BloomFilter64.Contains | pkg/filter/bloomfilter.go:26-34 | true iff the byte at every seed's index is non-zero; it is false iff some index holds 0, it changes nothing, and it is true for every input when there are no seeds |
| BloomFilter.BloomFilter64.Put | pkg/filter/bloomfilter.go:36-43 | the array becomes SetBits of the old one at the element's indices |
| BloomFilter.SetBitsExactly | pkg/filter/bloomfilter.go:36-43 | an index of the element that held 0 holds 1 afterwards; every other byte is unchanged |
| BloomFilter.PutThenContains | pkg/filter/bloomfilter.go:26-43 | after Put(x), Contains(x) is true |
| BloomFilter.PutOnlyRaises | pkg/filter/bloomfilter.go:36-43 | Put changes no byte outside x's indices, changes no non-zero byte and clears nothing |
| BloomFilter.PutIdempotent | pkg/filter/bloomfilter.go:36-43 | Put twice is Put once |
| BloomFilter.BloomFilter64.Delete | pkg/filter/bloomfilter.go:45-53 | the array becomes ClearBits of the old one: seeds in order, stopping at the first index already 0 |
| BloomFilter.DeleteOnlyClears | pkg/filter/bloomfilter.go:45-53 | Delete touches only x's indices and only clears bytes |
| BloomFilter.ClearKeepsZero | pkg/filter/bloomfilter.go:45-53 | a byte that was 0 stays 0 |
| BloomFilter.DeleteThenAbsent | pkg/filter/bloomfilter.go:26-53 | with at least one seed, after Delete(x) Contains(x) is false |
| Limiter.Periods | pkg/limiter/token.go:18 | whole periods of `rate` since the last time, rounded toward zero: between the readings it counts the complete periods; across the second boundary it is not positive |
| Limiter.NoPeriodsAcrossSecond | pkg/limiter/token.go:17-18 | a reading after the second rolls over counts zero or negative periods, to just under a second's worth, so the bucket drains or refuses |
| Limiter.AcrossSecondRefuses | pkg/limiter/token.go:17-22 | last try at 900000000 ns, now 100000000 ns, rate 100: −8000000 periods, and an empty bucket refuses |
| Limiter.TokenBucket.constructor | pkg/limiter/token.go:33-41 | size 0, the given limit and rate, last try now |
| Limiter.TokensLeft | pkg/limiter/token.go:19-25 | the refilled size minus one, exactly when int64 does not overflow |
| Limiter.TokenBucket.Try | pkg/limiter/token.go:16-29 | PoolFull iff size + fill − 1 < 0, and then nothing changes; otherwise size' = size + fill − 1 ≥ 0 and lastTry' = now; limit and rate are constants |
| Limiter.SameInstantRefused | pkg/limiter/token.go:33-41 | a new bucket refuses a Try at the same instant |
| Limiter.TokensExceedLimit | pkg/limiter/token.go:16-29 | as written the limit is never consulted: a bucket of limit 1000 can hold 9999998 tokens |
| Limiter.CappedTokensLeft | pkg/limiter/token.go:23-25 | the intended refill, capped at the limit before one token is taken |
| Limiter.CappedBelowLimit | pkg/limiter/token.go:23-25 | with the cap, and away from overflow, the tokens left are below the limit |
| Limiter.TokenBucket.TryCapped | pkg/limiter/token.go:16-29 | the corrected Try: as Try, but the size after a success is below the limit |
| Limiter.Drained | pkg/limiter/leaky.go:27 | size − pieces in int64, exact when it does not overflow |
| Limiter.LeakyFull | pkg/limiter/leaky.go:28 | the guard `limit - (size - pieces) < 1`; away from int64 overflow it holds iff the drained load is at least the limit |
| Limiter.LeakyWithinLimit | pkg/limiter/leaky.go:28-33 | away from int64 overflow, an accepted request leaves size' = size − pieces + 1 ≤ limit |
| Limiter.LeakyBucket.constructor | pkg/limiter/leaky.go:14-22 | the struct literal: every field as given |
| Limiter.LeakyBucket.Try | pkg/limiter/leaky.go:25-39 | PoolFull iff limit − (size − pieces) < 1, and then size, lastLeaky and reqs are unchanged; otherwise size' = size − pieces + 1, lastLeaky' = now and reqs grows by the handler at the tail |
| Limiter.LeakyBucket.Dequeue | pkg/limiter/leaky.go:48-51 | needs a non-empty queue; returns the head and keeps the rest in order (FIFO) |
| UidGen.Num | pkg/uidgen/genid.go:25-28 | from a valid counter the value taken lies in 0..999, and it is the counter itself unless the counter was 1000, which resets to 0 |
| UidGen.IdGenerator.constructor | pkg/uidgen/genid.go:15 | the counter starts at 0, which is valid |
| UidGen.Millis | pkg/uidgen/genid.go:31 | `UnixNano()/1000000`: whole milliseconds, rounded toward zero for negative times as Go does |
| UidGen.Elapsed | pkg/uidgen/genid.go:31 | `uint64(millis) - StartEpoch`: the difference taken modulo 2^64 as a uint64 |
| UidGen.IdGenerator.SnowFlake | pkg/uidgen/genid.go:23-32 | the counter becomes the value taken plus one, and the identifier is Compose of the clock in milliseconds and that value |
| UidGen.PackFields | pkg/uidgen/genid.go:31 | low 10 bits are the sequence value, bits 10-21 are MachineNum = 16, bits 22 up are the elapsed milliseconds shifted left by 22 |
| UidGen.ComposeFields | pkg/uidgen/genid.go:10-31 | the same, with the elapsed milliseconds (millis − StartEpoch) mod 2^64 |
| UidGen.PackInjective | pkg/uidgen/genid.go:31 | two sequence values in one millisecond give different identifiers |
| UidGen.RunUpToWrap | pkg/uidgen/genid.go:15-29 | from counter j the calls up to the wrap yield j, j+1, ..., 999; from the initial 0, the first 1000 calls yield 0..999 in order |
| UidGen.ThousandCycle | pkg/uidgen/genid.go:25-29 | the calls after the first 1000 start over from 0 |

## Left out

- Concurrency in pkg/dsync is not modelled: goroutines, the buffered channel, `sync.WaitGroup` and the mutex `m`. The fan-out becomes a given arrival order with one answer per server.
- Timing in pkg/dsync is not modelled either: `time.After`, the `context` deadlines and the randomised sleep between attempts. The timeout is a position in the arrival order, and the deadline of `lockBlocking` is the end of the given rounds.
- The lock servers (`NetLocker`, `Dsync`, `LockArgs`, `GetLockersFn`) are not part of this model. Their answers are the `Granted` values, and their number n is fixed for the life of a mutex.
- A nil lock server answers with a refusal, so it is just a refusal in the arrival order.
- The public wrappers `Lock`, `GetLock`, `RLock` and `GetRLock` only fix the lock kind and the timeout of `lockBlocking`, so they are not modelled separately.
- Logging and the environment-variable `init` in drwmutex.go are left out.
- DSync.DRWMutex.Unlock, DSync.DRWMutex.RUnlock: a panic is a `Misuse` result that changes nothing, rather than a precondition. The panic happens before any field changes; the deferred `dm.m.Unlock()` only frees `m`.
- DSync.LockRound: the contract does not say which releases reach a nil lock server. `sendRelease` returns without calling such a server, and that happens outside the tables.
- murmur3's `Sum64WithSeed` is not part of this model. The Bloom filter takes it as a function whose values index the array, which the Go code needs to avoid an index panic.
- The `murmurHash` stub methods of hash32.go return constants and are left out. So is pkg/chash/chash.go, which only delegates to the set and to a hash it never sets up.
- NodeSets.NodeSet.constructor: Go has no constructor for `NodeSet`. The model starts from an allocated empty map; a zero-value `NodeSet` has a nil map and panics on its first `Add`.
- NodeSets.AddKeepsIndexed: the registry invariant is stated only below 2^32 names. The count itself wraps modulo 2^32 in NodeSets.NodeSet.Add.
- The `sync.Locker` use and `time.Now()` in the limiters and in genid.go are not modelled. `now` is a parameter in [0, 10^9), and the Unix time is a parameter.
- `Serve` in leaky.go is modelled only as its dequeue step, Limiter.LeakyBucket.Dequeue. The ticker loop, `go handler()` and the closure's result are left out, and the queued closures are values of a type parameter.
- Limiter.LeakyWithinLimit: the bound is proved only when the fields stay within a quarter of the int64 range. With wrap-around, `limit - (size - pieces)` can overflow.
- NodeSets.NodeSet.Get: an index past the list is a Go runtime panic; the model makes it a precondition instead of a result.
- Limiter.LeakyBucket.Dequeue: taking from an empty queue is a Go runtime panic; the model makes it a precondition.
- Murmur32.HashFunc: a digest too short for `nTime` is a Go runtime panic; the model makes it a precondition.
- Limiter.LeakyBucket.Try: Go queues a fixed closure that returns nil, not the caller's handler; the model queues the handler it is given.
- `PID` and its `init` in genid.go are not modelled, because nothing reads them.
- The global mutex `L` in genid.go is not modelled. The counter is a field of one `IdGenerator`.

## Findings

| source | as written | input that shows it | evidently intended | confidence | as-written member | corrected member |
|---|---|---|---|---|---|---|
| pkg/chash/hash32.go:77 | the top byte is `digest[3+nTime]` | nTime = 1 on the digest 0, 1, ..., 15 gives 0x04060504 | `digest[3+nTime*4]`, like the three other bytes, which gives 0x07060504 | not executed | Murmur32.HashFuncSecondWordDiffers | Murmur32.DigestWord |
| pkg/chash/set.go:35-41 | `Remove` cuts the list but leaves `nodeMap` and `nodeNum` as they were | register a, b, c; Remove(a) leaves b, c; Remove(b) then cuts out c and leaves b, and `Len` still says 3; Remove(c) after Remove(a) instead panics, since c is still mapped to 2 and the list has length 2 | the map forgets the name, later names move down one place and the count drops by one | not executed | NodeSets.StaleIndexRemovesWrongNode | NodeSets.NodeSet.RemoveIndexed |
| pkg/limiter/token.go:23-25 | the refill is never capped: `limit` is set but never read | limit 1000, rate 100 ns, size 0, a Try 999999900 ns after the last one leaves 9999998 tokens | the refill is capped at `limit` before a token is taken, which leaves 999 | not executed | Limiter.TokensExceedLimit | Limiter.TokenBucket.TryCapped |
