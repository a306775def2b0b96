# Groove proxy: caches, dialers, tapes and locks

A Dafny model of the stateful core of the Groove proxy, with proofs of what each part keeps over
whole runs. `dafny verify dfyconfig.toml` checks the project.

## What is modelled

**The byte-bounded LRU cache** (`groove/proxy/cache/lru.go`). `LruCache.dfy` is the class itself:
recency list, key-to-element map, byte counter and backing store, updated in place. Every method
is proved against `RecencyList.dfy`, where a cache is the list of its entries from the freshest to
the oldest. `LruHistory.dfy` is about whole call sequences: order by last touch, choice of
victims, capacity. `LruThreads.dfy` is the same cache shared by any number of threads; one step is
one block under `linkedListLock` or one backing-store callback, and a schedule is any sequence of
steps. Its invariant is weaker than the sequential one, since two overlapping Sets of one key leave a
list element that the map has lost. `LruOrphans.dfy` is about what such an element costs,
`LruEviction.dfy` about what it does to the eviction loop, `LruFiles.dfy` about keys that lose their
file. `LruSolo.dfy` and `LruSequential.dfy` tie the shared cache back to the sequential one: calls
that do not overlap leave, whichever threads make them, what one caller's calls leave.

**The two-tier cache** (`groove/proxy/cache/invalidator.go`). `Invalidator.dfy` stacks a memory
LRU on a disk LRU, with the index file, saved by goroutines that run whenever they get to, in the
middle of other calls too; `TierProperties.dfy` proves that no run serves a stale value, that the
memory tier stays inside the disk tier when all values have one size, and what a restart from the
index restores. `TierOrder.dfy` has each tier's order over whole runs, `TierSaves.dfy` counts the
saves. `TierThreads.dfy` shares the two tiers between threads, `TierSerial.dfy` says what they do
when calls do not overlap. `ResponseCache.dfy` is the response cache on top (`groove/proxy/cache.go`).

**Dialers** (`groove/proxy/dialers.go`, `groove/proxy/transport.go`). `Dialers.dfy` has the chooser
and the retry loop, for every random draw, every outcome of the attempts and every replacement of
the definitions between attempts; `DialerRuns.dfy` characterises the sequences that can be tried.

**Tapes** (`groove/proxy/recorder.go`, `groove/proxy/utilities.go`, `groove/proxy/archives.go`).
`Archives.dfy` has archived messages, header rebuilding and redirect histories, `Recorder.dfy` the
recorder, `RecorderRuns.dfy` the refinement to one queue for each tape and URL and the replay of a
recorded session.

**Locks**. `CertStore.dfy` is the certificate store's two-level locking
(`groove/proxy/optimized_storage.go`), `CertFetches.dfy` what a Fetch returns; `RequestLocks.dfy` has
the per-URL request locks (`groove/proxy/cache.go`), `RequestReleases.dfy` releases by anybody. All
are thread steps under every schedule.

**Smaller algorithms**. `PfConfig.dfy` is the pf.conf reader and printer
(`proxy-benchmarks/proxy_benchmarks/networking.py`), `PfConfigLines.dfy` its format line by line;
`CacheKey.dfy`, `CacheKeySort.dfy`,
`CacheKeyStrings.dfy` and `CacheKeyUniqueness.dfy` are cache keys (`groove/proxy/cache_key.go`).

## Where the code and what is said of it disagree

The model follows the code.

- A capacity of -1 is documented as unbounded (`groove/proxy/cache/lru.go:31`); the code refuses
  every entry (`groove/proxy/cache/lru.go:177`). See `LruHistory.CapacityIsRespected`.
- The eviction loop of a shared cache can spin for ever while it holds the lock. Whether it ends
  is settled by list, map and counter at its start: `LruEviction.EvictionEndsOrSticks`.
- The byte counter of a shared cache can exceed the bytes stored for good. When it is exact is
  stated by `LruOrphans.CounterIsStoredIff`; that an orphaned element is never made good again by
  `LruOrphans.OrphansStay` and `LruOrphans.OrphanCostsForGood`; when one arises by
  `LruOrphans.NoOrphansIffSafePublications`.
- In a shared cache a key can lose its file and stay listed, since files are written and erased
  outside the lock (`groove/proxy/cache/lru.go:112`, `groove/proxy/cache/lru.go:166`). When that
  happens is stated by `LruFiles.FilesMatchIffStepsAreSafe`; `LruFiles.LateEraseLosesFile` is an
  instance.
- The index is meant to be saved every few operations, but an existing file is opened read-only
  (`groove/proxy/cache/invalidator.go:247`), so only the save that creates it persists anything.
  What a restart makes of it later is stated by `TierProperties.RestartAfterFirstSave`: a key stored
  since then has its file, but the rebuilt list does not have it.
- Overlapping Sets of one key can leave different values in the two tiers, which are written one
  after the other (`groove/proxy/cache/invalidator.go:180-181`). When the tiers stay coherent is
  stated by `TierThreads.CoherentIffSetsAreSafe`; `TierThreads.UnsafeSetLeavesTiersAtOdds` shows the
  condition is needed.
- Dialers of negative priority are never tried, because the maximum starts at 0
  (`groove/proxy/dialers.go:241`).
- A request lock excludes others only as long as no Unlock hits a URL another request holds, and two
  overlapping releases of one URL can end the process. See `RequestLocks.GuardedIffUnlocksAreSafe`;
  that releases which do not overlap never do is `RequestReleases.ReleasesApartAreSafe`.
- `Less` asks the same question twice (`groove/proxy/cache_key.go:31`) and is not lexicographic,
  so the key of a query such as `?a=2&b=1` depends on Go's map iteration. When it does is stated by
  `CacheKeyStrings.KeyIsOrderIndependentIff`, if no parameter's text begins with another's;
  `CacheKeyStrings.SeparatorsHideOrder` shows why that premise is there.
- Different requests do not in general have different keys, since method, host and path, keys and
  values are joined without escaping (`groove/proxy/cache_key.go:66-69`): `?a=1%26b%3D2` and
  `?a=1&b=2` share a key (`CacheKeyStrings.SeparatorsShareKeys`), and so do `h/x?y-a=1` and
  `h/x-y?a=1` (`CacheKeyUniqueness.DashesShareKeys`), and one can be served the entry of the other.
  A request shares its key with no other if and only if it has at most one parameter and no stray
  separator: `CacheKeyUniqueness.RequestIsAloneIff`; in particular every query of two or more
  parameters shares its text with another one, `CacheKeyUniqueness.JoinIsUniqueIff`. When the keys of
  two given requests do tell them apart is stated by `CacheKeyStrings.KeyIdentifiesRequest`.
- Python's `lstrip` takes a set of characters, so reading a `load anchor` line also eats the
  beginning of some values (`proxy-benchmarks/proxy_benchmarks/networking.py:99`).

## Model

| member | source | states |
|---|---|---|
| `RecencyList.SetOutcome` | groove/proxy/cache/lru.go:82-124 | For a capacity of at least 0: a value that fits goes in front of the longest prefix of the other entries that leaves it room; a failed write leaves exactly that prefix; an oversized value empties the cache and is not stored; the capacity holds afterwards |
| `RecencyList.SetUnderNegativeCapacity` | groove/proxy/cache/lru.go:82-106 | Under a negative capacity a Set drops its key's entry and does nothing else: no eviction, no storing |
| `RecencyList.FitIsLongestPrefix` | groove/proxy/cache/lru.go:88-100 | What eviction from the back keeps is the longest prefix that fits, nothing shorter |
| `RecencyList.EvictOldest` | groove/proxy/cache/lru.go:91-97 | Dropping the oldest entry of an over-full list shortens it by one and does not change which prefix ends up fitting |
| `RecencyList.AfterGetAt` | groove/proxy/cache/lru.go:58-70 | With distinct keys, reading entry j returns its value and moves that entry to the front, the others keeping their order |
| `RecencyList.AfterGetOfAbsent` | groove/proxy/cache/lru.go:58-70 | Reading an absent key finds nothing and changes nothing |
| `RecencyList.AdmittedIff` | groove/proxy/cache/lru.go:86-182 | After eviction a value finds room if and only if it is no larger than the whole capacity |
| `RecencyList.CallsKeepKeysDistinct` | groove/proxy/cache/lru.go:72-167 | No call lists a key twice |
| `LruCache.LRUCache.constructor` | groove/proxy/cache/lru.go:47-56 | A new cache is consistent and empty |
| `LruCache.LRUCache.FromIndex` | groove/proxy/cache/invalidator.go:109-150 | Whatever index and files there are: one element for each index entry in order, the map leading to the last one of each key, the counter at the index's byte total; in step, the cache that left them comes back whole |
| `LruCache.LoadedInStep` | groove/proxy/cache/invalidator.go:142-147 | Elements loaded from the metadata of distinct entries are in bijection with the map and agree with those entries' files, in their order |
| `LruCache.LRUCache.LoadMetadata` | groove/proxy/cache/invalidator.go:142-147 | For any index, repeated keys included, the list records its entries front to back and the map holds the last element of each key |
| `LruCache.TotalSize` | groove/proxy/cache/invalidator.go:220-224 | The loop over the index yields the sum of all recorded sizes |
| `LruCache.SumOfSizesIsTotal` | groove/proxy/cache/invalidator.go:220-226 | The sizes in a written index sum to the bytes the cache holds |
| `LruCache.LRUCache.Has` | groove/proxy/cache/lru.go:127-129 | True exactly for resident keys, and list, map and store stay in step |
| `LruCache.LRUCache.Get` | groove/proxy/cache/lru.go:58-70 | Returns the key's value or nothing; a resident key becomes the freshest and nothing else changes |
| `LruCache.LRUCache.Delete` | groove/proxy/cache/lru.go:145-167 | Removes exactly the key's entry from list, map, counter and store together |
| `LruCache.LRUCache.DeleteAll` | groove/proxy/cache/lru.go:135-143 | Leaves an empty, consistent cache |
| `LruCache.LRUCache.EvictFor` | groove/proxy/cache/lru.go:88-100 | The loop ends and leaves the freshest entries that fit, no fewer |
| `LruCache.LRUCache.AllocateSpace` | groove/proxy/cache/lru.go:169-182 | Reserves the bytes if and only if they fit on top of what is held, entries unchanged |
| `LruCache.LRUCache.Publish` | groove/proxy/cache/lru.go:112-123 | Turns a reservation into the freshest entry, counter exact again |
| `LruCache.LRUCache.Store` | groove/proxy/cache/lru.go:102-124 | Either the entry is in front, or a failed write or lack of space leaves entries and counter exactly as before; an error is reported only for a failed write |
| `LruCache.LRUCache.MakeRoom` | groove/proxy/cache/lru.go:82-100 | The key's old entry is gone, and what is left is the longest prefix of the rest that leaves room |
| `LruCache.LRUCache.Set` | groove/proxy/cache/lru.go:72-125 | The multi-phase Set computes, on list, map, counter and store, the Set described by SetOutcome, for both outcomes of the write |
| `LruCache.UnlinkAndErase` | groove/proxy/cache/lru.go:154-166 | Unlinking a key's element and erasing its file keeps list, map and store describing the same keys and accounts for exactly its bytes |
| `LruCache.Touch` | groove/proxy/cache/lru.go:61-67 | Moving a mapped element to the front keeps list, map and store in step and frees no byte |
| `LruHistory.ListIsOrderedByLastTouch` | groove/proxy/cache/lru.go:58-125 | In every reachable state the list runs strictly from the latest touched key to the earliest, each key once |
| `LruHistory.CallKeepsOrder` | groove/proxy/cache/lru.go:58-125 | One call keeps the list in the order of touches, a touch counting as later than all before it |
| `LruHistory.VictimsWereTouchedFirst` | groove/proxy/cache/lru.go:88-99 | Every entry a Set evicts was touched before every entry it keeps |
| `LruHistory.CapacityIsRespected` | groove/proxy/cache/lru.go:30-34 | No run from an empty cache holds more than the capacity; a negative capacity never holds anything |
| `LruThreads.ListStaysSound` | groove/proxy/cache/lru.go:58-167 | No step of any thread duplicates an element or maps a key to an unlisted or wrongly keyed one |
| `LruThreads.CounterStaysExact` | groove/proxy/cache/lru.go:72-182 | Every step keeps the counter equal to listed sizes, orphans included, plus reservations, within the capacity |
| `LruThreads.LockStaysExclusive` | groove/proxy/cache/lru.go:86-100 | Only the thread in the eviction loop holds the lock over several steps |
| `LruThreads.ReasonSurvives` | groove/proxy/cache/lru.go:112-166 | A stored value keeps a reason to be there across a step of another thread, or of its own thread once the value is listed |
| `LruThreads.StepKeepsInv` | groove/proxy/cache/lru.go:58-182 | Each lock-protected block and each store callback keeps the whole invariant; what a call as a whole does is `LruSequential.CallAloneIsSequential` |
| `LruThreads.EveryScheduleIsSafe` | groove/proxy/cache/lru.go:58-182 | The invariant holds under every schedule of any number of threads |
| `LruThreads.SharedCacheIsSound` | groove/proxy/cache/lru.go:58-182 | From an empty cache, under every schedule: counter = listed + reserved and within 0 to capacity, mapped elements listed under their key, each stored value listed at its size, about to be published or about to be erased |
| `LruThreads.ListCoversStore` | groove/proxy/cache/lru.go:102-124 | If every stored value is listed at its size, the store holds no more bytes than the list accounts for |
| `LruThreads.IdleCacheIsWithinCapacity` | groove/proxy/cache/lru.go:72-167 | Whenever all threads are idle, bytes stored are at most the counter and the counter at most the capacity |
| `LruSolo.SoloAdvance` | groove/proxy/cache/lru.go:58-182 | While the others are idle, each step of a call brings it nearer its end and keeps list, map, store and counter where that point of the sequential call has them; the last step leaves the sequential call's entries |
| `LruSequential.CallAloneIsSequential` | groove/proxy/cache/lru.go:58-182 | From an idle cache whose list, map, store and counter agree, a Set, Get or Delete that one thread runs while the others stay idle ends within 2n + 8 of its steps and leaves exactly the entries the sequential call leaves, in agreement again |
| `LruSequential.CallsOneAtATime` | groove/proxy/cache/lru.go:58-182 | From such a cache, any schedule in which no two calls overlap never lists an orphan and, when idle, holds what the sequential cache holds after the completed calls |
| `LruSequential.NonOverlappingIsSequential` | groove/proxy/cache/lru.go:58-182 | So from an empty cache: when idle, the list gives the sequential run's entries in order, map and store have exactly their keys and values, and the counter is the bytes stored |
| `LruEviction.RoundProgress` | groove/proxy/cache/lru.go:90-98 | A round of the eviction loop shortens the list if and only if the oldest element's key is mapped; otherwise list, map and counter are as before |
| `LruEviction.HolderOwnsList` | groove/proxy/cache/lru.go:89-99 | While one thread evicts, no step of another changes list, map or counter |
| `LruEviction.StuckForever` | groove/proxy/cache/lru.go:90-98 | An eviction facing an unmapped oldest element keeps the lock and the list under every continuation |
| `LruEviction.EvictionEndsOrSticks` | groove/proxy/cache/lru.go:88-100 | Under every schedule that gives the thread two steps an element and one more, whatever the others do: the loop ends if and only if evicting from the back frees enough, judged on list, map and counter at its start, and otherwise it is stuck for good |
| `LruEviction.EvictionNeverEnds` | groove/proxy/cache/lru.go:88-100 | Where it does not free enough, no schedule of any length ends the loop or releases the lock |
| `LruEviction.EvictionKeepsFrees` | groove/proxy/cache/lru.go:90-98 | Whether evicting from the back frees enough is not changed by an eviction, of the back element or of another one with its key |
| `LruEviction.MappedListFrees` | groove/proxy/cache/lru.go:90-98 | If every listed element is the one its key maps to, evicting from the back always frees enough |
| `LruEviction.OverlappingSetsLeaveAnOrphan` | groove/proxy/cache/lru.go:72-125 | A schedule of two Sets of one key after which all threads are idle and the counter exceeds the bytes stored |
| `LruOrphans.OrphansStay` | groove/proxy/cache/lru.go:58-167 | A listed element that is not the one its key maps to stays so under every schedule |
| `LruOrphans.PublishStep` | groove/proxy/cache/lru.go:114-123 | With no orphan listed, a publication leaves none if and only if it finds its key unmapped |
| `LruOrphans.NoOrphansIffSafePublications` | groove/proxy/cache/lru.go:58-182 | No orphan is ever listed during a schedule if and only if every publication in it finds its key unmapped |
| `LruOrphans.EvictionsEndWithoutOrphans` | groove/proxy/cache/lru.go:88-100 | With no orphan listed at its start, an eviction ends under every schedule that lets its thread move often enough |
| `LruOrphans.ListedIsStoredIff` | groove/proxy/cache/lru.go:102-124 | If every stored value is listed at its size, listed sizes sum to the bytes stored if and only if each element of positive size stands for a stored value of that size alone |
| `LruOrphans.CounterIsStoredIff` | groove/proxy/cache/lru.go:72-182 | In every idle state any schedule reaches, the counter equals the bytes stored under exactly that condition |
| `LruOrphans.StoreStaysTracked` | groove/proxy/cache/lru.go:112-166 | Under every schedule a stored key is mapped, about to be mapped or about to be erased; when all are idle it is mapped |
| `LruOrphans.OrphanCostsForGood` | groove/proxy/cache/lru.go:58-182 | From an orphan on, the counter is strictly above the bytes stored in every later idle state that lists no empty element |
| `LruOrphans.OverlappingSetsCostForGood` | groove/proxy/cache/lru.go:72-125 | Two overlapping Sets of one key are such a start, whatever follows them |
| `LruFiles.FilesStep` | groove/proxy/cache/lru.go:58-182 | With a file of the recorded size for every mapped key, a step leaves one for every mapped key if and only if: an erased key is not mapped again by then, a key written to is not mapped at another size, and a published key has a file of the published size |
| `LruFiles.FilesMatchIffStepsAreSafe` | groove/proxy/cache/lru.go:58-182 | So every mapped key has its file throughout a schedule if and only if every step in it meets that condition |
| `LruFiles.LateEraseLosesFile` | groove/proxy/cache/lru.go:112-166 | A schedule of a Delete and a Set of one key after which all threads are idle and the key is mapped without its file |
| `LruEviction.EvictionCanSpin` | groove/proxy/cache/lru.go:88-99 | A schedule that leads an eviction into that stuck state |
| `Invalidator.CacheInvalidator.constructor` | groove/proxy/cache/invalidator.go:54-72 | A first start has two empty tiers and no index |
| `Invalidator.CacheInvalidator.Reopen` | groove/proxy/cache/invalidator.go:109-150 | A restart over any index and files: memory empty, the disk tier with the index's list and byte total over the files there are; in step, the disk tier as it was left |
| `Invalidator.CacheInvalidator.Get` | groove/proxy/cache/invalidator.go:152-172 | Looks the key up in both tiers, which `TierOrder.GetBringsToFront` says puts it in front in each that has it, and answers with the disk's copy if there is one, else the memory's; a failed disk read is an error even when memory has the value |
| `Invalidator.CacheInvalidator.Set` | groove/proxy/cache/invalidator.go:174-187 | Both tiers take the value, whatever the disk write does; only an encoding failure is reported, and it changes nothing |
| `Invalidator.CacheInvalidator.Has` | groove/proxy/cache/invalidator.go:189-191 | True exactly when some tier holds the key |
| `Invalidator.CacheInvalidator.Delete` | groove/proxy/cache/invalidator.go:193-199 | The key leaves both tiers and nothing else does |
| `Invalidator.CacheInvalidator.Clear` | groove/proxy/cache/invalidator.go:201-204 | Both tiers and the index file are gone |
| `Invalidator.CacheInvalidator.WriteIndex` | groove/proxy/cache/invalidator.go:229-238 | Every saveInterval-th call orders a save and restarts the count; no other call does (`TierSaves.SavesAreCounted` has the totals) |
| `Invalidator.CacheInvalidator.SaveIndex` | groove/proxy/cache/invalidator.go:240-272 | A save, run at any later moment, in the middle of a call too, writes the disk list of that moment front to back, and only if there is no index file yet |
| `Invalidator.SetShowsViews` | groove/proxy/cache/lru.go:82-124 | What a save can find listed in the middle of a Set: the other entries, from all of them down one by one to those the Set keeps |
| `TierProperties.EntriesStayLatest` | groove/proxy/cache/invalidator.go:152-204 | Tiers whose entries are the latest after some past keep them the latest of past and run together, over any further run with arbitrary evictions and failed disk writes |
| `TierProperties.EveryEntryIsLatest` | groove/proxy/cache/invalidator.go:152-204 | So from an empty start every entry of either tier is the latest value set under its key since any deletion or clearing |
| `TierProperties.NeverStale` | groove/proxy/cache/invalidator.go:152-204 | Get finds the latest value or nothing, and fails exactly when the disk's copy cannot be read; tiers agree on shared keys; Has is true exactly when a successful read finds the value |
| `TierProperties.NeverStaleAcrossRestart` | groove/proxy/cache/invalidator.go:109-204 | The same answers over a run, a restart from an index in step with the files, and another run, for the latest value of both runs |
| `TierProperties.SetThenGet` | groove/proxy/cache/invalidator.go:152-187 | A value just set is read back if and only if it was written to disk and fits there, or fits in memory; where the disk has it a failed read is an error, not the memory's copy |
| `TierOrder.TiersAreLrus` | groove/proxy/cache/invalidator.go:152-204 | Over every run of operations each tier is what an LRU of its capacity holds after the calls made of it: a Set, a Get, a Delete and a Clear each reach both tiers |
| `TierOrder.TiersRunByLastUse` | groove/proxy/cache/invalidator.go:152-187 | Over every run each tier's list runs strictly by the last operation that published the key there or looked it up while it was resident there |
| `TierOrder.GetBringsToFront` | groove/proxy/cache/invalidator.go:152-165 | A key resident in a tier is first there after a Get of it, the others in their order behind; an absent key changes nothing |
| `TierOrder.JustReadIsEvictedLast` | groove/proxy/cache/invalidator.go:152-187 | After a Get of a resident key, what a Set of another key keeps of a tier is empty or begins with the key just read |
| `TierSaves.SavesAreCounted` | groove/proxy/cache/invalidator.go:193-272 | After every run the changes made are the counter, which is below the interval, and one interval for each save ordered; there is an index file if and only if an ordered save ran since the last Clear |
| `TierProperties.SetEqualSizes` | groove/proxy/cache/lru.go:86-123 | With equal sizes a Set keeps as many of the freshest entries as the capacity has slots |
| `TierProperties.MemoryStaysInsideDisk` | groove/proxy/cache/invalidator.go:152-204 | With one positive value size, no failed disk write and memory capacity at most the disk's, the memory list is always a subsequence of the disk list and disk-only entries never exceed the extra slots |
| `TierProperties.NothingIsMemoryOnly` | groove/proxy/cache/invalidator.go:152-204 | Under the same premises no key is held in memory alone |
| `TierProperties.IndexKeepsFirstSnapshot` | groove/proxy/cache/invalidator.go:246-272 | Until a Clear, an index file keeps its first snapshot whatever follows |
| `TierProperties.FirstSnapshotIsExact` | groove/proxy/cache/invalidator.go:258-270 | Only a save creates the index, and it records the entries it finds listed |
| `TierProperties.RestartRestores` | groove/proxy/cache/invalidator.go:142-147 | Rebuilding from metadata and files gives back the entries and their order |
| `TierProperties.RestartAfterFirstSave` | groove/proxy/cache/invalidator.go:206-272 | Any time after the save that creates the index and before a Clear: index and files are in step if and only if keys and sizes on disk are those the save found listed; a restart restores the entries in order if and only if the keys stand as they did then; a key on disk has its file but is listed again if and only if it was listed then |
| `TierProperties.RestartIsUnnoticed` | groove/proxy/cache/invalidator.go:206-227 | While keys and sizes on disk are those that save found, a restarted disk tier has the same byte total and holds and replies the same as the original for every later call sequence |
| `TierProperties.IndexGoesStale` | groove/proxy/cache/invalidator.go:246-256 | Even with a save after every operation, a second key on disk is missing from the index |
| `TierThreads.CoherentStep` | groove/proxy/cache/invalidator.go:152-204 | Tiers that agree on all keys nobody is writing, with nobody about to write an older value, stay so at every step but the start of a Set, and there if and only if nobody is about to write another value for its key or memory does not take its own |
| `TierThreads.CoherentIffSetsAreSafe` | groove/proxy/cache/invalidator.go:152-204 | They are so throughout a schedule if and only if every Set in it starts under that condition |
| `TierThreads.TiersAgreeWhenIdle` | groove/proxy/cache/invalidator.go:152-204 | Then the tiers agree on every shared key whenever all threads are idle |
| `TierThreads.UnsafeSetLeavesTiersAtOdds` | groove/proxy/cache/invalidator.go:174-187 | From any Set started against that condition, with the older value fitting on disk, two more steps leave the tiers with different values for the key and nobody writing |
| `TierSerial.SerialIsSequential` | groove/proxy/cache/invalidator.go:152-204 | Threads whose calls do not overlap leave in both tiers what one caller leaves after the same operations |
| `ResponseCache.Cache.SetValidCacheContents` | groove/proxy/cache.go:87-116 | Stores the archived response when the mode is aggressive for the request or nothing forbids storing; never in mode off |
| `ResponseCache.Cache.SetFailedCacheContents` | groove/proxy/cache.go:118-140 | A failure is remembered only in a mode that is aggressive for the request |
| `ResponseCache.Cache.GetCacheContents` | groove/proxy/cache.go:142-170 | Serves the stored entry if it can be read, decoded and is valid, and nothing otherwise; the tiers see one lookup |
| `ResponseCache.LatestIsLatestEntry` | groove/proxy/cache.go:87-140 | What the tiers hold as latest for a key is the encoding of the latest entry stored under it, over any run with changing modes |
| `ResponseCache.LookupServesLatestEntry` | groove/proxy/cache.go:142-170 | After any run a lookup serves only the latest stored entry, and only unexpired unless the mode is aggressive for the request |
| `ResponseCache.ResidentEntryIsServed` | groove/proxy/cache.go:142-170 | Conversely a resident latest entry is served exactly when it is still valid |
| `ResponseCache.StoredResponseIsServed` | groove/proxy/cache.go:87-170 | A response is stored if and only if the cache is on and the mode is aggressive for its request or nothing forbids it; it is then served, as stored, to every request with its key, exactly while it fits a tier and is unexpired or the mode is aggressive for that request; otherwise storing changes nothing |
| `ResponseCache.StoredFailureIsServed` | groove/proxy/cache.go:118-170 | A failure is stored if and only if the mode is aggressive for its request, and is then served with its error under the same conditions |
| `ResponseCache.LookupRefreshes` | groove/proxy/cache.go:142-170 | A lookup makes its key the freshest in each tier that has it, even if the entry has expired; with the cache off it serves and changes nothing |
| `Prelude.FilterSlice` | groove/proxy/utilities.go:15-25 | The loop yields the sequence filtered element by element, order kept |
| `Prelude.FilterMembers` | groove/proxy/utilities.go:15-25 | Filtering keeps exactly the elements that pass |
| `Dialers.CandidateMembers` | groove/proxy/dialers.go:200-227 | The candidates are exactly the definitions not tried yet that have no requirement, or whose pattern matches the URL, or that list the resource type |
| `Dialers.DialerSession.NewDialerContext` | groove/proxy/dialers.go:185-198 | A context starts with no attempts and the configured tries, zero standing for one per definition |
| `Dialers.DialerSession.NextDialer` | groove/proxy/dialers.go:229-267 | For every random draw: returns a candidate of the highest non-negative priority and records it, or nothing, changing nothing, exactly when tries or such candidates have run out |
| `Dialers.RoundTrip` | groove/proxy/transport.go:96-142 | For every replacement of definitions between attempts: each attempt is choosable from the definitions then in force, none repeats an identifier, no more are made than the initial tries; the first response of 200 to 399 is returned at once, and nothing only if no attempt had one and tries or choosable dialers have run out |
| `Dialers.ChosenFromFixed` | groove/proxy/transport.go:111-139 | If the definitions are never replaced, the dialers tried are chosen in turn from the initial ones, and exhaustion means that none of those is left |
| `DialerRuns.NothingLeft` | groove/proxy/dialers.go:238-257 | With unique identifiers, nothing can be chosen exactly when every eligible dialer has been tried |
| `DialerRuns.AllFailingRuns` | groove/proxy/dialers.go:229-267 | The sequences an all-failing run can try are exactly: eligible dialers of priority at least 0, each once, in non-increasing priority, none left out above one tried, cut to the tries |
| `DialerRuns.UnlimitedRunTriesAll` | groove/proxy/dialers.go:185-198 | Without a limit an all-failing run covers every eligible dialer |
| `DialerRuns.EveryRunExtends` | groove/proxy/transport.go:111-139 | A run that stops early tried a prefix of some all-failing run |
| `Archives.RebuildHeaders` | groove/proxy/archives.go:75-80 | For every map iteration order each rebuilt key holds the values of all archived keys canonicalised to it, in order |
| `Archives.RebuiltHeadersAreOriginal` | groove/proxy/archives.go:75-80 | Rebuilt headers equal the archived ones if and only if every archived key is canonical and has a value |
| `Archives.ReplayResponse` | groove/proxy/archives.go:70-86 | The replayed response has the archived status, body and length, and the archived headers exactly when their keys are canonical |
| `Archives.ReplayedHeaders` | groove/proxy/archives.go:75-80 | Under whatever iteration order a response was rebuilt, its headers are the archived ones if and only if those are canonical |
| `Archives.ReverseSlice` | groove/proxy/utilities.go:7-13 | The two-index swap loop reverses the slice in place |
| `Archives.GetRedirectHistory` | groove/proxy/utilities.go:36-55 | Yields the responses that led to this one, oldest first, each beside its own request |
| `Archives.HistoryIsAChain` | groove/proxy/utilities.go:36-55 | The history starts at a request no redirect led to, ends at the response, and each hop follows a redirect by the one before |
| `Recorder.Recorder.LogPair` | groove/proxy/recorder.go:52-66 | Appends one new record of the pair, or nothing when a body cannot be read |
| `Recorder.Recorder.ExportData` | groove/proxy/recorder.go:68-100 | The payload decodes to all recorded pairs, in order, consumed or not, of each tape and URL the export covers, and to none of any other |
| `RecorderRuns.ExportedTapeReplays` | groove/proxy/recorder.go:68-120 | Exporting a tape and loading it into any recorder leaves exactly that tape's and the untagged queues, each whole and in order |
| `Recorder.Recorder.LoadData` | groove/proxy/recorder.go:102-120 | A payload that is not readable gzip changes nothing; any other leaves its pairs, in order, as the records, all new and none consumed |
| `Recorder.Recorder.Clear` | groove/proxy/recorder.go:122-125 | Forgets all records and all consumption |
| `Recorder.Recorder.ClearTapeID` | groove/proxy/recorder.go:127-137 | Removes exactly the tape's records, consumed or not |
| `Recorder.Recorder.FindMatchingResponse` | groove/proxy/recorder.go:139-168 | The scan answers with the response rebuilt from the head of the queue of the request's tape and URL and takes that off; an empty queue gives nothing |
| `Recorder.Recorder.RecordResponse` | groove/proxy/recorder.go:211-236 | In write mode logs every readable hop of the redirect history, oldest first; otherwise nothing |
| `Recorder.ConsumeFirst` | groove/proxy/recorder.go:151-159 | Consuming the head of one queue leaves every other queue as it is |
| `Recorder.QueueOfOtherTapes` | groove/proxy/recorder.go:127-137 | Clearing a tape empties its queues and leaves those of other tapes unchanged |
| `Recorder.HeadIsFirstMatch` | groove/proxy/recorder.go:139-168 | A queue's head is the first record of the tape and URL that is not consumed; the queue is empty exactly when there is none |
| `RecorderRuns.RefinesQueues` | groove/proxy/recorder.go:52-168 | Every operation acts on every tape and URL as on a queue of its own |
| `RecorderRuns.FirstInFirstOut` | groove/proxy/recorder.go:139-168 | Over any operations that do not clear the tape, what was replayed then what is queued equals what was queued then what was logged |
| `RecorderRuns.NoRecordIsServedTwice` | groove/proxy/recorder.go:151-159 | No record is replayed twice in any run, even across clearing and logging again |
| `RecorderRuns.ReplayInOrder` | groove/proxy/recorder.go:139-168 | After a load, requesting the recorded tapes and URLs in order is answered record by record |
| `RecorderRuns.RecordedIsLogged` | groove/proxy/recorder.go:222-232 | Recording responses one after another leaves the log of all their hops in order |
| `RecorderRuns.RecordedSessionReplays` | groove/proxy/recorder.go:52-168 | Record any redirect chains, export, load into any recorder, request the hops in order on their tapes: the i-th response has the i-th readable hop's status, body and length, and its ordered header values if and only if the hop's header keys are canonical and have values |
| `CertStore.StepKeepsInv` | groove/proxy/optimized_storage.go:28-66 | Each protected block, genCert's return and each taking or giving back of a host lock keeps the store's invariant, and no host changes its lock object |
| `CertStore.EveryScheduleIsSafe` | groove/proxy/optimized_storage.go:28-66 | The invariant and the lock objects survive every schedule |
| `CertStore.CertificatesAreMadeOnce` | groove/proxy/optimized_storage.go:28-53 | In every run no generation for a host starts after one succeeded, a host's certificate is stored at most once, and every successful Fetch returned the stored one; which Fetches succeed is stated in `CertFetches.dfy` |
| `CertStore.OneGenerationAtATime` | groove/proxy/optimized_storage.go:31-42 | At every moment at most one thread runs genCert for a host |
| `CertStore.FetchesAgree` | groove/proxy/optimized_storage.go:28-53 | Any two successful fetches of a host return the same certificate, even when earlier generations failed |
| `CertFetches.StepKeepsFetchInv` | groove/proxy/optimized_storage.go:28-53 | Every step keeps: a failed fetch comes right after its own failed generation among the host's events, and after a certificate is stored all returns for the host are that certificate |
| `CertFetches.FailedFetchesFailedToGenerate` | groove/proxy/optimized_storage.go:38-43 | In every run a Fetch fails only if its own genCert failed: the host's event before the failed return is a failed generation, and at every moment there are at most as many failed fetches as failed generations of the host |
| `CertFetches.StoredIsReturned` | groove/proxy/optimized_storage.go:36-52 | Once a certificate is stored, every later return of a Fetch of its host, failures included, is that certificate |
| `CertFetches.FetchAlone` | groove/proxy/optimized_storage.go:28-53 | A Fetch alone ends: a hit returns the stored certificate and generates nothing, a miss generates once and returns what it stored, a failed generation returns nothing and stores nothing; the host's lock is free again |
| `RequestLocks.CountersAreExact` | groove/proxy/cache.go:172-215 | Under every schedule, released by whomever, a URL keeps one mutex and its counter is the number of requests between increment and decrement |
| `RequestLocks.GuardStep` | groove/proxy/cache.go:208-247 | A step that is not an Unlock never exposes a held URL, and an Unlock does not if and only if its mutex is locked and no other thread holds the URL |
| `RequestLocks.GuardedIffUnlocksAreSafe` | groove/proxy/cache.go:172-247 | Throughout a schedule, whoever releases, every held URL has one holder and a locked mutex if and only if every Unlock in it is safe in that sense |
| `RequestLocks.SafeIffExclusiveFromThenOn` | groove/proxy/cache.go:208-247 | With every other releasing request a holder, an Unlock is safe if and only if no continuation in which only holders release gives a URL two holders or crashes |
| `RequestLocks.HoldersExclude` | groove/proxy/cache.go:208-247 | If only holders release, every Unlock is safe, so no URL ever has two holders and nothing crashes |
| `RequestLocks.RequestLocksAreSound` | groove/proxy/cache.go:172-247 | From the start, for any number of threads: counters exact in every run, one holder at most and no crash in runs where only holders release; other releases are the subject of `RequestReleases.dfy` |
| `RequestLocks.StrangersCanBreakExclusion` | groove/proxy/cache.go:236-246 | A schedule in which a release by a non-holder gives a URL two holders |
| `RequestLocks.OverlappingReleasesCrash` | groove/proxy/cache.go:244-245 | A schedule in which two overlapping releases end the process |
| `RequestReleases.ReleasesApartAreSafe` | groove/proxy/cache.go:231-247 | If no two releases of a URL overlap, each finds its mutex locked at Unlock, whoever starts it and whether the URL was held or free; a crash is always another URL's |
| `RequestReleases.ReleasesApartNeverCrash` | groove/proxy/cache.go:231-247 | So a run in which no two releases of one URL overlap never crashes |
| `RequestReleases.LoneRelease` | groove/proxy/cache.go:231-247 | A lone release, by whomever, leaves the URL's mutex unlocked, takes the URL from what the releasing thread holds and changes nothing else; a URL never acquired is left alone |
| `RequestReleases.ReleasingTwiceIsOnce` | groove/proxy/cache.go:244-245 | A second release of a URL, by the same or another thread, neither crashes nor unlocks anything more |
| `PfConfig.PFConfig.InjectLine` | proxy-benchmarks/proxy_benchmarks/networking.py:97-104 | The search over all prefixes appends to at most one list, and reports a match exactly when some prefix matches |
| `PfConfig.PFConfig.InjectFile` | proxy-benchmarks/proxy_benchmarks/networking.py:74-104 | Reads line by line; an unknown key stops with that line, keeping what was read before |
| `PfConfig.PFConfig.ToString` | proxy-benchmarks/proxy_benchmarks/networking.py:106-118 | Prints every value on its own line, list by list in pfctl's order |
| `PfConfig.OnePrefixMatches` | proxy-benchmarks/proxy_benchmarks/networking.py:120-130 | No line begins with two of the six prefixes, so the order of search is immaterial |
| `PfConfig.LStripPast` | proxy-benchmarks/proxy_benchmarks/networking.py:99 | Stripping the set of a prefix's characters takes the whole prefix away and goes on into the rest |
| `PfConfig.ParsePrintedLine` | proxy-benchmarks/proxy_benchmarks/networking.py:97-116 | A printed line is read back under its own prefix, with the value stripped and, after load anchor only, robbed of leading characters of that prefix |
| `PfConfig.InjectPrinted` | proxy-benchmarks/proxy_benchmarks/networking.py:74-118 | Reading a printed configuration into any other appends every reread value, list by list, rejecting no line |
| `PfConfig.RoundTrip` | proxy-benchmarks/proxy_benchmarks/networking.py:74-130 | Printing and reading into an empty configuration gives the six lists back if and only if every value is one trimmed line and no load-anchor value begins with a character of that prefix |
| `PfConfigLines.IgnoredIff` | proxy-benchmarks/proxy_benchmarks/networking.py:89-95 | A line is skipped if and only if it is all white space or its first other character is '#' |
| `PfConfigLines.InjectOutcome` | proxy-benchmarks/proxy_benchmarks/networking.py:83-104 | Reading succeeds if and only if every line is skipped or begins with one of the six keys; otherwise it stops at the first other line and names it, with what the lines before it add |
| `PfConfigLines.EachFieldCollects` | proxy-benchmarks/proxy_benchmarks/networking.py:97-101 | Each list grows by the values of its own lines in their order; skipped lines add nothing |
| `PfConfigLines.ValueAfterKey` | proxy-benchmarks/proxy_benchmarks/networking.py:97-100 | A line's value is what follows its key from the first character not in the key, trimmed |
| `PfConfigLines.PrintedText` | proxy-benchmarks/proxy_benchmarks/networking.py:106-130 | The text written, with all six keys spelled out: one line a value, key, one space, value, key by key in pfctl's order |
| `CacheKey.LessOrdersUnopposed` | groove/proxy/cache_key.go:25-36 | Less is a strict total order on the distinct pairs of a query if and only if no two are oppositely ordered by key and value |
| `CacheKey.SortIsUnique` | groove/proxy/cache_key.go:62-64 | With no opposed pairs there is one sorted arrangement |
| `CacheKey.NewQueryArray` | groove/proxy/cache_key.go:38-49 | The nested loops list every pair, key by key in map iteration order |
| `CacheKey.BlockAt` | groove/proxy/cache_key.go:42-46 | A key contributes one pair for each of its values, in their order |
| `CacheKey.FlattenPermutes` | groove/proxy/cache_key.go:38-49 | Different iteration orders and value orders give the same pairs with the same multiplicities |
| `CacheKey.GetCacheKey` | groove/proxy/cache_key.go:51-72 | Flattens the query in map iteration order, sorts it and joins it: the key encodes method, host and path, and the sorted pairs, in this order with a '-' between |
| `CacheKey.SortedQueryIsOrderIndependent` | groove/proxy/cache_key.go:62-69 | With no opposed pairs the sorted query is the same for every parameter order, map iteration order and sorting algorithm |
| `CacheKeySort.SwapDown` | groove/proxy/cache_key.go:22-36 | Swapping an element down by Less and Swap inserts it into the sorted part and leaves the rest of the slice alone |
| `CacheKeySort.InsertionSort` | groove/proxy/cache_key.go:22-36 | Sorting a slice in place by insertion, with Less and Swap as they are, computes the insertion-sorted sequence |
| `CacheKeySort.InsertionSortSorts` | groove/proxy/cache_key.go:25-36 | With no opposed pairs that sequence is a permutation without inversions |
| `CacheKeySort.OrderIndependentIffUnopposed` | groove/proxy/cache_key.go:62-64 | The insertion-sorted query, before it is joined, is the same for every map iteration order if and only if no two parameters are opposed |
| `CacheKeySort.KeyOfOpposedQueryVaries` | groove/proxy/cache_key.go:25-69 | The two iteration orders of a=2, b=1 give two different key strings |
| `CacheKeyStrings.JoinIsInjective` | groove/proxy/cache_key.go:66-69 | Parameters none of whose texts begins with another's can be read back from the joined text |
| `CacheKeyStrings.CleanIsPrefixFree` | groove/proxy/cache_key.go:66-69 | Parameters without '=' in keys and '&' in values are of that kind |
| `CacheKeyStrings.InsertionSortedSorts` | groove/proxy/cache_key.go:64 | Insertion sort does what is asked of a sorting algorithm below: it permutes, and leaves no inversion where Less is an order |
| `CacheKeyStrings.KeyIdentifiesRequest` | groove/proxy/cache_key.go:51-72 | If no parameter's text begins with another's, and either no method, host or path has a '-' or only host and path do and '=' and '-' stay out of path and keys, one key means one request, for any orders and any permuting sort |
| `CacheKeyStrings.RequestDeterminesKey` | groove/proxy/cache_key.go:51-72 | Conversely one request with unopposed parameters, whatever their separators, has one key for any orders and any sorting algorithm |
| `CacheKeyStrings.KeyIsOrderIndependentIff` | groove/proxy/cache_key.go:51-72 | If no parameter's text begins with another's, the key made with insertion sort is the same for every map iteration order if and only if no two parameters are opposed |
| `CacheKeyStrings.TwoParameterKeys` | groove/proxy/cache_key.go:62-69 | Any two parameters, separators or not, have one key text for both orders if and only if they are not opposed or their texts commute |
| `CacheKeyStrings.SeparatorsHideOrder` | groove/proxy/cache_key.go:62-69 | Two opposed parameters that sort differently and yet join to one text |
| `CacheKeyStrings.SeparatorsShareKeys` | groove/proxy/cache_key.go:66-69 | Two different queries with one key text |
| `CacheKeyUniqueness.JoinIsUniqueIff` | groove/proxy/cache_key.go:66-69 | A query shares its joined text with no other if and only if there is at most one '=' in the text, so none of two or more parameters does |
| `CacheKeyUniqueness.KeyTextIsUniqueIff` | groove/proxy/cache_key.go:59-69 | Method, host and path and sorted query share their text with no others if and only if there is no '-' in method, host and path, and at most one parameter, without '-' in its key and '=' in key or value |
| `CacheKeyUniqueness.RequestIsAloneIff` | groove/proxy/cache_key.go:51-72 | A request shares its cache key with no other, for any permuting sort and any iteration orders, under exactly that condition |
| `CacheKeyUniqueness.DashMoves` | groove/proxy/cache_key.go:59-69 | The '-' after host and path can always be one inside the first parameter's key, and the other way round |
| `CacheKeyUniqueness.DashesShareKeys` | groove/proxy/cache_key.go:59-69 | Two requests for different paths with one key text |

## Left out

- CacheKey.GetCacheKey: `sort.Sort` is a parameter; what is proved of every sorting algorithm uses only that it permutes, and leaves no inversion where Less is an order.
- CacheKeySort.InsertionSort: this is what `sort.Sort` (`groove/proxy/cache_key.go:64`) does for up to six elements, and from Go 1.19 on up to twelve; the gap pass that Go 1.18 makes before it on seven to twelve, and quicksort above twelve, are not modelled.
- CacheKeyStrings.KeyIsOrderIndependentIff: if some parameter's text begins with another's only one direction holds; the exact condition is then stated for two parameters.
- CacheKeyUniqueness.RequestIsAloneIff: other requests range over all strings as method, host and path, not only over those a server would accept.
- TierThreads.CoherentIffSetsAreSafe: one tier's whole part of a call is one step; what threads do to each other within a tier is the subject of `LruThreads.dfy`.
- LruCache.LRUCache.Set: sizes are unbounded integers; 64-bit overflow of the byte counter is not modelled. A cache rebuilt from an index out of step with the files is built, but what calls do on it is not modelled.
- TierProperties.NeverStaleAcrossRestart: the restart is over an index in step with the files.
- LruThreads.SharedCacheIsSound: threads call Set, Get and Delete only; a DeleteAll that resets the counter under reservations in flight is not among the steps.
- Invalidator.CacheInvalidator.SaveIndex: its walk over the list, which takes no lock, is one step, and its panics on a failed creation or marshalling are not modelled.
- Archives.GetRedirectHistory: redirect chains are finite by construction of the data type.
- Recorder.Recorder.LoadData: gzip and JSON are one pair of functions, assumed inverse where exports and replays are proved; a decoded payload stands for whatever JSON decoding left in the records.
- ResponseCache.LookupServesLatestEntry: assumes that decoding inverts every successful encoding of an entry, and speaks of the latest entry under a cache key, which two requests may share.
- Dialers.RoundTrip: the definition list may be replaced before each attempt, not in the middle of one choice; every request has a context, as the retry loop gives it one.
- container/list: the recency list is a sequence of elements with identity, not linked cells.
- diskv: Erase and EraseAll succeed, a failed write leaves the store as it was, and EraseAll takes the index file, which lies in the same folder, with it.
- Regular expressions, header canonicalisation, map iteration orders, base64 and the Cache-Control analysis are function or value parameters.
- Request bodies that are nil, which the archiving code would dereference.
- The recorder's request middleware and its 500 reply; the cache's own middleware, which does not look into the cache again after waiting for a lock.
- The unlocked read of the lock map in ReleaseRequestLock is one step; a data race inside the map is not modelled.
- Mode changes while request locks are held or awaited.
- Protocol solving, transports, TLS handshakes and CONNECT handling; their outcomes are parameters of the retry loop.
- Header middleware, controller, certificate installation, command line, clients, benchmarks and fingerprint capture.
- blockTransform, basicAuth and getDialerAddress.
