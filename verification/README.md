# SHURL, its stateful core, modelled and proved

SHURL is a URL shortener. This project models the parts of it that keep state: the lookup stack
(LRU cache, Bloom filter, singleflight, resolver) in front of the record store; the store and its
file; the life of a link through the services and the janitor; admission and accounting (token
bucket, rate limiter, weighted semaphore, rolling window, histogram, worker pool); the fake clock;
and the parser and printer of durations, with the binary64 arithmetic they use.
`dafny verify dfyconfig.toml` checks all of it.

How the model is built:

- What the program updates in place is a class here, and each method is proved against a function
  on values (`LruModel`, `StoreModel`, `ResolverModel`, `SemaphoreModel`, `TokenBucket`,
  `LimiterModel`, `DurationText`, `ClockModel`). The run theorems are lemmas about those functions.
- Concurrency is modelled as a transition system whose steps are the lock-protected sections
  (`Singleflight`, `SemaphoreModel`, `WorkerPool`); theorems quantify over all event sequences, and
  the objects (`SingleflightGroup`, `Semaphore`, `TaskPool`) are proved to take those steps.
- Time is an integer, hash functions are arbitrary functions, generated codes and the outcomes of
  file writes are inputs. A nil time is `None`.
- The repository marks deliberately planted defects with `BUG(shurl-...)`. Where one is on a
  modelled path, the model follows the documented behaviour and a lemma says exactly when the code
  as written departs from it: PurgeAsWrittenExactly (pkg/cache/lru.go:179-184), StrandedExactly
  (pkg/semaphore/semaphore.go:186-190, a switch of the model), SurvivesExactly
  (internal/store/url_store.go:271-276), PlantedPanicsExactly, PanicsOnExactly and RoundTrip
  (pkg/durationutil/duration.go:99-103, a switch of the model), ErrorSeenIff
  (pkg/singleflight/singleflight.go:112-117, kept in the model), IgnoredExactly
  (internal/service/url_service.go:127-130, kept in the model). The extra unlocks at
  pkg/ratelimit/tokenbucket.go:111-134 and pkg/bloomfilter/bloom.go:144-145 are left out.

Findings about code that is not marked, each with a lemma:

- A link with a visit limit of m redirects m - 1 times (Lifecycle.FreshLinkServes).
- Close writes a store that was never loaded, so a file that does not parse is replaced by an empty
  one (Persistence.CloseKeepsFile, UnloadedCloseErases).
- A change between the two halves of sync is marked clean without being on disk
  (Persistence.SplitSyncExactly, SplitSyncRun, SplitSyncLosesVisit).
- The resolver is right only if creations and deletions are observed; cmd/server/main.go does not
  call the hooks (ResolverModel.WithoutHooks, FaithfulExactly).
- A semaphore caller cancelled after its grant keeps the weight for ever
  (SemaphoreModel.LeaksAreForever, LeaksExactly), and a request for more than the rest blocks
  everyone behind it (SemaphoreTheorems.Starves, GrantableExactly); a cancellation wakes nobody, so
  that the next caller can be left waiting although it fits (SemaphoreModel.StrandsExactly); and
  newcomers overtake the queue (SemaphoreModel.BargersAreSmaller).
- The first write of a rolling window stores v instead of v*n (RollingWindow.SumExactly).
- A fake timer can be stopped once in its life, and a ticker reset with a period that is not
  positive makes Advance loop for ever (ClockTheorems.StopAfterReset, BadResetHangs).
- The worker pool still accepts tasks after a cancellation, even when all workers have left, and may
  never run them (WorkerPool.BufferedRunsExactly, CancellationDrops, AllWorkersLeave).
- FormatDuration prints the least duration, and no other, as "-" (DurationRoundTrip.LoneSignExactly).
- Evictions refill: an address whose bucket is evicted comes back to a full one
  (LimiterModel.AddressRateBound, EvictionForgets); not so while there are no more addresses than
  places (FewAddressesBound).

## Model

| member | source | states |
|---|---|---|
| `Lru.LRU.Set` | pkg/cache/lru.go:50-75 | The whole new cache: value and deadline replaced and the key moved to the front, or the key pushed to the front and, above capacity, the entry at the tail evicted and counted; an empty key changes nothing. The map and the linked list keep holding the same elements. |
| `Lru.LRU.Get` | pkg/cache/lru.go:80-101 | Returns the value of a live entry and makes it the most recent; an expired one is removed and counts as expired and as a miss; an absent one as a miss. |
| `Lru.LRU.Delete` | pkg/cache/lru.go:104-116 | Removes the key and reports whether it was there. |
| `Lru.LRU.PurgeExpired` | pkg/cache/lru.go:170-193 | The walk from the tail towards the head (one entry at a time, as its comment intends) yields exactly the cache without its expired entries and returns how many it removed. |
| `Lru.LRU.EvictTailLocked` | pkg/cache/lru.go:214-221 | Removes exactly the tail of the recency order, from the map as well; nothing of an empty one. |
| `Lru.LRU.Clear` | pkg/cache/lru.go:196-204 | Drops every entry and keeps the statistics. |
| `Lru.NewLRU` | pkg/cache/lru.go:34-43 | No cache exactly when the capacity is not positive; an empty valid one otherwise. |
| `Lru.LRU.Locate` | pkg/cache/lru.go:15-31 | A key is in the map exactly when the list holds it, and the map then points at its one place in the list. |
| `RecencyList.List.PushFront` | pkg/cache/lru.go:71 | The doubly linked list gets the element in front of all others; every prev and next link stays consistent. |
| `RecencyList.List.Remove` | pkg/cache/lru.go:211 | The list loses exactly the given element. |
| `RecencyList.List.MoveToFront` | pkg/cache/lru.go:64-98 | The element moves to the front; the order of the others is kept. |
| `LruModel.StepValid` | pkg/cache/lru.go:50-221 | Every operation keeps the keys distinct and non-empty and the size within the capacity. |
| `LruModel.RunValid` | pkg/cache/lru.go:50-221 | So does every run. |
| `LruTheorems.Inclusion` | pkg/cache/lru.go:50-116 | After one trace of operations with the same clock readings on capacities c1 <= c2, the smaller cache holds a subsequence of the larger one (same values, deadlines and relative order), and what the larger holds besides does not exceed the difference in room. |
| `LruTheorems.InclusionOfHits` | pkg/cache/lru.go:80-101 | Hence a hit in the smaller cache is a hit with the same value in the larger. |
| `LruTheorems.SetThenGet` | pkg/cache/lru.go:50-101 | What was set is read back up to and including the moment its time to live is over, or for ever without one, and not after. |
| `LruTheorems.AgreesWithIdeal` | pkg/cache/lru.go:50-116 | After any run a hit returns what an unbounded map of the values last set, each with its moment and time to live, would return: not deleted, and asked for no later than that; and as long as no more keys than the capacity were ever set, every such value is a hit. |
| `LruTheorems.StatisticsExactly` | pkg/cache/lru.go:50-221 | In every run the hits, misses and evictions are counted as what they are, and an entry that came in is still there or was evicted, deleted, or counted as expired. |
| `LruTheorems.OrderIsRecency` | pkg/cache/lru.go:50-101 | In every run the list is strictly ordered by last use. |
| `LruTheorems.EvictsLeastRecentlyUsed` | pkg/cache/lru.go:71-75 | A Set of a new key on a full cache removes exactly the entry whose last use is the oldest, and nothing else. |
| `LruTheorems.PurgeRemovesExactlyExpired` | pkg/cache/lru.go:170-193 | A purge removes exactly the expired entries and keeps the order of the rest. |
| `LruTheorems.PurgeAsWrittenExactly` | pkg/cache/lru.go:177-193 | The walk as written dereferences nil exactly on an odd number of entries, and otherwise is right exactly when no expired entry sits at an even distance from the front. |
| `Words.SetBit` | pkg/bloomfilter/bloom.go:91-95 | On a 64-bit machine word, `|= 1 << off` sets bit off and leaves the others. |
| `Words.TestBit` | pkg/bloomfilter/bloom.go:112-118 | `& (1 << off) != 0` tells exactly that bit. |
| `Words.OrWords` | pkg/bloomfilter/bloom.go:138-140 | `|` of two machine words or-s every bit. |
| `Words.BitsDetermine` | pkg/bloomfilter/bloom.go:15-22 | Machine words with equal bits are equal. |
| `Bloom.BloomFilter.Locations` | pkg/bloomfilter/bloom.go:67-81 | k positions, each below m: 64-bit numbers that start with the first hash and go on in steps of the second, each modulo m. |
| `Bloom.LocationsAreProbes` | pkg/bloomfilter/bloom.go:67-81 | For any such numbers. |
| `Bloom.PositiveExactly` | pkg/bloomfilter/bloom.go:105-120 | A text is answered positive exactly if each of these numbers of its own, modulo m, is one of an inserted element. |
| `Bloom.OneElement` | pkg/bloomfilter/bloom.go:105-120 | A filter of one element answers another text with no. |
| `Bloom.BloomFilter.Add` | pkg/bloomfilter/bloom.go:84-97 | Afterwards a bit is set exactly when an element inserted so far hashes to it; the count wraps at 64 bits. |
| `Bloom.BloomFilter.MayContain` | pkg/bloomfilter/bloom.go:105-120 | Positive exactly when every position of the element is covered by inserted elements. |
| `Bloom.NoFalseNegatives` | pkg/bloomfilter/bloom.go:102-120 | An inserted element is always positive, for all hash functions, sizes and histories. |
| `Bloom.BloomFilter.Merge` | pkg/bloomfilter/bloom.go:126-147 | Refused exactly for a nil filter or different parameters; blocked exactly by itself, whose lock it takes twice; otherwise the filter stands for both histories and the counts are added modulo 2^64. The second read-unlock marked as a bug is left out. |
| `Bloom.SameHistorySameFilter` | pkg/bloomfilter/bloom.go:126-147 | Filters of one shape with the same inserted elements have equal machine words, so a merged filter is bit for bit the one into which both histories were inserted. |
| `Bloom.HoldsOr` | pkg/bloomfilter/bloom.go:138-140 | Or-ing words that hold two sets of positions holds exactly their union. |
| `Bloom.BloomFilter.Clear` | pkg/bloomfilter/bloom.go:174-184 | No bit set, nothing inserted. |
| `Bloom.NewFilter` | pkg/bloomfilter/bloom.go:45-58 | Refused exactly below 64 bits or without hashes; the size is rounded up to whole words. |
| `Resolver.Resolver.Resolve` | internal/resolver/resolver.go:158-198 | The built resolver over cache, filter and store objects answers, counts and changes the cache as the value model does; from a coherent state it stays coherent and answers as the store would, with the real filter. |
| `Resolver.Resolver.ObserveCreated` | internal/resolver/resolver.go:201-208 | Inserts the code into the filter and caches the record, ignoring empty codes; told of what the store has just taken in, it makes the state coherent again. |
| `Resolver.Resolver.ObserveInvalidated` | internal/resolver/resolver.go:211-216 | Drops the code from the cache only; told of what the store has just dropped, it makes the state coherent again. |
| `Resolver.Resolver.WarmOnce` | internal/resolver/resolver.go:130-155 | Warms once, and only a loaded store, on its listing of all records: every code goes into the filter, as many as fit into the cache, and the state is coherent if what was cached was right. |
| `Resolver.ResolveIsFaithful` | internal/resolver/resolver.go:158-198 | With the real filter, which has no false negatives, a resolution from a coherent state is right and keeps it coherent. |
| `ResolverModel.RunCoherent` | internal/resolver/resolver.go:158-216 | Every run that observes creations and deletions keeps: what is cached is stored with the same raw URL, what is stored was inserted into the filter. |
| `ResolverModel.WarmCoherent` | internal/resolver/resolver.go:130-155 | Warming on a listing of the whole store establishes that, in any listing order and for any cache size. |
| `ResolverModel.FastPathIsStore` | internal/resolver/resolver.go:158-198 | After any such run Resolve reports bloom-negative or not-found exactly when the store lacks the code, and otherwise returns the stored raw URL, whatever was evicted, expired or purged and whatever false positives the filter gives. |
| `ResolverModel.FromBoot` | internal/resolver/resolver.go:130-216 | Booted on any store with a cache of any size, warmed, and told of every creation and deletion, the resolver answers as the store would and its counters sum to the resolutions of non-empty codes. |
| `ResolverModel.CountersAddUp` | internal/resolver/resolver.go:158-198 | The four counters together count the resolutions of non-empty codes, and agree with the hits and misses of the cache. |
| `ResolverModel.HitExactly` | internal/resolver/resolver.go:158-198 | Each of the four hits exactly if the filter, the cache (cached and not past its time) and the store are so before the call; the record that goes with it; and its own counter goes up by one and no other. |
| `ResolverModel.StoreHitRefills` | internal/resolver/resolver.go:182-196 | After a store hit the same code is a cache hit with the same record for ten minutes, and a store hit again after them. |
| `ResolverModel.ObservedIsCached` | internal/resolver/resolver.go:201-208 | A link the resolver was told of is inserted into the filter and is a cache hit for ten minutes. |
| `ResolverModel.InvalidatedIsNotCached` | internal/resolver/resolver.go:211-216 | A code it was told is gone is looked for in the store. |
| `ResolverModel.WarmCaches` | internal/resolver/resolver.go:130-154 | After warming, of the links listed exactly the first ones up to the capacity are cached, for ten minutes. |
| `ResolverModel.UnobservedCreation` | internal/resolver/resolver.go:201-208 | Without the hook, a new link is answered correctly exactly when the filter happens to give a false positive. |
| `ResolverModel.UnobservedDeletion` | internal/resolver/resolver.go:211-216 | Without the hook, a deleted link is answered correctly exactly when it is not cached, or expired there. |
| `ResolverModel.FaithfulExactly` | internal/resolver/resolver.go:158-196 | In any state a stored code is answered right exactly if the filter lets it through and no other URL is cached and fresh for it; a missing one exactly if it is stopped by the filter, not cached, or expired. |
| `ResolverModel.WithoutHooks` | internal/resolver/resolver.go:88-216 | After any run from boot in which nobody calls the hooks and no code changes its URL, the filter knows the codes there were at boot and no other; a stored code is answered right exactly if the filter lets it through, a missing one exactly unless the filter does and the link is cached and fresh. |
| `Singleflight.RunInvariant` | pkg/singleflight/singleflight.go:41-128 | Over all interleavings of Do, DoChan, Forget, the end of fn, the clean-up and the returns: a call in the map is in flight, not forgotten, under its own key and the only one of its key; every caller belongs to a call with one leader; results agree with the call; duplicates are counted. |
| `Singleflight.SharedResult` | pkg/singleflight/singleflight.go:41-87 | Callers that got the result of one call got the same value and error; at most one of them is told it was not shared; the duplicate count is the number of joined callers. |
| `Singleflight.OneCallPerKey` | pkg/singleflight/singleflight.go:41-60 | At most one unforgotten call per key is in flight, and the map holds it. |
| `Singleflight.AllDoneEmpty` | pkg/singleflight/singleflight.go:107-128 | When no call is in flight the map is empty. |
| `Singleflight.CleanupSparesSuccessor` | pkg/singleflight/singleflight.go:118-127 | The completion of a call removes its own map entry at most; a forgotten call removes nothing, not even its successor. |
| `Singleflight.RunsOnce` | pkg/singleflight/singleflight.go:107-117 | fn ends exactly once for each call that got past it. |
| `Singleflight.EveryCallerGetsOutcome` | pkg/singleflight/singleflight.go:41-128 | Every caller of a call gets exactly how its fn ended, whatever interleaves. |
| `Singleflight.ErrorSeenIff` | pkg/singleflight/singleflight.go:107-117 | A caller sees an error exactly when fn returned one: as written a panic of fn is seen as a value without error, although the comment promises an error. |
| `Singleflight.CanReturn` | pkg/singleflight/singleflight.go:41-128 | In every state of every run, a waiting caller can be brought to its result in at most four steps of its own call. |
| `SingleflightGroup.Group.Enter` | pkg/singleflight/singleflight.go:41-60 | The locked part of Do and DoChan is the protocol step: it joins the call of the key, or starts one. |
| `SingleflightGroup.Group.Finish` | pkg/singleflight/singleflight.go:109-128 | Storing the result of fn is the protocol step, a panic included. |
| `SingleflightGroup.Group.Cleanup` | pkg/singleflight/singleflight.go:118-125 | The map after the clean-up of a call. |
| `SingleflightGroup.Group.Forget` | pkg/singleflight/singleflight.go:90-97 | The entry goes and its call is marked forgotten. |
| `SingleflightGroup.Group.Return` | pkg/singleflight/singleflight.go:47-59 | A caller of a completed call takes its value and error, and is told whether it was shared. |
| `Semaphore.NewWeighted` | pkg/semaphore/semaphore.go:106-111 | Refused exactly when the size is not positive. |
| `Semaphore.Weighted.Acquire` | pkg/semaphore/semaphore.go:115-136 | Takes the protocol step of Acquire: admitted, refused as too large, or put at the end of the queue. |
| `Semaphore.Weighted.TryAcquire` | pkg/semaphore/semaphore.go:157-171 | Takes the protocol step of TryAcquire. |
| `Semaphore.Weighted.GiveUp` | pkg/semaphore/semaphore.go:142-152 | A cancelled caller leaves the queue if it is still in it; if it had been granted, nothing is given back. |
| `Semaphore.Weighted.Release` | pkg/semaphore/semaphore.go:175-207 | The outcome, the weight and the queue after a release, panics included. |
| `Semaphore.Weighted.Dispatch` | pkg/semaphore/semaphore.go:193-206 | The loop grants exactly the longest prefix of the queue that fits and takes its weight. |
| `Semaphore.Weighted.ReleaseHeldBy` | pkg/semaphore/semaphore.go:175-207 | Releasing what a caller holds is the protocol step, and whoever was taken off the queue is no longer waiting. |
| `SemaphoreModel.FitExactly` | pkg/semaphore/semaphore.go:193-206 | The granted prefix fits, and the next waiter does not: nobody is passed over. |
| `SemaphoreModel.RunInvariant` | pkg/semaphore/semaphore.go:115-207 | Over all interleavings of Acquire, TryAcquire, Release, receipt and cancellation: 0 <= cur <= size; cur is the weight of grants held, on their way or lost to a cancellation; the queue is the waiting callers in order; unless a release was cut short, a queue implies cur > 0, and if also nobody queued was cancelled, the head does not fit. |
| `SemaphoreModel.QueueMeansBusy` | pkg/semaphore/semaphore.go:175-207 | Without the marked access, in every run: while callers wait something is taken, and as long as no queued caller gives up the head of the queue does not fit. |
| `SemaphoreModel.GrantExactly` | pkg/semaphore/semaphore.go:193-206 | Granting the first k waiters leaves the rest queued, adds exactly the weight they asked for, dispatches nobody else and passes over nobody. |
| `SemaphoreModel.ArrivalOrder` | pkg/semaphore/semaphore.go:193-206 | Once a queued caller was dispatched, nobody who arrived before it is still waiting. |
| `SemaphoreModel.BargersAreSmaller` | pkg/semaphore/semaphore.go:128-136 | Acquire is admitted exactly when there is room, whoever waits; unless the head of the queue was left behind although it fits, such a newcomer asks for less than the head. |
| `SemaphoreModel.AcquireExactly` | pkg/semaphore/semaphore.go:115-140 | Acquire takes its weight exactly if there is room, and queues last exactly if there is not but could be. |
| `SemaphoreModel.TryExactly` | pkg/semaphore/semaphore.go:157-172 | TryAcquire succeeds exactly if nothing is asked or there is room, takes that weight, and leaves the queue alone. |
| `SemaphoreModel.StrandedExactly` | pkg/semaphore/semaphore.go:184-190 | With the marked access the only step that leaves callers queued on an idle semaphore is a release of all the weight taken, n, while between 1 and n callers wait: exactly then it panics half-way. Without it there is no such step. |
| `SemaphoreModel.LeaksAreForever` | pkg/semaphore/semaphore.go:142-152 | The weight of a caller cancelled after its grant is lost for the rest of every run: nobody who asks for more than what is left ever holds anything or is granted it again, whether on arrival or from the queue. |
| `SemaphoreTheorems.Starves` | pkg/semaphore/semaphore.go:115-207 | Whoever is queued and asks for more than that is never granted in any continuation, and until it gives up nobody who came after it gets anything through the queue. |
| `SemaphoreTheorems.GrantableExactly` | pkg/semaphore/semaphore.go:115-207 | Without the marked access: a queued caller can be brought to its grant by callers that take their grants and release what they hold exactly if neither it nor anyone before it asks for more than what is not lost, and not all that is taken is lost. |
| `SemaphoreTheorems.NobodyIsStuck` | pkg/semaphore/semaphore.go:115-207 | So while nothing is lost everyone in the queue can be brought to its grant. |
| `SemaphoreTheorems.SumsFitExactly` | pkg/semaphore/semaphore.go:128-197 | The sums compared with the size fit in 64 bits in every run exactly if twice the size does. |
| `SemaphoreModel.StrandsExactly` | pkg/semaphore/semaphore.go:142-207 | In any run an event leaves behind a head of the queue that fits, where none fitted before, exactly if the head gives up and the next one asks for little enough, or a release is cut short by the marked access. |
| `SemaphoreModel.HeadNeverFits` | pkg/semaphore/semaphore.go:142-207 | A run without such an event never has a head that fits, whoever else gives up. |
| `SemaphoreModel.WakesExactly` | pkg/semaphore/semaphore.go:142-207 | A head that was left behind is granted exactly by a release of something that is not itself cut short; no other event wakes it. |
| `SemaphoreModel.LeaksExactly` | pkg/semaphore/semaphore.go:142-152 | Weight is lost exactly by the cancellation of a caller that has been granted, all that it asked for. |
| `SemaphoreModel.CancelStrandsFitting` | pkg/semaphore/semaphore.go:142-152 | A run in which this happens: a cancellation leaves a head of the queue that fits. |
| `UrlStore.URLStore.Load` | internal/store/url_store.go:53-97 | The record map becomes that of the file, empty if there is no file; on any failure nothing changes. |
| `UrlStore.URLStore.Sync` | internal/store/url_store.go:131-143 | The file becomes the record map and dirty is cleared, or the write fails and nothing changes. |
| `UrlStore.URLStore.Flush` | internal/store/url_store.go:147-155 | Refused on a store that is not loaded, else a sync. |
| `UrlStore.URLStore.Close` | internal/store/url_store.go:158-164 | The periodic writer makes its last write, then the store is written once more, loaded or not. |
| `UrlStore.URLStore.Get` | internal/store/url_store.go:177-188 | The stored record itself, or the error for a store not loaded or a code not there. |
| `UrlStore.URLStore.ListCodes` | internal/store/url_store.go:300-316 | Copies of all records, or of the newest up to the limit, newest first; refused on a store that is not loaded. |
| `UrlStore.URLStore.Save` | internal/store/url_store.go:203-224 | Stores the record unless the store is not loaded or the code is taken and overwriting is off; then dirty, and written at once with flush-on-write. |
| `UrlStore.URLStore.Delete` | internal/store/url_store.go:240-256 | Removes exactly the code, with the same errors and writes. |
| `UrlStore.URLStore.IncrementVisits` | internal/store/url_store.go:260-280 | One more visit on the stored record, returned as a copy; dirty, never written at once. The early unlock marked as a bug is left out here. |
| `UrlStore.URLStore.Rewrite` | internal/store/url_store.go:203-224 | Setting fields of the stored record and saving it over itself changes exactly these fields of that record. |
| `StoreModel.SavedIsFound` | internal/store/url_store.go:203-224 | A saved record is the one found, alone among all, on disk at once with flush-on-write; a conflict exactly if the code is taken and may not be overwritten. |
| `StoreModel.DeletedIsNotFound` | internal/store/url_store.go:240-259 | A deleted code is not found, every other one is as before, and the file follows with flush-on-write. |
| `StoreModel.VisitIsCounted` | internal/store/url_store.go:262-281 | A visit adds one to the counter of that record and changes nothing else. |
| `StoreModel.ReloadedIsSame` | internal/store/url_store.go:53-164 | A store closed without an error and loaded again finds the same. |
| `Persistence.CleanMeansSaved` | internal/store/url_store.go:53-280 | At every call boundary of every run, with failing writes and the periodic writer: dirty == false on a loaded store means that the file equals memory. |
| `Persistence.DiskIsSnapshot` | internal/store/url_store.go:131-143 | The file is always the initial one or some memory content of the run, never a mixture. |
| `Persistence.ClosedIsSaved` | internal/store/url_store.go:158-164 | A Close that reports success ends with file and memory equal. |
| `Persistence.CloseKeepsFile` | internal/store/url_store.go:158-164 | Close leaves the content of the file of a clean store alone exactly if the store was loaded, or no write succeeds, or the file was empty. |
| `Persistence.UnloadedCloseErases` | internal/store/url_store.go:53-97 | A run in which Load fails on a file that does not parse and Close then replaces it by the empty map. |
| `Persistence.FlushOnWriteDurable` | internal/store/url_store.go:203-256 | With flush-on-write and no failing write, file and memory agree at every call boundary but for visit counts. |
| `Persistence.SplitSyncExactly` | internal/store/url_store.go:131-143 | With sync as its two real steps and one event between them, clean-means-saved survives exactly if the event changes no record: no accepted Save of a different record, no Delete or IncrementVisits of a present code, no rewrite of a differing field, no Load of a differing file. |
| `Persistence.ChangesExactly` | internal/store/url_store.go:53-280 | These guards are exactly when an event changes the record map. |
| `Persistence.SplitSyncRun` | internal/store/url_store.go:131-143 | With any run between the two steps it survives if no event of the run changes a record; and only then, if the events cannot undo each other, as creations and visits cannot. |
| `Persistence.SplitSyncLosesVisit` | internal/store/url_store.go:131-143 | A run in which one visit falls between them: it is only in memory, and the store counts as clean. |
| `Service.PickCodeExactly` | internal/service/url_service.go:126-150 | A picked code is free and everything generated before it was taken; giving up means that all attempts were taken; a failing generator ends the loop. |
| `Service.URLService.GenerateUnique` | internal/service/url_service.go:126-150 | The retry loop computes that choice, reports a store that is not loaded, and behaves as if the context were never cancelled. |
| `Service.IgnoredExactly` | internal/service/url_service.go:126-150 | Ignoring the context makes a difference exactly when it is cancelled before an attempt that is made; the call should then report the cancellation. |
| `Service.URLService.Create` | internal/service/url_service.go:53-123 | The record stored and returned, or the error and an unchanged store, in the order in which the service checks; with flush-on-write a failing write is reported although the link exists in memory. |
| `Service.DecidedAsRequested` | internal/service/url_service.go:53-114 | What is created has a free code, the custom one or a generated one, and the URL, limit, remark and deadline of the request: the absolute one, or now plus its time to live, or none. |
| `Service.CustomExactly` | internal/service/url_service.go:53-114 | With a custom code a request is accepted exactly if URL, code, time to live and limit are valid, the caller is there, the store is loaded, the code is free, and the deadline is not before now. |
| `Service.URLService.Disable` | internal/service/url_service.go:173-187 | Sets the disabled field of exactly the record of a well-formed code, every other field and record being as before, or reports why not. |
| `Service.URLService.UpdateRemark` | internal/service/url_service.go:190-200 | Sets the remark of exactly that record, every other field and record being as before, or reports why not. |
| `Service.URLService.Delete` | internal/service/url_service.go:161-170 | Removes exactly that record, or reports why not. |
| `Service.RedirectService.HandleRedirect` | internal/service/url_service.go:240-300 | The redirect call of the store model: 404 exactly for a missing code; 302, with the URL of the record and its visit counted, exactly if it is not disabled, not past its deadline and below its limit with this visit; 410 with its reason otherwise. |
| `Service.RedirectCallRight` | internal/service/url_service.go:240-300 | That is so of the redirect call, whatever the store. |
| `Lifecycle.AnswerExactly` | internal/service/url_service.go:262-300 | Which answer and which of the three reasons a visit gets, on the record before it; only a 302 carries a target, and it is the URL of the record. |
| `Lifecycle.CreatedTarget` | internal/service/url_service.go:105-300 | From its creation on, in every run without its deletion, each visit of a link is refused with 410 or sent to the URL it was created for. |
| `Lifecycle.DisabledForever` | internal/service/url_service.go:173-300 | After a link is disabled, each visit in every run without its deletion is answered 410 as disabled, whatever the request times. |
| `Lifecycle.DeletedIsMissing` | internal/service/url_service.go:161-300 | After a deletion, each visit is answered 404 until the code is created anew. |
| `Lifecycle.EventsExactly` | internal/service/url_service.go:161-200 | What disabling, a remark, a deletion and a sweep do to the record, and that they do nothing to any other. |
| `Lifecycle.StepKeepsRecord` | internal/service/url_service.go:126-300 | Only visits change the counter of a record, only disabling and sweeps the flag, only remarks the remark, and nothing the rest. |
| `Service.RedirectCallIsStep` | internal/service/url_service.go:240-300 | On a loaded store and a well-formed code this is the redirect step of the life cycle, and it marks the store dirty exactly when it counts a visit. |
| `Lifecycle.GoneIffInvalidAfter` | internal/service/url_service.go:262-300 | A record answers 410 exactly when it is invalid right after the answer. |
| `Lifecycle.OnceGoneAlwaysGone` | internal/service/url_service.go:240-300 | From any state, once a visit of a code is answered 410, every later visit is, whatever creations, redirects, disablings, remarks, sweeps and deletions of other codes come between, if request times do not go back. |
| `Lifecycle.VisitAccounting` | internal/service/url_service.go:283-292 | While a record is not deleted, its counter grows by exactly the visits that passed the static checks; without a limit all of those are redirected, with a limit m only the first m - 1 of its life. |
| `Lifecycle.FreshLinkServes` | internal/service/url_service.go:283-292 | A new link with limit m redirects at most m - 1 times, so one with limit 1 never. |
| `Lifecycle.SurvivesExactly` | internal/store/url_store.go:271-276 | With the early unlock as written, the visits of a record end the process exactly when they carry its counter over a multiple of 100. |
| `Janitor.VictimsExactly` | internal/service/janitor_service.go:120-161 | A sweep picks exactly the records that are not disabled but past their deadline or at their limit, and have fewer than batch others that are not disabled before them in the order; each once. |
| `Janitor.SweepIs` | internal/service/janitor_service.go:120-161 | It disables exactly these and changes nothing else. |
| `Janitor.JanitorService.Collect` | internal/service/janitor_service.go:120-145 | The first phase collects exactly those records, in iteration order. |
| `Janitor.JanitorService.RunOnce` | internal/service/janitor_service.go:120-161 | A sweep disables exactly its victims and reports at most that many, all of them without flush-on-write; on a store that is not loaded it does nothing, and a negative batch panics. |
| `Janitor.DisabledIsSweep` | internal/service/janitor_service.go:120-161 | That is the sweep step of the life cycle. |
| `Lifecycle.JanitorInvisible` | internal/service/janitor_service.go:120-161 | Drop every sweep from a run, whichever records each of them marked, and every visit still gets the same status and target. |
| `TokenBucket.NewTokenBucket` | pkg/ratelimit/tokenbucket.go:31-48 | Refused exactly for a rate that is not positive; a full bucket otherwise, with the refill period and default capacity that the rate asks for. |
| `TokenBucket.TokenBucket.RefillLocked` | pkg/ratelimit/tokenbucket.go:51-66 | The lazy refill of the model. |
| `TokenBucket.TokenBucket.AllowN` | pkg/ratelimit/tokenbucket.go:73-88 | The take of the model: refused above the capacity, granted exactly if enough tokens are there after the refill. |
| `TokenBucket.TokenBucket.WaitN` | pkg/ratelimit/tokenbucket.go:99-137 | The waiting loop for any clock readings and any moment of cancellation, without the second unlocks marked as a bug. |
| `TokenBucket.TokenBucket.Tokens` | pkg/ratelimit/tokenbucket.go:140-145 | Refills and reports. |
| `TokenBucket.LazyIsEager` | pkg/ratelimit/tokenbucket.go:51-66 | A late refill yields the bucket that gained one capped token at every tick up to now; no fraction of a period is lost. |
| `TokenBucket.RefillTwice` | pkg/ratelimit/tokenbucket.go:51-66 | Refilling at t1 and then at t2 is refilling at t2. |
| `TokenBucket.PollsAreInvisible` | pkg/ratelimit/tokenbucket.go:140-145 | Looking at the bucket before a call changes no later answer. |
| `TokenBucket.TakeSpendsBudget` | pkg/ratelimit/tokenbucket.go:73-88 | What a call is granted is taken off the tokens that are there or still to come. |
| `TokenBucket.RateBound` | pkg/ratelimit/tokenbucket.go:51-88 | In every run with times that do not go back, the tokens granted in any window [s, t] are at most capacity + floor((t - s) / refillPer) + 1. |
| `TokenBucket.RateBoundTight` | pkg/ratelimit/tokenbucket.go:51-88 | The bound is reached. |
| `TokenBucket.ServesFrom` | pkg/ratelimit/tokenbucket.go:127-137 | A bucket short of n tokens can serve them exactly from last + (n - tokens) * refillPer on. |
| `TokenBucket.SleepSuffices` | pkg/ratelimit/tokenbucket.go:127-137 | The computed sleep is long enough if nobody else takes tokens, and unless it is the floor of one millisecond, too long by less than one period. |
| `TokenBucket.WaitsAtMostOnce` | pkg/ratelimit/tokenbucket.go:99-137 | A caller alone at the bucket sleeps at most once. |
| `TokenBucket.WaitOutcome` | pkg/ratelimit/tokenbucket.go:99-137 | A wait for nothing is granted, a cancellation before the first round ends it, and more than the capacity is refused, exactly then. |
| `RateLimiter.RateLimiter.FindVictim` | internal/rate/rate_service.go:119-128 | The scan finds an entry with the least last hit, in any iteration order. |
| `RateLimiter.RateLimiter.AcquireIPBucket` | internal/rate/rate_service.go:111-136 | A known address is touched; for a new one a full map loses its victim, and a full bucket is entered. |
| `RateLimiter.RateLimiter.Allow` | internal/rate/rate_service.go:90-108 | The reply and the whole new state: global bucket first, then, for a known client, the bucket of its address. |
| `LimiterModel.NeverTooManyAddresses` | internal/rate/rate_service.go:111-136 | In every run the map never holds more than perIPMax addresses. |
| `LimiterModel.AllowExactly` | internal/rate/rate_service.go:90-117 | A request is refused exactly if the global bucket is empty at its time, or that of its address is, which must have one; whoever gets past the global bucket has its last hit set to now. |
| `LimiterModel.EvictsLongestUnseen` | internal/rate/rate_service.go:111-129 | In every run from the start, the address that makes room for a newcomer is one whose last request past the global bucket is as long ago as that of any, in whole seconds. |
| `LimiterModel.GlobalRateBound` | internal/rate/rate_service.go:90-108 | The requests let through in any window obey the bound of the global bucket. |
| `LimiterModel.AddressRateBound` | internal/rate/rate_service.go:90-136 | In every run the requests let through from one address in a window are at most (1 + its evictions in the window) bursts, one for every whole period, and one. |
| `LimiterModel.NoEvictions` | internal/rate/rate_service.go:111-136 | If the addresses that have a bucket or ask for one number at most the limit, no bucket is ever evicted. |
| `LimiterModel.FewAddressesBound` | internal/rate/rate_service.go:90-136 | Then each address is held to the bound of one bucket: a burst, one for every whole period, and one. |
| `LimiterModel.EvictionForgets` | internal/rate/rate_service.go:119-136 | One address more is too many, for any limit, burst and period: two addresses asking in turn for the last place get m + 1 requests of the first through at one moment, with m evictions, which from m = burst + 1 on is above that bound. |
| `RollingWindow.New` | pkg/rollingwindow/rolling.go:37-55 | Refused exactly for a window or a number of buckets that is not positive; the bucket length is the quotient, or a millisecond. |
| `RollingWindow.RollingWindow.AddAt` | pkg/rollingwindow/rolling.go:71-104 | After any history, with forward, backward or long jumps of time, the slot j places behind the head holds exactly what was filed j bucket lengths ago. |
| `RollingWindow.RollingWindow.Skip` | pkg/rollingwindow/rolling.go:94-98 | The clearing loop empties exactly the slots the head passes over. |
| `RollingWindow.RollingWindow.AddN` | pkg/rollingwindow/rolling.go:63-68 | A count that is not positive is ignored. |
| `RollingWindow.RollingWindow.Count` | pkg/rollingwindow/rolling.go:168-176 | The number of samples filed in the last n bucket lengths before the last write. |
| `RollingWindow.RollingWindow.Sum` | pkg/rollingwindow/rolling.go:157-165 | What was filed in them. |
| `RollingWindow.RollingWindow.Reset` | pkg/rollingwindow/rolling.go:188-196 | An empty window. |
| `RollingWindow.LogAppend` | pkg/rollingwindow/rolling.go:80-100 | A sample is filed under the whole bucket lengths since the front of the window, which never moves back. |
| `RollingWindow.WorthIs` | pkg/rollingwindow/rolling.go:71-104 | A sample counts n times and for n times v, but the very first for v. |
| `RollingWindow.TotalOfRing` | pkg/rollingwindow/rolling.go:157-176 | The slots of a ring, wherever its head is, hold together what was filed in the last n epochs. |
| `RollingWindow.WindowInTime` | pkg/rollingwindow/rolling.go:71-104 | While time runs forward, a sample up to n - 1 bucket lengths older than the newest is in the window, and one n bucket lengths older is not. |
| `RollingWindow.SumExactly` | pkg/rollingwindow/rolling.go:74-79 | Because the first write stores v and not v*n, the sum is that of all samples exactly if the first sample is outside the window, single, or zero. |
| `DurationUnits.SortSuffixes` | pkg/durationutil/duration.go:43-49 | The exchange sort leaves a permutation with longer suffixes first. |
| `DurationUnits.Init` | pkg/durationutil/duration.go:34-50 | Whatever order the map yields the units in, the table is such a permutation of them. |
| `DurationUnits.LongestMatch` | pkg/durationutil/duration.go:192-199 | The scan finds exactly the one longest unit the text starts with, and nothing exactly if there is none. |
| `DurationUnits.OrderIrrelevant` | pkg/durationutil/duration.go:34-50 | Two tables from different initial orders find the same unit. |
| `Duration.IsOnlyDigits` | pkg/durationutil/duration.go:150-161 | True exactly for a non-empty text of digits. |
| `Duration.ConsumeNumber` | pkg/durationutil/duration.go:163-190 | The digits with at most one dot and the rest, or the error. |
| `Duration.ScanSegments` | pkg/durationutil/duration.go:80-111 | The loop over the segments computes the fold of the rounds. |
| `Duration.ParseDuration` | pkg/durationutil/duration.go:56-112 | The parsed value or error of the model, for every text. |
| `Duration.WriteUnit` | pkg/durationutil/duration.go:207-214 | Appends the whole units and takes them off the remainder. |
| `Duration.FormatDuration` | pkg/durationutil/duration.go:116-137 | The printed form of the model, for every duration. |
| `DurationText.WrapsAround` | pkg/durationutil/duration.go:77 | 64-bit wrap-around: into range, by a multiple of 2^64. |
| `DurationText.PlantedPanicsExactly` | pkg/durationutil/duration.go:99-103 | For every text, the marked slice access makes the parser panic exactly if some round of the scan is left with one byte behind its number, and changes no other result. |
| `DurationText.UnplantedNeverPanics` | pkg/durationutil/duration.go:76-110 | Without the marked slice access no text makes the parser panic. |
| `DurationText.PanicsOnExactly` | pkg/durationutil/duration.go:76-110 | Of the texts otherwise accepted these are the ones that are not all digits and end with a unit of one byte; of those otherwise rejected, the ones whose last round finds a number and one byte that is no unit. |
| `Binary64.RoundExact` | pkg/durationutil/duration.go:185-205 | Rounding to binary64 keeps every 53-bit integer times a power of two. |
| `Binary64.FirstInexact` | pkg/durationutil/duration.go:185-205 | It loses 2^53 + 1: not every whole number of units comes out exactly. |
| `DurationRoundTrip.FloatsParseWhole` | pkg/durationutil/duration.go:185-189 | Binary64 parses whole numbers below 2^53 exactly. |
| `DurationRoundTrip.FloatsExactOnPieces` | pkg/durationutil/duration.go:202-205 | Every number of weeks, days, hours, minutes or seconds that a printed duration can hold is multiplied exactly in binary64. |
| `DurationRoundTrip.PrintedEmits` | pkg/durationutil/duration.go:116-137 | A printed duration holds no other numbers: at most 15250 weeks, 6 days, 23 hours, 59 minutes and 59 seconds. |
| `DurationRoundTrip.ProgramIsReady` | pkg/durationutil/duration.go:18-50 | The tables as the package builds them, the white space of Unicode and binary64 satisfy all that the round trip asks. |
| `DurationRoundTrip.PieceIs` | pkg/durationutil/duration.go:207-214 | A number of nanoseconds is split into whole units and a rest that is again a whole number of seconds. |
| `DurationRoundTrip.RoundTrip` | pkg/durationutil/duration.go:56-137 | For any tables and arithmetic that read printed pieces exactly, parsing the printed form of any 64-bit duration of whole seconds yields it again; with the marked slice access it panics for every one of them. |
| `DurationRoundTrip.ProgramRoundTrip` | pkg/durationutil/duration.go:56-137 | So it does for the program: any order of the suffix table, its units, Unicode white space and binary64. |
| `DurationRoundTrip.LoneSignExactly` | pkg/durationutil/duration.go:116-137 | Of all 64-bit durations exactly the least is printed as a lone sign. |
| `DurationRoundTrip.LeastDurationIsLost` | pkg/durationutil/duration.go:116-137 | That text does not parse. |
| `DurationValues.TextValue` | pkg/durationutil/duration.go:52-114 | A text of numbers with any of the ten units, in any order, with a bare number at its end or not, and with any sign, is read as the sum of its parts in nanoseconds, while each product is below 2^53 and the sum within 64 bits. |
| `DurationValues.PlainDigits` | pkg/durationutil/duration.go:71-77 | A number alone, with any sign, counts seconds, wrapped around in 64 bits, and is refused exactly if it does not fit in 64 bits. |
| `DurationValues.FractionDigits` | pkg/durationutil/duration.go:163-191 | Digits behind the dot count tenths, hundredths and so on. |
| `DurationValues.PrintedAs` | pkg/durationutil/duration.go:116-137 | A positive duration is printed as its weeks, the days, hours and minutes beyond them, each if there are any, and the seconds left. |
| `Whitespace.TrimmedLeft` | pkg/durationutil/duration.go:57-93 | Trimming a text on the left takes away all white space there. |
| `Whitespace.TrimmedRight` | pkg/durationutil/duration.go:57 | So does trimming on the right. |
| `WorkerPool.Conservation` | pkg/workerpool/pool.go:71-203 | Over all interleavings: the accepted tasks are the queued, the running and the finished ones; each was taken once, or not at all while queued, in the order of acceptance; at most `workers` run and at most bufSize are queued; the errors are those of the finished tasks in the order they ended. |
| `WorkerPool.ErrorsExactly` | pkg/workerpool/pool.go:110-128 | In every run the errors recorded, which Stop returns, are exactly those of the tasks with a function that failed, other than by a cancelled context, or panicked, each with its name and text. |
| `WorkerPool.EndAddsError` | pkg/workerpool/pool.go:110-128 | The end of such a task adds exactly one error, that of any other none. |
| `WorkerPool.StopAccounts` | pkg/workerpool/pool.go:180-203 | When Stop returns nothing runs, every accepted task was either run once, with its error recorded, or dropped without being run, and none was dropped if no context was cancelled. |
| `WorkerPool.StopGetsThere` | pkg/workerpool/pool.go:95-126 | Once the queue is closed a living worker can always take a step, and each such step shrinks what is left to do. |
| `WorkerPool.CancellationDrops` | pkg/workerpool/pool.go:95-151 | After the last worker left on a cancellation, Submit still accepts a task and Stop returns with it unrun. |
| `WorkerPool.AllWorkersLeave` | pkg/workerpool/pool.go:95-108 | A run gets there: started, cancelled, and left by every worker, the pool still accepts. |
| `WorkerPool.AcceptedTasksRun` | pkg/workerpool/pool.go:71-203 | Without a cancellation every accepted task is, in every continuation of the run, run once and its error recorded when Stop returns. |
| `WorkerPool.BufferedRunsExactly` | pkg/workerpool/pool.go:95-203 | A task put into the buffer has run, once, in every continuation without a further cancellation after which Stop can return, exactly if the context of the workers is not cancelled when it is submitted. |
| `WorkerPool.LaterCancellationDrops` | pkg/workerpool/pool.go:95-203 | A cancellation at any later moment can lose any task that is queued then. |
| `TaskPool.NewPool` | pkg/workerpool/pool.go:29-67 | Refused exactly without workers; the buffer is four tasks a worker, or the size given, none if negative. |
| `TaskPool.TaskPool.Start` | pkg/workerpool/pool.go:71-92 | Starts the workers once. |
| `TaskPool.TaskPool.Submit` | pkg/workerpool/pool.go:132-151 | Accepted exactly when the pool runs, is not stopped and a worker waits or there is room; the error otherwise. |
| `TaskPool.TaskPool.Take` | pkg/workerpool/pool.go:101-105 | A worker takes the oldest queued task. |
| `TaskPool.TaskPool.ExecTask` | pkg/workerpool/pool.go:110-127 | The end of a task records its error or panic, but not that of a cancelled context and nothing for a task without function. |
| `TaskPool.TaskPool.CloseTasks` | pkg/workerpool/pool.go:184-189 | Stop closes the queue once. |
| `TaskPool.TaskPool.StopReturns` | pkg/workerpool/pool.go:190-202 | It returns the recorded errors when all workers have left. |
| `Histogram.NewHistogram` | internal/metrics/registry.go:93-120 | The bounds are the positive ones given, or the default ones, each once and increasing. |
| `Histogram.Histogram.Search` | internal/metrics/registry.go:140-141 | Binary search finds the first bound that is at least the sample. |
| `Histogram.Histogram.ObserveMs` | internal/metrics/registry.go:129-157 | After any observations: each bucket counts the samples above the bound before it up to its own, infCount the rest, and total, sum, extremes and the last 1024 samples are right. |
| `Histogram.Histogram.Reset` | internal/metrics/registry.go:384-397 | Starts over with the same bounds. |
| `Histogram.Histogram.Quantiles` | internal/metrics/registry.go:229-250 | Each quantile is the sample of the last 1024 whose rank is within one half of its percentage of n - 1, rounded up at the half: at most that many are less, and more are at most it; P50 <= P90 <= P99; zeros when there is no sample. |
| `Histogram.RankOf` | internal/metrics/registry.go:238-249 | The k-th sorted sample has rank k: more than k samples are at most it, and at most k are less. |
| `Histogram.SortedFacts` | internal/metrics/registry.go:238 | Sorting yields an ascending permutation. |
| `Histogram.Extremes` | internal/metrics/registry.go:134-139 | The kept minimum and maximum are samples and bound all of them. |
| `Histogram.Histogram.WriteBuckets` | internal/metrics/metrics_service.go:117-133 | Each exported cumulative bucket is the number of samples up to its bound, and +Inf is the number of all samples. |
| `FakeClock.Fake.Advance` | pkg/clock/clock.go:184-222 | The loops over timers and tickers do what the model of Advance says, if no ticker loops for ever. |
| `FakeClock.Fake.FireTimers` | pkg/clock/clock.go:192-207 | Exactly the due timers that are not stopped fire, and the others stay in order. |
| `FakeClock.FakeTicker.TickUntil` | pkg/clock/clock.go:209-220 | The catch-up loop of one ticker. |
| `FakeClock.Fake.NewTimer` | pkg/clock/clock.go:134-145 | A pending timer at now + d. |
| `FakeClock.Fake.StopTimer` | pkg/clock/clock.go:241-244 | Marks the timer the first time only; the answer. |
| `FakeClock.Fake.ResetTimer` | pkg/clock/clock.go:245-261 | New deadline, pending again, at most once in the list; the answer. |
| `FakeClock.Fake.NewTicker` | pkg/clock/clock.go:148-163 | A running ticker, or a panic exactly for a period that is not positive. |
| `FakeClock.Fake.ResetTicker` | pkg/clock/clock.go:273-279 | A running ticker with a new period from now on. |
| `ClockModel.FireAllIs` | pkg/clock/clock.go:192-207 | Every pending timer is fired or kept by its own deadline. |
| `ClockModel.CatchUpTo` | pkg/clock/clock.go:213-219 | The catch-up loop ends at the first multiple of the period after the target, and sends the first tick only. |
| `ClockModel.TicksEnd` | pkg/clock/clock.go:213-219 | That loop ends if and only if the period is positive or nothing is due. |
| `ClockTheorems.AdvanceTwice` | pkg/clock/clock.go:184-222 | Advancing by d1 and then d2 is advancing by d1 + d2: same time, same pending timers in order, same timers fired, same tickers; exactly the timers that fire in the first of two real steps, into an empty channel, are sent another time. |
| `ClockTheorems.StepsDoNotMatter` | pkg/clock/clock.go:184-222 | However a stretch of time is cut into steps, the clock ends up the same but for those times. |
| `ClockTheorems.HangsTwice` | pkg/clock/clock.go:209-220 | It loops for ever in one of two steps exactly when it does in the one. |
| `ClockTheorems.TickersOnTime` | pkg/clock/clock.go:148-222 | In every run with positive periods each running ticker is due at the first of base + d, base + 2d, ... after now, each timer is pending at most once, and no Advance hangs. |
| `ClockTheorems.FirstAfterBounds` | pkg/clock/clock.go:213-219 | That deadline lies after now, by at most one period, and is base plus a positive multiple of the period. |
| `ClockTheorems.BadResetHangs` | pkg/clock/clock.go:273-279 | Exactly a reset with a period that is not positive makes the next Advance loop for ever. |
| `ClockTheorems.StopAfterReset` | pkg/clock/clock.go:241-261 | A timer reset and then stopped still fires exactly if Stop had been called on it before: Stop works once in the life of a timer. |
| `ClockTheorems.NewTimerFires` | pkg/clock/clock.go:134-207 | A new timer fires in the step that reaches its time, is sent the moment of that step, and stays pending until then. |
| `ClockTheorems.ResetTimerFires` | pkg/clock/clock.go:192-261 | A timer that is reset fires d later, whatever became of it; the answer is whether it was running. |
| `ClockTheorems.StoppedNeverFires` | pkg/clock/clock.go:192-244 | The first Stop keeps a timer from firing and answers whether it had not fired. |
| `ClockTheorems.NewTickerTicks` | pkg/clock/clock.go:148-219 | A new ticker is sent its first tick, d after its start, once that is due, and is due again after now. |

## Left out

- UrlStore.URLStore.Load: a file that holds a record under another key than its own code is not covered by the object (Persistence covers it); and a second Load would start a second periodic writer, where the model keeps one.
- FakeClock.Fake.Advance: asks that no running ticker has a due period that is not positive, where the code would not return; TicksEnd and HangsTwice say exactly when that is.
- LimiterModel.NeverTooManyAddresses: assumes clock readings below 2^62 seconds, which is where the scan for the oldest entry starts.
- RollingWindow.RollingWindow.Count: counts relative to the last write, as the code does, and not to the time of the call.
- DurationRoundTrip.RoundTrip: durations with a fraction of a second are not covered; that strconv.FormatFloat prints the whole numbers below 60 as their digits is a stated condition.
- Binary64.RoundExact: only numbers that are not negative are modelled, which is what the parser deals with.
- Histogram.Histogram.ObserveMs: the sums are unbounded integers; the sum of squares, average and deviation are left out.
- TokenBucket.NewTokenBucket: the rate and the period computed from it are exact real numbers, and products of durations do not wrap.
- RateLimiter.RateLimiter.Allow: one clock reading serves all buckets of a request, where the code reads the clock anew for each.
- RollingWindow.RollingWindow.Sum: exact real sums, where the code adds floats.
- FakeClock.FakeTicker.TickUntil: asks, as Advance does, that the loop ends.
- Semaphore.Weighted.Acquire: the sum of the weight taken and the weight asked for does not wrap at 64 bits; SemaphoreTheorems.SumsFitExactly says for which sizes it cannot.
- Semaphore.Weighted.TryAcquire: as Acquire.
- WorkerPool.StopAccounts: with panics not captured a panic ends the process; that option is not modelled.
- WorkerPool.Conservation: a send that races with the closing of the queue panics in the code; here check and send are one step.
- Resolver.Resolver.Resolve: calls are sequential, so singleflight runs its function once a call; the concurrent protocol is modelled on its own.
- The records handed out by Get are pointers; unsynchronised writes to their fields are not modelled, service calls are steps.
- Snapshot of the rolling window, Errors of the pool and the return value of the stop group: marked index and nil faults.
- The access log, HTTP handlers, middleware, configuration, JSON and file system details.
- Nil receivers, statistics getters, random code generation, hash functions, false-positive estimates.
- The defaults of the limiter's configuration, and the wording of log and error messages.
- Registry maps of counters and gauges, text rendering of the metrics, retry, statistics service.
