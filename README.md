# Caching feature store wrapper

This project models the caching wrapper of a feature-flag client's store.
It also models the in-memory test backends the wrapper runs over.

The store holds versioned items of two kinds, feature flags and segments.
A deleted item stays behind as a tombstone that keeps its version. A
backend ("core") stores the items and arbitrates upserts by version: an
existing item whose version is at least the new one wins. The wrapper
adds an expiring cache in front of that backend. The cache has three sorts
of slot:

- one answer per key of a kind (an item, or "absent");
- a snapshot of all items of a kind;
- a cached "not initialized" answer.

Reads hide tombstones. Upsert and Delete cache whatever item the backend
reports as authoritative, and flush the kind's snapshot. Init replaces the
backend's data and seeds the cache from the dataset. Initialized remembers
a true answer for good and reuses a false one until it expires. A
time-to-live of zero turns the cache off.

A backend that cannot replace its data atomically is handed an ordered
list of collections instead. Segments come first. Within the flags, every
prerequisite present in the dataset comes before the flag that needs it;
the order is a depth-first topological sort.

Modules:

- `Items`: kinds, items, datasets, the arbitration rule.
- `TtlCache`: the expiring cache over an abstract clock.
- `Core`: the backend `MockCore` and the non-atomic backend `MockNonAtomicCore`, as classes with the fields their methods update.
- `Wrapper`: the atomic `FeatureStoreWrapper`. Each operation is specified by functions of the old cache, the backend's data and the clock.
- `Ordering`: the dependency sorter.
- `NonAtomic`: the non-atomic wrapper's Init.
- `Scenarios`: the runs of the test suite, one client method per test, whose `ensures` state what the test asserts.

The wrapper's implementation file is not part of this model. Both wrappers
are modelled from the behaviour their test file checks, with the choices
this leaves open made as stated under "## Left out". Every source cell below therefore cites that test file.

## Model

| member | source | states |
|---|---|---|
| Items.Visible | utils/feature_store_wrapper_test.go:138-146 | a lookup is visible iff it found an item that is not deleted, and then it is that item |
| Items.VisibleItems | utils/feature_store_wrapper_test.go:195-214 | the visible items of a kind are exactly its non-deleted items, unchanged |
| Items.MakeDeletedItem | utils/feature_store_wrapper_test.go:319-329 | the tombstone Delete writes carries the given key and version and reads as absent |
| Items.Arbitrate | utils/feature_store_wrapper_test.go:59-66 | the upsert rule: fails exactly for a missing kind; on success the data holds the authoritative item for the key, which is the new item or the one already stored, with a version at least the new one's |
| Items.ArbitrationRule | utils/feature_store_wrapper_test.go:59-66 | an upsert fails iff the kind is missing; an accepted item is stored and returned; a rejected one leaves the data as it was and returns the stored item |
| Items.ArbitrationFrame | utils/feature_store_wrapper_test.go:59-66 | after a successful upsert the data holds the returned item for the key; its version is at least the old stored one and at least the new one; no other key or kind changes |
| Items.TombstoneResistsStaleWrite | utils/feature_store_wrapper_test.go:59-66 | once a tombstone is stored, a write with an equal or lower version is rejected, the tombstone is returned, and the key reads as absent |
| Items.SuccessiveUpserts | utils/feature_store_wrapper_test.go:263-313 | after an accepted upsert, a strictly newer one replaces it and one with no higher version is rejected in favour of the first |
| TtlCache.Get | utils/feature_store_wrapper_test.go:374-388 | a read finds a value iff its entry is present and not expired, and then it is the stored value |
| TtlCache.Set | utils/feature_store_wrapper_test.go:98-116 | a write with a positive time-to-live makes the slot fresh now, holding the value until `now + ttl`; with time-to-live 0 the cache is unchanged; no other slot changes |
| TtlCache.Delete | utils/feature_store_wrapper_test.go:235-261 | a flush removes exactly the one slot and keeps every other slot as it was |
| TtlCache.GetAfterSet | utils/feature_store_wrapper_test.go:98-116 | a write is read back before its expiry and not after; with a zero time-to-live it is not seen at all |
| TtlCache.OtherSlotsUnchanged | utils/feature_store_wrapper_test.go:235-261 | writing or flushing one slot leaves every other slot's reads unchanged; a flushed slot reads as empty |
| Core.MockCore.constructor | utils/feature_store_wrapper_test.go:26-31 | a new backend has the given time-to-live, empty item maps for both kinds, is not initialized and has been queried zero times |
| Core.MockCore.ForceSet | utils/feature_store_wrapper_test.go:33-35 | stores the item under its key, bypassing arbitration; the kind's map must exist |
| Core.MockCore.ForceRemove | utils/feature_store_wrapper_test.go:37-39 | removes the key from the kind's map; a missing kind is left as it is |
| Core.MockCore.InitInternal | utils/feature_store_wrapper_test.go:45-49 | the data becomes the dataset and the backend is initialized |
| Core.MockCore.GetInternal | utils/feature_store_wrapper_test.go:51-53 | returns the stored item for the key, tombstones included, and absent for a missing kind or key |
| Core.MockCore.GetAllInternal | utils/feature_store_wrapper_test.go:55-57 | returns the kind's stored items, tombstones included, and empty for a missing kind |
| Core.MockCore.UpsertInternal | utils/feature_store_wrapper_test.go:59-66 | applies the arbitration rule: returns the authoritative item and the new data; a missing kind fails and changes nothing |
| Core.MockCore.InitializedInternal | utils/feature_store_wrapper_test.go:68-71 | returns the initialization flag and increments the query count by one |
| Core.MockNonAtomicCore.constructor | utils/feature_store_wrapper_test.go:21-24 | a new non-atomic backend holds no collections |
| Core.MockNonAtomicCore.InitCollectionsInternal | utils/feature_store_wrapper_test.go:77-80 | records the collections in the order given |
| Wrapper.FeatureStoreWrapper.constructor | utils/feature_store_wrapper_test.go:98-116 | the wrapper takes its time-to-live from the backend and starts with an empty cache, not initialized |
| Wrapper.FeatureStoreWrapper.Get | utils/feature_store_wrapper_test.go:118-174 | answers a fresh cached answer for the key, otherwise the backend's item with tombstones as absent, and caches that answer; with caching off it is the backend's visible item; never a tombstone |
| Wrapper.FeatureStoreWrapper.All | utils/feature_store_wrapper_test.go:195-214 | answers the fresh cached snapshot, otherwise the backend's non-deleted items, and caches them; with caching off it is the backend's visible items; never a tombstone |
| Wrapper.FeatureStoreWrapper.Upsert | utils/feature_store_wrapper_test.go:235-313 | the backend applies arbitration; on success the key's slot holds the authoritative item and the kind's snapshot is flushed; a backend failure is returned and changes neither the data nor the cache |
| Wrapper.FeatureStoreWrapper.Delete | utils/feature_store_wrapper_test.go:315-341 | exactly an upsert of the tombstone for the key at the given version |
| Wrapper.FeatureStoreWrapper.Init | utils/feature_store_wrapper_test.go:176-233 | the backend holds the dataset and is initialized; the cache is seeded from the dataset; the wrapper is initialized |
| Wrapper.FeatureStoreWrapper.Initialized | utils/feature_store_wrapper_test.go:343-388 | true for good once seen or after Init, without asking the backend; a fresh cached false is reused without asking; otherwise asks once, caches a false answer and remembers a true one |
| Wrapper.SeededWellFormed | utils/feature_store_wrapper_test.go:176-233 | the seeded cache holds values of the right sort without tombstones, and is empty when caching is off |
| Wrapper.CachedGetIsRepeated | utils/feature_store_wrapper_test.go:118-174 | with caching on, a Get that missed is answered the same way until expiry, whatever the backend holds meanwhile: present, deleted or missing |
| Wrapper.CachedAllIsRepeated | utils/feature_store_wrapper_test.go:195-214 | with caching on, an All that missed is answered with the same snapshot until expiry |
| Wrapper.UncachedReadsBackend | utils/feature_store_wrapper_test.go:103-105 | with caching off every read reflects the backend's current visible data and the cache stays empty |
| Wrapper.ReadsHideTombstones | utils/feature_store_wrapper_test.go:138-156 | neither Get nor All ever answers a deleted item |
| Wrapper.UpsertIsReadBack | utils/feature_store_wrapper_test.go:263-313 | after an upsert, Get answers the authoritative item (new if accepted, stored if rejected) until expiry, whatever the backend holds meanwhile |
| Wrapper.UpsertRefreshesAll | utils/feature_store_wrapper_test.go:235-261 | after an upsert the next All of that kind reads the backend, so it also sees writes that bypassed the wrapper; other kinds' snapshots are untouched |
| Wrapper.InitIsReadBack | utils/feature_store_wrapper_test.go:176-233 | after Init, until expiry, Get and All answer from the dataset for its kinds and keys whatever the backend holds, and other keys and kinds from the backend |
| Wrapper.FalseAnswerIsCached | utils/feature_store_wrapper_test.go:374-388 | a false answer is reused without asking until it expires, then the backend is asked again; with caching off it is asked every time |
| Wrapper.InitializedIsSticky | utils/feature_store_wrapper_test.go:343-372 | once initialized, the answer is true, the backend is not asked and the cache does not change |
| Wrapper.CoherentReadsAreExact | utils/feature_store_wrapper_test.go:118-136 | a cache that agrees with the backend answers every Get and All exactly as the backend would |
| Wrapper.CoherentAfterReads | utils/feature_store_wrapper_test.go:118-136 | Get, All and Initialized keep the cache in agreement with the backend |
| Wrapper.CoherentAfterUpsert | utils/feature_store_wrapper_test.go:289-313 | an upsert keeps the cache in agreement with the backend's new data, also for a rejected write |
| Wrapper.CoherentAfterInit | utils/feature_store_wrapper_test.go:176-193 | the cache seeded by Init agrees with the installed dataset |
| Ordering.Visit | utils/feature_store_wrapper_test.go:413-428 | visiting a key takes it and possibly more keys from the remaining set and appends exactly the keys taken, each once |
| Ordering.VisitOrdered | utils/feature_store_wrapper_test.go:413-428 | with a rank that decreases along prerequisites, a visit keeps every present prerequisite listed before its dependent |
| Ordering.VisitAllOrdered | utils/feature_store_wrapper_test.go:413-428 | visiting a list of prerequisites keeps the order and lists every present one of them |
| Ordering.Dependencies | utils/feature_store_wrapper_test.go:397-428 | a flag depends on its prerequisites; a segment depends on nothing |
| Ordering.Priority | utils/feature_store_wrapper_test.go:395-399 | segments are the only kind of the lowest priority and flags come after them |
| Ordering.VisitAll | utils/feature_store_wrapper_test.go:413-428 | visiting a list of prerequisites appends every one of them still unvisited, together with what their visits take, and exactly the keys taken from the remaining set, each once |
| Ordering.IndexOf | utils/feature_store_wrapper_test.go:404-411 | the first position of an item with the key, or -1 when there is none |
| Ordering.SortCollection | utils/feature_store_wrapper_test.go:397-428 | the list holds every item of the kind exactly once and nothing else, and for acyclic flags no prerequisite is listed after its dependent |
| Ordering.KeysEnumerate | utils/feature_store_wrapper_test.go:397-400 | a duplicate-free list of all keys yields a list with each item once and as many items as the map |
| Ordering.OrderIsChecked | utils/feature_store_wrapper_test.go:413-428 | an ordered key list passes the test's position check for every prerequisite, including absent ones |
| Ordering.KindsByPriority | utils/feature_store_wrapper_test.go:395-399 | the dataset's kinds, each kind exactly when the dataset has it, in strictly increasing priority |
| Ordering.OrderCollections | utils/feature_store_wrapper_test.go:390-428 | one collection per kind of the dataset, in increasing priority, each enumerating its kind and, for acyclic flags, ordered by prerequisites |
| Ordering.SegmentsThenFlags | utils/feature_store_wrapper_test.go:395-399 | for a dataset with both kinds the ordered list has exactly two collections, segments first |
| NonAtomic.NonAtomicFeatureStoreWrapper.constructor | utils/feature_store_wrapper_test.go:73-75 | the wrapper takes the backend's zero time-to-live and starts with an empty cache, not initialized |
| NonAtomic.NonAtomicFeatureStoreWrapper.Init | utils/feature_store_wrapper_test.go:390-428 | the backend receives the ordered collections for the dataset; the cache is seeded and the wrapper initialized as the atomic wrapper's Init does |
| Scenarios.GetTwice | utils/feature_store_wrapper_test.go:118-136 | the second Get returns the cached version 1 with caching on and the backend's version 2 without |
| Scenarios.GetDeletedItem | utils/feature_store_wrapper_test.go:138-156 | a deleted item reads as absent; with caching that answer persists after a live write, without caching the live item is read |
| Scenarios.GetMissingItem | utils/feature_store_wrapper_test.go:158-174 | a missing item reads as absent; with caching the absent answer is retained |
| Scenarios.GetAfterInitAsWritten | utils/feature_store_wrapper_test.go:176-193 | the test's run as written: the read-back of version 1 holds with caching on and also off |
| Scenarios.GetAfterInit | utils/feature_store_wrapper_test.go:176-193 | Init installs the dataset; after a version-2 write past the wrapper, cached Get answers version 1 and uncached Get answers version 2 |
| Scenarios.AllTwice | utils/feature_store_wrapper_test.go:195-214 | All sees two items, then two with caching and one without after a removal past the wrapper |
| Scenarios.CachedAllUsesInit | utils/feature_store_wrapper_test.go:216-233 | Init installs the dataset and a cached All still sees both items after a removal past the wrapper |
| Scenarios.CachedAllAfterUpsert | utils/feature_store_wrapper_test.go:235-261 | Init installs the dataset and the upsert through the wrapper succeeds; All then sees version 2 of a key written past the wrapper |
| Scenarios.UpsertSuccessful | utils/feature_store_wrapper_test.go:263-287 | both upserts succeed and reach the backend, and Get answers version 2, cached or not |
| Scenarios.CachedUpsertUnsuccessful | utils/feature_store_wrapper_test.go:289-313 | both upserts succeed; the lower-version one leaves version 2 in the backend and the cache answers version 2 after a write past it |
| Scenarios.DeleteThenGet | utils/feature_store_wrapper_test.go:315-341 | Delete succeeds and stores the version-2 tombstone; the next Get is absent with caching and answers version 3 without |
| Scenarios.InitializedQueriesUntilTrue | utils/feature_store_wrapper_test.go:343-357 | answers false, true, true with query counts 1, 2, 2 |
| Scenarios.InitializedAfterInit | utils/feature_store_wrapper_test.go:359-372 | answers false then, after Init, true, with the query count staying 1 |
| Scenarios.InitializedCachesFalse | utils/feature_store_wrapper_test.go:374-388 | with a 500 ms time-to-live answers false, false (count 1), then at 600 ms true (count 2) |
| Scenarios.OrderingTestDataIsAcyclic | utils/feature_store_wrapper_test.go:432-456 | the flags of the ordering test data have no prerequisite cycle |
| Scenarios.NonAtomicInitIsOrdered | utils/feature_store_wrapper_test.go:390-429 | the backend receives two collections, segments first, each as long as its kind's input, and no flag before one of its prerequisites |

## Left out

- Locking and concurrency are not modelled. Each operation is one atomic step, and the backend call and the cache update are not interleaved with other callers.
- Wall-clock time is an abstract clock `now` in milliseconds, passed to each wrapper operation. An entry written at `now` with time-to-live `ttl` is fresh while the clock is below `now + ttl`.
- Go map iteration order is not modelled. The sorter picks its next unvisited key freely, so its ordering contract holds for every iteration order.
- Ordering.SortCollection: nothing is claimed about the order when prerequisites form a cycle. It still terminates and lists every item once. No test fixes the behaviour on a cycle.
- Ordering.SortCollection requires every item to be stored under its own key, because the sorter marks items by the key they carry.
- Core.MockCore.UpsertInternal: a write into a kind missing from the data panics in Go (a nil-map write). It is modelled as the error `NilMapWrite`, which the wrapper returns without touching its cache.
- Core.MockCore.ForceSet requires the kind's map to exist, for the same nil-map panic.
- The `GetCacheTTL` method of both backends is the constant field `cacheTTL`, read once by each wrapper's constructor.
- Backend I/O errors are not modelled. The in-memory backends never fail except for the nil-map write above.
- The stubs of `MockNonAtomicCore` (`GetInternal`, `GetAllInternal`, `UpsertInternal`, `InitializedInternal`) answer nil or false and are unused, so they are not modelled.
- The non-atomic wrapper's Get, All, Upsert, Delete and Initialized are not modelled again. They share the atomic wrapper's logic, and its backend's stubs make them uninteresting.
- Wrapper.FeatureStoreWrapper.Init discards the whole cache before seeding it. No test tells whether stale slots of keys absent from the new dataset survive; discarding them keeps the cache in agreement with the new data.
- The tests compare items and maps by deep equality, which the model's value equality matches.
- Maps are values in the model. In Go the caller, the backend and the wrapper's cache can share one map: `InitInternal` keeps the caller's map, so later writes to the backend also change it. That sharing, and the copying the wrapper needs to keep its snapshot apart from it, are not modelled.
- Flag payloads other than key, version, deleted flag and prerequisite keys are not modelled.
- The file-watching data source, the Redis backend and the shared store test suite are not modelled.

## Findings

| source | as written | input that shows it | evidently intended | confidence | as-written member | corrected member |
|---|---|---|---|---|---|---|
| utils/feature_store_wrapper_test.go:179-180 | the flag written past the wrapper after Init has version 1, the same value Init installed, so the read-back holds whether or not Init seeded the cache | a backend with time-to-live 0 (caching off): Get still answers version 1 | write a different version (2) past the wrapper, so only a value seeded by Init can answer version 1 | not executed | Scenarios.GetAfterInitAsWritten | Scenarios.GetAfterInit |
