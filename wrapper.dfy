/** The caching wrapper over a storage backend. One expiring cache holds
    three kinds of slot: the answer for one key of a kind (an item or a
    cached "absent"), the snapshot of all items of a kind, and a cached
    "not initialized" answer. Cached values are already free of tombstones.
    Each operation is specified by functions of the cache before the call,
    the backend's data and the clock: what it answers and what the cache is
    afterwards. */
module Wrapper {
  import opened Items
  import TtlCache
  import Core

  datatype CacheKey = ItemKey(kind: Kind, key: string) | AllKey(kind: Kind) | InitCheckedKey

  datatype CacheValue = ItemValue(item: Option<Item>) | AllValue(items: ItemMap) | InitCheckedValue

  type CacheMap = map<CacheKey, TtlCache.Entry<CacheValue>>

  /** The sort of value each slot holds; item and snapshot slots never hold
      a tombstone. */
  predicate Fits(ck: CacheKey, v: CacheValue) {
    match ck
    case ItemKey(_, _) => v.ItemValue? && (v.item.Some? ==> !v.item.value.deleted)
    case AllKey(_) => v.AllValue? && forall k :: k in v.items ==> !v.items[k].deleted
    case InitCheckedKey => v.InitCheckedValue?
  }

  ghost predicate WellFormed(c: CacheMap) {
    forall ck :: ck in c ==> Fits(ck, c[ck].value)
  }

  /** With a zero time-to-live the wrapper keeps no cache at all. */
  ghost predicate Configured(c: CacheMap, ttl: nat) {
    ttl == 0 ==> c == map[]
  }

  // ----- Get -----

  predicate ItemHit(c: CacheMap, kind: Kind, key: string, now: nat) {
    var v := TtlCache.Get(c, ItemKey(kind, key), now);
    v.Some? && v.value.ItemValue?
  }

  /** What Get answers: the cached answer for the key while it is fresh,
      otherwise the backend's item with a tombstone read as absent. */
  function ReadItem(c: CacheMap, d: Dataset, kind: Kind, key: string, now: nat): Option<Item> {
    if ItemHit(c, kind, key, now) then TtlCache.Get(c, ItemKey(kind, key), now).value.item
    else Visible(Lookup(d, kind, key))
  }

  /** The cache after Get: a miss caches the answer, present or absent. */
  function CacheAfterGet(c: CacheMap, d: Dataset, kind: Kind, key: string, now: nat, ttl: nat): CacheMap {
    if ItemHit(c, kind, key, now) then c
    else TtlCache.Set(c, ItemKey(kind, key), ItemValue(Visible(Lookup(d, kind, key))), now, ttl)
  }

  // ----- All -----

  predicate AllHit(c: CacheMap, kind: Kind, now: nat) {
    var v := TtlCache.Get(c, AllKey(kind), now);
    v.Some? && v.value.AllValue?
  }

  /** What All answers: the fresh cached snapshot of the kind, otherwise the
      backend's items of the kind without tombstones. */
  function ReadAll(c: CacheMap, d: Dataset, kind: Kind, now: nat): ItemMap {
    if AllHit(c, kind, now) then TtlCache.Get(c, AllKey(kind), now).value.items
    else VisibleItems(KindItems(d, kind))
  }

  function CacheAfterAll(c: CacheMap, d: Dataset, kind: Kind, now: nat, ttl: nat): CacheMap {
    if AllHit(c, kind, now) then c
    else TtlCache.Set(c, AllKey(kind), AllValue(VisibleItems(KindItems(d, kind))), now, ttl)
  }

  // ----- Upsert and Delete -----

  /** The cache after a successful upsert: the key's slot holds the item the
      backend reports as authoritative, and the kind's snapshot is flushed. */
  function CacheAfterUpsert(c: CacheMap, kind: Kind, key: string, final: Item, now: nat, ttl: nat): CacheMap {
    TtlCache.Delete(TtlCache.Set(c, ItemKey(kind, key), ItemValue(Visible(Some(final))), now, ttl), AllKey(kind))
  }

  // ----- Init -----

  /** The slots Init seeds: the snapshot of each kind of the dataset and
      each of its keys. */
  function SeedKeys(allData: Dataset): set<CacheKey> {
    (set kind | kind in allData :: AllKey(kind))
    + (set kind, key | kind in allData && key in allData[kind] :: ItemKey(kind, key))
  }

  function SeedValue(allData: Dataset, ck: CacheKey): CacheValue
    requires ck in SeedKeys(allData)
  {
    match ck
    case AllKey(kind) => AllValue(VisibleItems(allData[kind]))
    case ItemKey(kind, key) => ItemValue(Visible(Some(allData[kind][key])))
  }

  /** The cache after Init: everything cached before is discarded and the
      supplied dataset is cached, as snapshots and per key. */
  function SeededCache(allData: Dataset, now: nat, ttl: nat): CacheMap {
    if ttl == 0 then map[]
    else map ck | ck in SeedKeys(allData) :: TtlCache.Entry(SeedValue(allData, ck), now + ttl)
  }

  // ----- Initialized -----

  /** Initialized asks the backend only when it has neither seen the store
      initialized nor a fresh cached "not initialized" answer. */
  predicate QueriesCore(c: CacheMap, inited: bool, now: nat) {
    !inited && TtlCache.Get(c, InitCheckedKey, now).None?
  }

  function InitializedAnswer(c: CacheMap, inited: bool, coreInited: bool, now: nat): bool {
    if inited then true
    else if !QueriesCore(c, inited, now) then false
    else coreInited
  }

  /** A "not initialized" answer from the backend is cached; an
      "initialized" one clears that slot (the flag remembers it instead). */
  function CacheAfterInitialized(c: CacheMap, inited: bool, coreInited: bool, now: nat, ttl: nat): CacheMap {
    if !QueriesCore(c, inited, now) then c
    else if coreInited then TtlCache.Delete(c, InitCheckedKey)
    else TtlCache.Set(c, InitCheckedKey, InitCheckedValue, now, ttl)
  }

  /** The wrapper for a backend that can replace its whole dataset at once. */
  class FeatureStoreWrapper {
    const core: Core.MockCore
    const ttl: nat
    var cache: CacheMap
    var inited: bool

    ghost predicate Valid()
      reads this
    {
      Configured(cache, ttl) && WellFormed(cache)
    }

    /** The wrapper takes its time-to-live from the backend once. */
    constructor (core: Core.MockCore)
      ensures this.core == core && ttl == core.cacheTTL
      ensures cache == map[] && !inited
      ensures Valid()
    {
      this.core := core;
      ttl := core.cacheTTL;
      cache := map[];
      inited := false;
    }

    method Get(kind: Kind, key: string, now: nat) returns (r: Option<Item>)
      requires Valid()
      modifies this`cache
      ensures Valid()
      ensures r == ReadItem(old(cache), core.data, kind, key, now)
      ensures cache == CacheAfterGet(old(cache), core.data, kind, key, now, ttl)
      ensures ttl == 0 ==> r == Visible(Lookup(core.data, kind, key))
      ensures r.Some? ==> !r.value.deleted
    {
      var cached := TtlCache.Get(cache, ItemKey(kind, key), now);
      if cached.Some? && cached.value.ItemValue? {
        r := cached.value.item;
      } else {
        var item := core.GetInternal(kind, key);
        r := Visible(item);
        cache := TtlCache.Set(cache, ItemKey(kind, key), ItemValue(r), now, ttl);
      }
    }

    method All(kind: Kind, now: nat) returns (r: ItemMap)
      requires Valid()
      modifies this`cache
      ensures Valid()
      ensures r == ReadAll(old(cache), core.data, kind, now)
      ensures cache == CacheAfterAll(old(cache), core.data, kind, now, ttl)
      ensures ttl == 0 ==> r == VisibleItems(KindItems(core.data, kind))
      ensures forall k :: k in r ==> !r[k].deleted
    {
      var cached := TtlCache.Get(cache, AllKey(kind), now);
      if cached.Some? && cached.value.AllValue? {
        r := cached.value.items;
      } else {
        var items := core.GetAllInternal(kind);
        r := VisibleItems(items);
        cache := TtlCache.Set(cache, AllKey(kind), AllValue(r), now, ttl);
      }
    }

    /** Upserts through the backend, then caches whatever item the backend
        reports as authoritative and flushes the kind's snapshot. A backend
        failure is returned and leaves the cache as it was. */
    method Upsert(kind: Kind, item: Item, now: nat) returns (outcome: Outcome)
      requires Valid()
      modifies this`cache, core`data
      ensures Valid()
      ensures Arbitrate(old(core.data), kind, item).Failure? ==>
        outcome == Err(Arbitrate(old(core.data), kind, item).error)
        && core.data == old(core.data) && cache == old(cache)
      ensures Arbitrate(old(core.data), kind, item).Success? ==>
        outcome == Ok
        && core.data == Arbitrate(old(core.data), kind, item).value.data
        && cache == CacheAfterUpsert(old(cache), kind, item.key, Arbitrate(old(core.data), kind, item).value.final, now, ttl)
    {
      var r := core.UpsertInternal(kind, item);
      match r
      case Failure(e) =>
        outcome := Err(e);
      case Success(final) =>
        cache := TtlCache.Set(cache, ItemKey(kind, item.key), ItemValue(Visible(Some(final))), now, ttl);
        cache := TtlCache.Delete(cache, AllKey(kind));
        outcome := Ok;
    }

    /** A delete is the upsert of a tombstone at the given version. */
    method Delete(kind: Kind, key: string, version: int, now: nat) returns (outcome: Outcome)
      requires Valid()
      modifies this`cache, core`data
      ensures Valid()
      ensures Arbitrate(old(core.data), kind, MakeDeletedItem(key, version)).Failure? ==>
        outcome == Err(Arbitrate(old(core.data), kind, MakeDeletedItem(key, version)).error)
        && core.data == old(core.data) && cache == old(cache)
      ensures Arbitrate(old(core.data), kind, MakeDeletedItem(key, version)).Success? ==>
        outcome == Ok
        && core.data == Arbitrate(old(core.data), kind, MakeDeletedItem(key, version)).value.data
        && cache == CacheAfterUpsert(old(cache), kind, key,
                                     Arbitrate(old(core.data), kind, MakeDeletedItem(key, version)).value.final, now, ttl)
    {
      outcome := Upsert(kind, MakeDeletedItem(key, version), now);
    }

    /** Replaces the backend's data, reseeds the cache from the dataset and
        remembers that the store is initialized. */
    method Init(allData: Dataset, now: nat)
      requires Valid()
      modifies this`cache, this`inited, core`data, core`inited
      ensures Valid()
      ensures core.data == allData && core.inited
      ensures cache == SeededCache(allData, now, ttl)
      ensures inited
    {
      core.InitInternal(allData);
      SeededWellFormed(allData, now, ttl);
      cache := SeededCache(allData, now, ttl);
      inited := true;
    }

    /** Whether the store is initialized. Once known to be, the answer is
        true for good and the backend is not asked again; a "not
        initialized" answer is reused while it is fresh. */
    method Initialized(now: nat) returns (r: bool)
      requires Valid()
      modifies this`cache, this`inited, core`initQueriedCount
      ensures Valid()
      ensures r == InitializedAnswer(old(cache), old(inited), core.inited, now)
      ensures cache == CacheAfterInitialized(old(cache), old(inited), core.inited, now, ttl)
      ensures inited == (old(inited) || r)
      ensures core.initQueriedCount == old(core.initQueriedCount) + (if QueriesCore(old(cache), old(inited), now) then 1 else 0)
      ensures old(inited) ==> r && core.initQueriedCount == old(core.initQueriedCount)
    {
      if inited {
        return true;
      }
      var checked := TtlCache.Get(cache, InitCheckedKey, now);
      if checked.Some? {
        return false;
      }
      r := core.InitializedInternal();
      if r {
        inited := true;
        cache := TtlCache.Delete(cache, InitCheckedKey);
      } else {
        cache := TtlCache.Set(cache, InitCheckedKey, InitCheckedValue, now, ttl);
      }
    }
  }

  /** The seeded cache holds values of the right sort, free of tombstones. */
  lemma SeededWellFormed(allData: Dataset, now: nat, ttl: nat)
    ensures WellFormed(SeededCache(allData, now, ttl)) && Configured(SeededCache(allData, now, ttl), ttl)
  {
  }

  // ----- Properties of the cached reads -----

  /** With caching on, a Get that missed is answered again the same way
      until the time-to-live passes, whatever the backend meanwhile holds:
      a present item, a deleted one (absent) or a missing one (absent). */
  lemma CachedGetIsRepeated(c: CacheMap, d: Dataset, d': Dataset, kind: Kind, key: string, now: nat, later: nat, ttl: nat)
    requires ttl > 0 && now <= later < now + ttl
    requires !ItemHit(c, kind, key, now)
    ensures ReadItem(CacheAfterGet(c, d, kind, key, now, ttl), d', kind, key, later) == Visible(Lookup(d, kind, key))
    ensures ReadItem(c, d, kind, key, now) == Visible(Lookup(d, kind, key))
  {
    TtlCache.GetAfterSet(c, ItemKey(kind, key), ItemValue(Visible(Lookup(d, kind, key))), now, ttl, later);
  }

  /** With caching on, an All that missed is answered again with the same
      snapshot until the time-to-live passes. */
  lemma CachedAllIsRepeated(c: CacheMap, d: Dataset, d': Dataset, kind: Kind, now: nat, later: nat, ttl: nat)
    requires ttl > 0 && now <= later < now + ttl
    requires !AllHit(c, kind, now)
    ensures ReadAll(CacheAfterAll(c, d, kind, now, ttl), d', kind, later) == VisibleItems(KindItems(d, kind))
  {
    TtlCache.GetAfterSet(c, AllKey(kind), AllValue(VisibleItems(KindItems(d, kind))), now, ttl, later);
  }

  /** Without caching every read reflects the backend's current data and
      the cache stays empty. */
  lemma UncachedReadsBackend(c: CacheMap, d: Dataset, kind: Kind, key: string, now: nat)
    requires Configured(c, 0)
    ensures ReadItem(c, d, kind, key, now) == Visible(Lookup(d, kind, key))
    ensures ReadAll(c, d, kind, now) == VisibleItems(KindItems(d, kind))
    ensures CacheAfterGet(c, d, kind, key, now, 0) == c && CacheAfterAll(c, d, kind, now, 0) == c
  {
  }

  /** Reads never hand out a tombstone. */
  lemma ReadsHideTombstones(c: CacheMap, d: Dataset, kind: Kind, key: string, now: nat)
    requires WellFormed(c)
    ensures ReadItem(c, d, kind, key, now).Some? ==> !ReadItem(c, d, kind, key, now).value.deleted
    ensures forall k :: k in ReadAll(c, d, kind, now) ==> !ReadAll(c, d, kind, now)[k].deleted
  {
    if ItemHit(c, kind, key, now) {
      assert Fits(ItemKey(kind, key), c[ItemKey(kind, key)].value);
    }
    if AllHit(c, kind, now) {
      assert Fits(AllKey(kind), c[AllKey(kind)].value);
    }
  }

  /** After an upsert, Get answers the authoritative item (the new one if
      accepted, the stored one if not, absent if that is a tombstone) until
      the time-to-live passes, whatever the backend meanwhile holds. */
  lemma UpsertIsReadBack(c: CacheMap, d: Dataset, d': Dataset, kind: Kind, item: Item, now: nat, later: nat, ttl: nat)
    requires ttl > 0 && now <= later < now + ttl
    requires Arbitrate(d, kind, item).Success?
    ensures var final := Arbitrate(d, kind, item).value.final;
      ReadItem(CacheAfterUpsert(c, kind, item.key, final, now, ttl), d', kind, item.key, later) == Visible(Some(final))
  {
    var final := Arbitrate(d, kind, item).value.final;
    var c1 := TtlCache.Set(c, ItemKey(kind, item.key), ItemValue(Visible(Some(final))), now, ttl);
    TtlCache.GetAfterSet(c, ItemKey(kind, item.key), ItemValue(Visible(Some(final))), now, ttl, later);
    TtlCache.OtherSlotsUnchanged(c1, AllKey(kind), AllValue(map[]), now, ttl, ItemKey(kind, item.key), later);
  }

  /** An upsert flushes its kind's snapshot, so the next All of that kind
      reads the backend and sees changes made past the wrapper to any key;
      the snapshots of other kinds are untouched. */
  lemma UpsertRefreshesAll(c: CacheMap, kind: Kind, key: string, final: Item, now: nat, ttl: nat, d': Dataset, later: nat)
    ensures ReadAll(CacheAfterUpsert(c, kind, key, final, now, ttl), d', kind, later) == VisibleItems(KindItems(d', kind))
    ensures forall k :: k != kind ==> ReadAll(CacheAfterUpsert(c, kind, key, final, now, ttl), d', k, later) == ReadAll(c, d', k, later)
  {
  }

  /** After Init, until the time-to-live passes, Get and All answer from the
      supplied dataset for its kinds and keys, whatever the backend
      meanwhile holds; other keys and kinds are read from the backend. */
  lemma InitIsReadBack(allData: Dataset, d': Dataset, kind: Kind, key: string, now: nat, later: nat, ttl: nat)
    requires ttl > 0 && now <= later < now + ttl
    ensures kind in allData && key in allData[kind] ==>
      ReadItem(SeededCache(allData, now, ttl), d', kind, key, later) == Visible(Some(allData[kind][key]))
    ensures !(kind in allData && key in allData[kind]) ==>
      ReadItem(SeededCache(allData, now, ttl), d', kind, key, later) == Visible(Lookup(d', kind, key))
    ensures kind in allData ==> ReadAll(SeededCache(allData, now, ttl), d', kind, later) == VisibleItems(allData[kind])
    ensures kind !in allData ==> ReadAll(SeededCache(allData, now, ttl), d', kind, later) == VisibleItems(KindItems(d', kind))
  {
    var c := SeededCache(allData, now, ttl);
    if kind in allData && key in allData[kind] {
      assert ItemKey(kind, key) in SeedKeys(allData);
    }
    if kind in allData {
      assert AllKey(kind) in SeedKeys(allData);
    }
  }

  // ----- Initialized -----

  /** A "not initialized" answer is reused without asking the backend while
      it is fresh; once it has expired the backend is asked again. Without
      caching the backend is asked every time. */
  lemma FalseAnswerIsCached(c: CacheMap, now: nat, later: nat, ttl: nat, coreInited: bool)
    requires now <= later
    requires QueriesCore(c, false, now)
    ensures var c1 := CacheAfterInitialized(c, false, false, now, ttl);
      && (ttl > 0 && later < now + ttl ==> !QueriesCore(c1, false, later) && !InitializedAnswer(c1, false, coreInited, later))
      && (later >= now + ttl ==> QueriesCore(c1, false, later) && InitializedAnswer(c1, false, coreInited, later) == coreInited)
  {
    TtlCache.GetAfterSet(c, InitCheckedKey, InitCheckedValue, now, ttl, later);
  }

  /** Once the wrapper knows the store is initialized it answers true and
      never asks the backend, whatever the cache holds. */
  lemma InitializedIsSticky(c: CacheMap, coreInited: bool, now: nat, ttl: nat)
    ensures !QueriesCore(c, true, now) && InitializedAnswer(c, true, coreInited, now)
    ensures CacheAfterInitialized(c, true, coreInited, now, ttl) == c
  {
  }

  // ----- Coherence: without writes past the wrapper, the cache is invisible -----

  /** What each slot would hold if it were filled from the backend now. */
  function Truth(d: Dataset, ck: CacheKey): CacheValue {
    match ck
    case ItemKey(kind, key) => ItemValue(Visible(Lookup(d, kind, key)))
    case AllKey(kind) => AllValue(VisibleItems(KindItems(d, kind)))
    case InitCheckedKey => InitCheckedValue
  }

  /** Every slot, fresh or stale, agrees with the backend. */
  ghost predicate Coherent(c: CacheMap, d: Dataset) {
    forall ck :: ck in c ==> c[ck].value == Truth(d, ck)
  }

  /** A coherent cache answers every read exactly as the backend would. */
  lemma CoherentReadsAreExact(c: CacheMap, d: Dataset, kind: Kind, key: string, now: nat)
    requires Coherent(c, d)
    ensures WellFormed(c)
    ensures ReadItem(c, d, kind, key, now) == Visible(Lookup(d, kind, key))
    ensures ReadAll(c, d, kind, now) == VisibleItems(KindItems(d, kind))
  {
    forall ck | ck in c
      ensures Fits(ck, c[ck].value)
    {
      assert c[ck].value == Truth(d, ck);
    }
    if ItemHit(c, kind, key, now) {
      assert c[ItemKey(kind, key)].value == Truth(d, ItemKey(kind, key));
    }
    if AllHit(c, kind, now) {
      assert c[AllKey(kind)].value == Truth(d, AllKey(kind));
    }
  }

  /** Reads keep the cache coherent. */
  lemma CoherentAfterReads(c: CacheMap, d: Dataset, kind: Kind, key: string, now: nat, ttl: nat)
    requires Coherent(c, d)
    ensures Coherent(CacheAfterGet(c, d, kind, key, now, ttl), d)
    ensures Coherent(CacheAfterAll(c, d, kind, now, ttl), d)
    ensures forall inited, coreInited :: Coherent(CacheAfterInitialized(c, inited, coreInited, now, ttl), d)
  {
  }

  /** An upsert keeps the cache coherent with the backend's new data, also
      when the backend rejected the write. */
  lemma CoherentAfterUpsert(c: CacheMap, d: Dataset, kind: Kind, item: Item, now: nat, ttl: nat)
    requires Coherent(c, d) && Configured(c, ttl)
    requires Arbitrate(d, kind, item).Success?
    ensures Coherent(CacheAfterUpsert(c, kind, item.key, Arbitrate(d, kind, item).value.final, now, ttl),
                     Arbitrate(d, kind, item).value.data)
  {
    var u := Arbitrate(d, kind, item).value;
    var c' := CacheAfterUpsert(c, kind, item.key, u.final, now, ttl);
    forall ck | ck in c'
      ensures c'[ck].value == Truth(u.data, ck)
    {
      if !ck.InitCheckedKey? {
        ArbitrationFrame(d, kind, item, ck.kind, if ck.ItemKey? then ck.key else "");
      }
      if ck != ItemKey(kind, item.key) {
        assert ck in c && c'[ck] == c[ck];
      }
    }
  }

  /** Init leaves the cache coherent with the dataset it installed. */
  lemma CoherentAfterInit(allData: Dataset, now: nat, ttl: nat)
    ensures Coherent(SeededCache(allData, now, ttl), allData)
  {
  }
}
