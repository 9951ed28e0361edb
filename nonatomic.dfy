/** The wrapper for a backend that cannot replace its dataset atomically:
    Init orders the dataset into collections, segments first and flags
    after their prerequisites, and hands that list to the backend. */
module NonAtomic {
  import opened Items
  import Core
  import Ordering
  import Wrapper

  class NonAtomicFeatureStoreWrapper {
    const core: Core.MockNonAtomicCore
    const ttl: nat
    var cache: Wrapper.CacheMap
    var inited: bool

    constructor (core: Core.MockNonAtomicCore)
      ensures this.core == core && ttl == core.cacheTTL
      ensures cache == map[] && !inited
    {
      this.core := core;
      ttl := core.cacheTTL;
      cache := map[];
      inited := false;
    }

    /** Writes the dataset to the backend as ordered collections, then
        seeds the cache and the initialized flag as the atomic wrapper's
        Init does. Every item must be stored under its own key. */
    method Init(allData: Dataset, now: nat)
      requires forall kind :: kind in allData ==> Ordering.WellKeyed(allData[kind])
      modifies this`cache, this`inited, core`data
      ensures Ordering.OrderedFor(allData, core.data)
      ensures cache == Wrapper.SeededCache(allData, now, ttl)
      ensures inited
    {
      var colls := Ordering.OrderCollections(allData);
      core.InitCollectionsInternal(colls);
      cache := Wrapper.SeededCache(allData, now, ttl);
      inited := true;
    }
  }
}
