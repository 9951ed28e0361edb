/** The storage backends the wrapper runs over: the in-memory test backend
    with version-arbitrated upsert, an initialization flag and a counter of
    initialization queries, and the test backend that can only be
    initialized with an ordered list of collections. */
module Core {
  import opened Items

  class MockCore {
    /** The cache time-to-live this backend asks its wrapper for. */
    const cacheTTL: nat
    var data: Dataset
    var inited: bool
    var initQueriedCount: nat

    /** A backend with empty item maps for both kinds. */
    constructor (ttl: nat)
      ensures cacheTTL == ttl
      ensures data == map[Features := map[], Segments := map[]]
      ensures !inited && initQueriedCount == 0
    {
      cacheTTL := ttl;
      data := map[Features := map[], Segments := map[]];
      inited := false;
      initQueriedCount := 0;
    }

    /** A write past the wrapper and past version arbitration. The kind's
        item map must exist (a write into a missing one panics). */
    method ForceSet(kind: Kind, item: Item)
      requires kind in data
      modifies this`data
      ensures data == old(data)[kind := old(data)[kind][item.key := item]]
    {
      data := data[kind := data[kind][item.key := item]];
    }

    /** A removal past the wrapper; removing from a missing kind does nothing. */
    method ForceRemove(kind: Kind, key: string)
      modifies this`data
      ensures kind in old(data) ==> data == old(data)[kind := old(data)[kind] - {key}]
      ensures kind !in old(data) ==> data == old(data)
    {
      if kind in data {
        data := data[kind := data[kind] - {key}];
      }
    }

    /** Replaces all data with the given dataset and marks the backend
        initialized. */
    method InitInternal(allData: Dataset)
      modifies this`data, this`inited
      ensures data == allData && inited
    {
      data := allData;
      inited := true;
    }

    /** The stored item for a key, tombstones included. */
    method GetInternal(kind: Kind, key: string) returns (r: Option<Item>)
      ensures r == Lookup(data, kind, key)
      ensures r.Some? ==> kind in data && key in data[kind] && r.value == data[kind][key]
    {
      if kind in data && key in data[kind] {
        r := Some(data[kind][key]);
      } else {
        r := None;
      }
    }

    /** All stored items of a kind, tombstones included. */
    method GetAllInternal(kind: Kind) returns (r: ItemMap)
      ensures r == KindItems(data, kind)
      ensures kind in data ==> r == data[kind]
    {
      if kind in data {
        r := data[kind];
      } else {
        r := map[];
      }
    }

    /** Upsert under version arbitration: returns the item that ends up
        authoritative for the key. */
    method UpsertInternal(kind: Kind, item: Item) returns (r: Result<Item>)
      modifies this`data
      ensures Arbitrate(old(data), kind, item).Success? ==>
        r == Success(Arbitrate(old(data), kind, item).value.final)
        && data == Arbitrate(old(data), kind, item).value.data
      ensures Arbitrate(old(data), kind, item).Failure? ==>
        r == Failure(Arbitrate(old(data), kind, item).error) && data == old(data)
    {
      if kind in data && item.key in data[kind] && data[kind][item.key].version >= item.version {
        return Success(data[kind][item.key]);
      }
      if kind !in data {
        return Failure(NilMapWrite(kind));
      }
      data := data[kind := data[kind][item.key := item]];
      r := Success(item);
    }

    /** Reports the initialization flag and counts the query. */
    method InitializedInternal() returns (r: bool)
      modifies this`initQueriedCount
      ensures r == inited
      ensures initQueriedCount == old(initQueriedCount) + 1
    {
      initQueriedCount := initQueriedCount + 1;
      r := inited;
    }
  }

  /** A backend without atomic replace: it records the ordered collections
      it was initialized with. It never asks for caching. */
  class MockNonAtomicCore {
    const cacheTTL: nat := 0
    var data: seq<StoreCollection>

    constructor ()
      ensures data == []
    {
      data := [];
    }

    method InitCollectionsInternal(allData: seq<StoreCollection>)
      modifies this`data
      ensures data == allData
    {
      data := allData;
    }
  }
}
