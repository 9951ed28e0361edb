/** The data model shared by the backend, the caching wrapper and the
    dependency sorter: kinds, versioned items with tombstones, datasets, and
    the version-arbitration rule a backend applies on upsert. */
module Items {

  datatype Option<+T> = None | Some(value: T)

  /** The two kinds of versioned data the store holds. */
  datatype Kind = Features | Segments

  /** A versioned item. A deleted item is a tombstone: it keeps its key and
      version so that a stale write cannot resurrect it. Only feature flags
      carry prerequisites; a segment's list is empty. */
  datatype Item = Item(key: string, version: int, deleted: bool, prerequisites: seq<string>)

  type ItemMap = map<string, Item>

  /** All data of a store: for each kind, the items by key. */
  type Dataset = map<Kind, ItemMap>

  /** The one failure the in-memory test backend can produce: writing into
      the items of a kind that the dataset does not contain at all (a write
      into a nil map). */
  datatype Error = NilMapWrite(kind: Kind)

  datatype Result<+T> = Success(value: T) | Failure(error: Error)

  datatype Outcome = Ok | Err(error: Error)

  /** An ordered list of the items of one kind, as handed to a backend that
      cannot replace its whole dataset atomically. */
  datatype StoreCollection = StoreCollection(kind: Kind, items: seq<Item>)

  /** The new dataset after an upsert, and the item that is now
      authoritative for the key. */
  datatype Upserted = Upserted(data: Dataset, final: Item)

  /** The item a dataset holds for a key; a missing kind reads as empty. */
  function Lookup(d: Dataset, kind: Kind, key: string): Option<Item> {
    if kind in d && key in d[kind] then Some(d[kind][key]) else None
  }

  /** The items of one kind; a missing kind reads as empty. */
  function KindItems(d: Dataset, kind: Kind): ItemMap {
    if kind in d then d[kind] else map[]
  }

  /** Tombstone filtering for one lookup: a deleted item reads as absent. */
  function Visible(o: Option<Item>): (r: Option<Item>)
    ensures r.Some? <==> o.Some? && !o.value.deleted
    ensures r.Some? ==> r == o
  {
    if o.Some? && o.value.deleted then None else o
  }

  /** Tombstone filtering for a whole kind: the items that are not deleted. */
  function VisibleItems(m: ItemMap): (r: ItemMap)
    ensures forall k :: k in r <==> k in m && !m[k].deleted
    ensures forall k :: k in r ==> r[k] == m[k]
  {
    map k | k in m && !m[k].deleted :: m[k]
  }

  /** The tombstone a delete writes for a key at a version. */
  function MakeDeletedItem(key: string, version: int): (r: Item)
    ensures r.key == key && r.version == version
    ensures Visible(Some(r)) == None
  {
    Item(key, version, true, [])
  }

  /** The version-arbitration rule of an upsert: an existing item for the
      key whose version is at least the new one wins and nothing changes;
      otherwise the new item is stored. Storing into a kind the dataset
      lacks fails. */
  function Arbitrate(d: Dataset, kind: Kind, item: Item): (r: Result<Upserted>)
    ensures r.Failure? <==> kind !in d
    ensures r.Success? ==> Lookup(r.value.data, kind, item.key) == Some(r.value.final)
    ensures r.Success? ==> r.value.final == item || Lookup(d, kind, item.key) == Some(r.value.final)
    ensures r.Success? ==> r.value.final.version >= item.version
  {
    if kind in d && item.key in d[kind] && d[kind][item.key].version >= item.version then
      Success(Upserted(d, d[kind][item.key]))
    else if kind !in d then
      Failure(NilMapWrite(kind))
    else
      Success(Upserted(d[kind := d[kind][item.key := item]], item))
  }

  /** True when the upsert of `item` stores it: the kind exists and no item
      for the key has a version at least as high. */
  predicate Accepts(d: Dataset, kind: Kind, item: Item) {
    kind in d && !(item.key in d[kind] && d[kind][item.key].version >= item.version)
  }

  /** Both directions of the arbitration rule: an accepted item is stored
      and returned; a rejected one leaves the data as it was and returns the
      stored item; only a missing kind fails. */
  lemma ArbitrationRule(d: Dataset, kind: Kind, item: Item)
    ensures Arbitrate(d, kind, item).Failure? <==> kind !in d
    ensures Accepts(d, kind, item) ==>
      Arbitrate(d, kind, item) == Success(Upserted(d[kind := d[kind][item.key := item]], item))
    ensures kind in d && !Accepts(d, kind, item) ==>
      Arbitrate(d, kind, item) == Success(Upserted(d, d[kind][item.key]))
  {
  }

  /** After a successful upsert the dataset holds the returned item for the
      key, the item stored for the key never loses version, and no other key
      of any kind changes. */
  lemma ArbitrationFrame(d: Dataset, kind: Kind, item: Item, k: Kind, key: string)
    requires Arbitrate(d, kind, item).Success?
    ensures Lookup(Arbitrate(d, kind, item).value.data, kind, item.key) == Some(Arbitrate(d, kind, item).value.final)
    ensures Lookup(d, kind, item.key).Some? ==>
      Arbitrate(d, kind, item).value.final.version >= Lookup(d, kind, item.key).value.version
    ensures Arbitrate(d, kind, item).value.final.version >= item.version
    ensures (k, key) != (kind, item.key) ==> Lookup(Arbitrate(d, kind, item).value.data, k, key) == Lookup(d, k, key)
    ensures k != kind ==> KindItems(Arbitrate(d, kind, item).value.data, k) == KindItems(d, k)
    ensures Arbitrate(d, kind, item).value.data.Keys == d.Keys
  {
  }

  /** A tombstone stands against every later write whose version is not
      higher: the write is rejected, the tombstone stays and is returned. */
  lemma TombstoneResistsStaleWrite(d: Dataset, kind: Kind, key: string, version: int, item: Item)
    requires Arbitrate(d, kind, MakeDeletedItem(key, version)).Success?
    requires Accepts(d, kind, MakeDeletedItem(key, version))
    requires item.key == key && item.version <= version
    ensures var d1 := Arbitrate(d, kind, MakeDeletedItem(key, version)).value.data;
      Arbitrate(d1, kind, item) == Success(Upserted(d1, MakeDeletedItem(key, version)))
      && Visible(Lookup(d1, kind, key)) == None
  {
  }

  /** Two upserts of one key in a row: after the first is accepted, a
      strictly newer second one replaces it, and a second one with a version
      no higher is rejected in favour of the first. */
  lemma SuccessiveUpserts(d: Dataset, kind: Kind, first: Item, second: Item)
    requires Accepts(d, kind, first) && second.key == first.key
    ensures var d1 := Arbitrate(d, kind, first).value.data;
      && (second.version > first.version ==>
            Arbitrate(d1, kind, second) == Success(Upserted(d1[kind := d1[kind][second.key := second]], second)))
      && (second.version <= first.version ==>
            Arbitrate(d1, kind, second) == Success(Upserted(d1, first)))
  {
  }
}
