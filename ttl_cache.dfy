/** An expiring key-value cache over an abstract clock. An entry written at
    time `now` with time-to-live `ttl` is fresh while the clock is below
    `now + ttl`; stale entries are ignored on read rather than evicted. A
    time-to-live of zero turns caching off: writes store nothing. */
module TtlCache {
  import opened Items

  datatype Entry<V> = Entry(value: V, expiry: nat)

  predicate Fresh<K, V>(c: map<K, Entry<V>>, k: K, now: nat) {
    k in c && now < c[k].expiry
  }

  /** A read: the value of a fresh entry, nothing for a missing or stale one. */
  function Get<K, V>(c: map<K, Entry<V>>, k: K, now: nat): (r: Option<V>)
    ensures r.Some? <==> Fresh(c, k, now)
    ensures r.Some? ==> r.value == c[k].value
  {
    if Fresh(c, k, now) then Some(c[k].value) else None
  }

  /** A write that expires `ttl` after `now`; a no-op when `ttl` is zero. */
  function Set<K, V>(c: map<K, Entry<V>>, k: K, v: V, now: nat, ttl: nat): (r: map<K, Entry<V>>)
    ensures ttl == 0 ==> r == c
    ensures ttl > 0 ==> Fresh(r, k, now) && r[k] == Entry(v, now + ttl)
    ensures r.Keys <= c.Keys + {k}
    ensures forall k' :: k' in c && k' != k ==> k' in r && r[k'] == c[k']
  {
    if ttl == 0 then c else c[k := Entry(v, now + ttl)]
  }

  /** A flush of one slot, regardless of its expiry. */
  function Delete<K, V>(c: map<K, Entry<V>>, k: K): (r: map<K, Entry<V>>)
    ensures r.Keys == c.Keys - {k}
    ensures forall k' :: k' in r ==> r[k'] == c[k']
  {
    c - {k}
  }

  /** A written value is read back until its time-to-live has passed and
      not after; with a zero time-to-live the write is not seen at all. */
  lemma GetAfterSet<K, V>(c: map<K, Entry<V>>, k: K, v: V, now: nat, ttl: nat, later: nat)
    requires now <= later
    ensures ttl > 0 && later < now + ttl ==> Get(Set(c, k, v, now, ttl), k, later) == Some(v)
    ensures ttl > 0 && later >= now + ttl ==> Get(Set(c, k, v, now, ttl), k, later) == None
    ensures ttl == 0 ==> Get(Set(c, k, v, now, ttl), k, later) == Get(c, k, later)
  {
  }

  /** Writes and flushes of one slot leave every other slot as it was. */
  lemma OtherSlotsUnchanged<K, V>(c: map<K, Entry<V>>, k: K, v: V, now: nat, ttl: nat, k': K, later: nat)
    requires k' != k
    ensures Get(Set(c, k, v, now, ttl), k', later) == Get(c, k', later)
    ensures Get(Delete(c, k), k', later) == Get(c, k', later)
    ensures Get(Delete(c, k), k, later) == None
  {
  }
}
