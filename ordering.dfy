/** Dependency-aware ordering of a dataset for a backend that cannot replace
    its data atomically: kinds in priority order (segments before flags),
    and within a kind a depth-first order that emits every present
    prerequisite of an item before the item. */
module Ordering {
  import opened Items

  /** Kinds that others may depend on come first. */
  function Priority(kind: Kind): (r: nat)
    ensures r <= 1
    ensures r == 0 <==> kind == Segments
  {
    match kind
    case Segments => 0
    case Features => 1
  }

  /** The keys an item depends on within its own kind: a flag's
      prerequisites; segments depend on nothing. */
  function Dependencies(kind: Kind, item: Item): (r: seq<string>)
    ensures kind == Features ==> r == item.prerequisites
    ensures kind == Segments ==> |r| == 0
  {
    if kind == Features then item.prerequisites else []
  }

  /** Every item is stored under its own key. */
  ghost predicate WellKeyed(m: ItemMap) {
    forall k :: k in m ==> m[k].key == k
  }

  ghost predicate NoDup(s: seq<string>) {
    forall i, j :: 0 <= i < j < |s| ==> s[i] != s[j]
  }

  /** Every present dependency of an element occurs earlier in the list. */
  ghost predicate DependenciesFirst(m: ItemMap, kind: Kind, s: seq<string>) {
    forall j, p :: 0 <= j < |s| && s[j] in m && p in Dependencies(kind, m[s[j]]) && p in m ==> p in s[..j]
  }

  /** A rank that strictly decreases along every present dependency. */
  ghost predicate RankedBy(m: ItemMap, kind: Kind, rank: map<string, nat>) {
    && m.Keys <= rank.Keys
    && forall k, p :: k in m && p in Dependencies(kind, m[k]) && p in m ==> rank[p] < rank[k]
  }

  /** The dependency graph has no cycle: it admits a rank. */
  ghost predicate Acyclic(m: ItemMap, kind: Kind) {
    exists rank :: RankedBy(m, kind, rank)
  }

  /** Emits `k` after its dependencies that are still unvisited. `k` leaves
      the remaining set before its dependencies are visited, so each key is
      visited at most once. Returns the new remaining set and output. The
      keys appended are exactly those taken from the remaining set, each
      once. */
  function Visit(m: ItemMap, kind: Kind, k: string, rem: set<string>, out: seq<string>): (res: (set<string>, seq<string>))
    requires k in rem && rem <= m.Keys
    ensures res.0 <= rem - {k}
    ensures |out| <= |res.1| && res.1[..|out|] == out
    ensures NoDup(res.1[|out|..])
    ensures forall x :: x in res.1[|out|..] <==> x in rem && x !in res.0
    decreases rem, 0
  {
    var (r1, o1) := VisitAll(m, kind, Dependencies(kind, m[k]), rem - {k}, out);
    assert o1[|out|..] + [k] == (o1 + [k])[|out|..];
    (r1, o1 + [k])
  }

  /** Visits, in order, those of the keys `ps` that are still unvisited. */
  function VisitAll(m: ItemMap, kind: Kind, ps: seq<string>, rem: set<string>, out: seq<string>): (res: (set<string>, seq<string>))
    requires rem <= m.Keys
    ensures res.0 <= rem
    ensures |out| <= |res.1| && res.1[..|out|] == out
    ensures NoDup(res.1[|out|..])
    ensures forall x :: x in res.1[|out|..] <==> x in rem && x !in res.0
    ensures forall p :: p in ps && p in rem ==> p in res.1[|out|..]
    decreases rem, 1, |ps|
  {
    if ps == [] then
      (rem, out)
    else if ps[0] in rem then
      var (r1, o1) := Visit(m, kind, ps[0], rem, out);
      var (r2, o2) := VisitAll(m, kind, ps[1..], r1, o1);
      AppendDistinct(out, o1, o2, rem, r1, r2);
      (r2, o2)
    else
      VisitAll(m, kind, ps[1..], rem, out)
  }

  /** Two consecutive visits, each appending exactly the keys it took, append
      together exactly the keys taken by both, each once. */
  lemma AppendDistinct(out: seq<string>, o1: seq<string>, o2: seq<string>, rem: set<string>, r1: set<string>, r2: set<string>)
    requires |out| <= |o1| <= |o2| && o1[..|out|] == out && o2[..|o1|] == o1
    requires r2 <= r1 <= rem
    requires NoDup(o1[|out|..]) && NoDup(o2[|o1|..])
    requires forall x :: x in o1[|out|..] <==> x in rem && x !in r1
    requires forall x :: x in o2[|o1|..] <==> x in r1 && x !in r2
    ensures NoDup(o2[|out|..])
    ensures forall x :: x in o2[|out|..] <==> x in rem && x !in r2
  {
    var a, b := o1[|out|..], o2[|o1|..];
    assert o2[|out|..] == a + b by {
      assert o2 == o1 + b;
    }
    forall i, j | 0 <= i < j < |a + b|
      ensures (a + b)[i] != (a + b)[j]
    {
      if j >= |a| && i < |a| {
        assert a[i] in a && b[j - |a|] in b;
      }
    }
  }

  /** After visiting `k`, with the keys on the current descent path (taken
      from the remaining set but not yet emitted) all ranked above `k`, the
      output still lists every present dependency before its dependent. */
  lemma {:induction false} VisitOrdered(m: ItemMap, kind: Kind, k: string, rem: set<string>, out: seq<string>, rank: map<string, nat>)
    requires k in rem && rem <= m.Keys
    requires RankedBy(m, kind, rank)
    requires DependenciesFirst(m, kind, out)
    requires forall g :: g in m && g !in rem && g !in out ==> rank[g] > rank[k]
    ensures DependenciesFirst(m, kind, Visit(m, kind, k, rem, out).1)
    decreases rem, 0
  {
    var deps := Dependencies(kind, m[k]);
    VisitAllOrdered(m, kind, deps, rem - {k}, out, rank, rank[k]);
    var (r1, o1) := VisitAll(m, kind, deps, rem - {k}, out);
    AppendReady(m, kind, o1, k);
  }

  /** Visiting the keys `ps`, all ranked below `bound` while every key on
      the descent path is ranked at least `bound`, keeps the output ordered
      and leaves every present key of `ps` in it. */
  lemma {:induction false} VisitAllOrdered(m: ItemMap, kind: Kind, ps: seq<string>, rem: set<string>, out: seq<string>, rank: map<string, nat>, bound: nat)
    requires rem <= m.Keys
    requires RankedBy(m, kind, rank)
    requires DependenciesFirst(m, kind, out)
    requires forall p :: p in ps && p in m ==> rank[p] < bound
    requires forall g :: g in m && g !in rem && g !in out ==> rank[g] >= bound
    ensures DependenciesFirst(m, kind, VisitAll(m, kind, ps, rem, out).1)
    ensures forall p :: p in ps && p in m ==> p in VisitAll(m, kind, ps, rem, out).1
    decreases rem, 1, |ps|
  {
    if ps == [] {
    } else if ps[0] in rem {
      VisitOrdered(m, kind, ps[0], rem, out, rank);
      var (r1, o1) := Visit(m, kind, ps[0], rem, out);
      forall g | g in m && g !in r1 && g !in o1
        ensures rank[g] >= bound
      {
        assert g !in o1[|out|..];
        assert g !in out by { assert out == o1[..|out|]; }
      }
      VisitAllOrdered(m, kind, ps[1..], r1, o1, rank, bound);
      var (r2, o2) := VisitAll(m, kind, ps[1..], r1, o1);
      assert ps[0] in o1 by { assert ps[0] in o1[|out|..]; }
      ExtensionKeeps(o1, o2);
      forall p | p in ps && p in m
        ensures p in o2
      {
        if p != ps[0] { assert p in ps[1..]; }
      }
    } else {
      VisitAllOrdered(m, kind, ps[1..], rem, out, rank, bound);
      var (r2, o2) := VisitAll(m, kind, ps[1..], rem, out);
      ExtensionKeeps(out, o2);
      forall p | p in ps && p in m
        ensures p in o2
      {
        if p != ps[0] { assert p in ps[1..]; }
      }
    }
  }

  /** Appending a key whose present dependencies are all listed keeps the
      list ordered. */
  lemma AppendReady(m: ItemMap, kind: Kind, s: seq<string>, k: string)
    requires DependenciesFirst(m, kind, s)
    requires k in m ==> forall p :: p in Dependencies(kind, m[k]) && p in m ==> p in s
    ensures DependenciesFirst(m, kind, s + [k])
  {
    var t := s + [k];
    forall j, p | 0 <= j < |t| && t[j] in m && p in Dependencies(kind, m[t[j]]) && p in m
      ensures p in t[..j]
    {
      if j < |s| {
        assert t[..j] == s[..j];
      } else {
        assert t[..j] == s;
      }
    }
  }

  /** A list extended at its end still contains what it contained. */
  lemma ExtensionKeeps(s: seq<string>, t: seq<string>)
    requires |s| <= |t| && t[..|s|] == s
    ensures forall x :: x in s ==> x in t
  {
    forall x | x in s
      ensures x in t
    {
      var i :| 0 <= i < |s| && s[i] == x;
      assert t[i] == x;
    }
  }

  /** A list without duplicates has as many elements as its set. */
  lemma {:induction false} DistinctCardinality(s: seq<string>)
    requires NoDup(s)
    ensures |set x | x in s| == |s|
  {
    if s != [] {
      var t := s[1..];
      assert NoDup(t) by {
        forall i, j | 0 <= i < j < |t| ensures t[i] != t[j] {
          assert t[i] == s[i + 1] && t[j] == s[j + 1];
        }
      }
      DistinctCardinality(t);
      assert s[0] !in t by {
        forall i | 0 <= i < |t| ensures t[i] != s[0] { assert t[i] == s[i + 1]; }
      }
      assert (set x | x in s) == (set x | x in t) + {s[0]} by {
        assert s == [s[0]] + t;
      }
    }
  }

  /** The first position of an item with the given key, or -1. */
  function IndexOf(s: seq<Item>, key: string): (i: int)
    ensures -1 <= i < |s|
    ensures 0 <= i ==> s[i].key == key && forall j :: 0 <= j < i ==> s[j].key != key
    ensures i == -1 ==> forall j :: 0 <= j < |s| ==> s[j].key != key
  {
    if s == [] then -1
    else if s[0].key == key then 0
    else
      var r := IndexOf(s[1..], key);
      if r == -1 then -1 else r + 1
  }

  /** The order check a backend's caller can apply: no prerequisite of an
      input item is listed after that item. A prerequisite that is absent
      from the list has position -1 and so never violates it. */
  ghost predicate PrerequisitesListedFirst(m: ItemMap, flags: seq<Item>) {
    forall k, p :: k in m && p in m[k].prerequisites ==> IndexOf(flags, p) <= IndexOf(flags, m[k].key)
  }

  /** The list holds every item of the map exactly once, and nothing else. */
  ghost predicate Enumerates(items: seq<Item>, m: ItemMap) {
    && |items| == |m|
    && (forall i :: 0 <= i < |items| ==> items[i].key in m && m[items[i].key] == items[i])
    && (forall k :: k in m ==> m[k] in items)
    && (forall i, j :: 0 <= i < j < |items| ==> items[i].key != items[j].key)
  }

  /** Orders the items of one kind. The unvisited item to start from at each
      round is chosen freely, as a hash map's iteration order would. */
  method SortCollection(kind: Kind, m: ItemMap) returns (items: seq<Item>)
    requires WellKeyed(m)
    ensures Enumerates(items, m)
    ensures kind == Features && Acyclic(m, kind) ==> PrerequisitesListedFirst(m, items)
  {
    var rem := m.Keys;
    var keys: seq<string> := [];
    ghost var acyclic := Acyclic(m, kind);
    ghost var rank: map<string, nat> := map[];
    if acyclic {
      rank :| RankedBy(m, kind, rank);
    }
    while rem != {}
      invariant rem <= m.Keys
      invariant NoDup(keys)
      invariant forall x :: x in keys <==> x in m && x !in rem
      invariant acyclic ==> RankedBy(m, kind, rank) && DependenciesFirst(m, kind, keys)
      decreases rem
    {
      var k :| k in rem;
      if acyclic {
        VisitOrdered(m, kind, k, rem, keys, rank);
      }
      var res := Visit(m, kind, k, rem, keys);
      VisitKeepsDistinct(keys, res.1, rem, res.0);
      rem, keys := res.0, res.1;
    }
    items := seq(|keys|, i requires 0 <= i < |keys| => m[keys[i]]);
    KeysEnumerate(m, keys, items);
    if kind == Features && acyclic {
      OrderIsChecked(m, keys, items);
    }
  }

  /** A top-level visit appends only keys not yet listed, each once. */
  lemma VisitKeepsDistinct(keys: seq<string>, next: seq<string>, rem: set<string>, rem': set<string>)
    requires NoDup(keys) && forall x :: x in keys ==> x !in rem
    requires |keys| <= |next| && next[..|keys|] == keys
    requires NoDup(next[|keys|..])
    requires forall x :: x in next[|keys|..] ==> x in rem
    ensures NoDup(next)
    ensures forall x :: x in next <==> x in keys || x in next[|keys|..]
  {
    var added := next[|keys|..];
    assert next == keys + added;
    forall i, j | 0 <= i < j < |next|
      ensures next[i] != next[j]
    {
      if i < |keys| && j >= |keys| {
        assert next[j] in added;
        assert next[i] in keys;
      }
    }
  }

  /** Listing the items of a duplicate-free list of all keys enumerates the
      map. */
  lemma KeysEnumerate(m: ItemMap, keys: seq<string>, items: seq<Item>)
    requires WellKeyed(m) && NoDup(keys)
    requires forall x :: x in keys <==> x in m
    requires |items| == |keys| && forall i :: 0 <= i < |keys| ==> items[i] == m[keys[i]]
    ensures Enumerates(items, m)
  {
    assert (set x | x in keys) == m.Keys;
    DistinctCardinality(keys);
    assert |m| == |m.Keys|;
    forall k | k in m
      ensures m[k] in items
    {
      var i :| 0 <= i < |keys| && keys[i] == k;
      assert items[i] == m[k];
    }
    forall i, j | 0 <= i < j < |items|
      ensures items[i].key != items[j].key
    {
      assert items[i].key == keys[i] && items[j].key == keys[j];
    }
  }

  /** An ordered, duplicate-free list of all keys of a well-keyed flag map
      passes the position check on the items it lists. */
  lemma OrderIsChecked(m: ItemMap, keys: seq<string>, items: seq<Item>)
    requires WellKeyed(m) && NoDup(keys)
    requires forall x :: x in keys <==> x in m
    requires DependenciesFirst(m, Features, keys)
    requires |items| == |keys| && forall i :: 0 <= i < |keys| ==> items[i] == m[keys[i]]
    ensures PrerequisitesListedFirst(m, items)
  {
    assert forall i :: 0 <= i < |items| ==> items[i].key == keys[i];
    forall k, p | k in m && p in m[k].prerequisites
      ensures IndexOf(items, p) <= IndexOf(items, m[k].key)
    {
      var j :| 0 <= j < |keys| && keys[j] == k;
      var jk := IndexOf(items, k);
      assert jk >= 0 by { assert items[j].key == k; }
      assert keys[jk] == k;
      assert jk == j;
      if p in m {
        assert p in keys[..j];
        var i :| 0 <= i < j && keys[i] == p;
        assert items[i].key == p;
        assert IndexOf(items, p) <= i;
      } else {
        forall i | 0 <= i < |items|
          ensures items[i].key != p
        {
          assert keys[i] in m;
        }
      }
    }
  }

  /** The kinds of the dataset, in priority order. */
  function KindsByPriority(allData: Dataset): (kinds: seq<Kind>)
    ensures forall i, j :: 0 <= i < j < |kinds| ==> Priority(kinds[i]) < Priority(kinds[j])
    ensures Segments in kinds <==> Segments in allData
    ensures Features in kinds <==> Features in allData
  {
    if Segments in allData && Features in allData then [Segments, Features]
    else if Segments in allData then [Segments]
    else if Features in allData then [Features]
    else []
  }

  /** A collection holds a kind of the dataset with each of its items
      exactly once, and, for acyclic flags, every present prerequisite
      before its dependent. */
  ghost predicate CollectionFor(allData: Dataset, c: StoreCollection) {
    && c.kind in allData
    && Enumerates(c.items, allData[c.kind])
    && (c.kind == Features && Acyclic(allData[Features], Features) ==> PrerequisitesListedFirst(allData[Features], c.items))
  }

  /** What a non-atomic backend must receive for a dataset: one collection
      per kind of the dataset, kinds in strictly increasing priority, and
      each collection as described by CollectionFor. */
  ghost predicate OrderedFor(allData: Dataset, colls: seq<StoreCollection>) {
    && (forall kind :: kind in allData <==> exists i :: 0 <= i < |colls| && colls[i].kind == kind)
    && (forall i, j :: 0 <= i < j < |colls| ==> Priority(colls[i].kind) < Priority(colls[j].kind))
    && (forall i :: 0 <= i < |colls| ==> CollectionFor(allData, colls[i]))
  }

  /** Turns an unordered dataset into the ordered collections a non-atomic
      backend consumes. */
  method OrderCollections(allData: Dataset) returns (colls: seq<StoreCollection>)
    requires forall kind :: kind in allData ==> WellKeyed(allData[kind])
    ensures OrderedFor(allData, colls)
  {
    var kinds := KindsByPriority(allData);
    colls := [];
    for n := 0 to |kinds|
      invariant |colls| == n
      invariant forall i :: 0 <= i < n ==> colls[i].kind == kinds[i]
      invariant forall i :: 0 <= i < n ==> CollectionFor(allData, colls[i])
    {
      var items := SortCollection(kinds[n], allData[kinds[n]]);
      colls := colls + [StoreCollection(kinds[n], items)];
    }
    forall kind | kind in allData
      ensures exists i :: 0 <= i < |colls| && colls[i].kind == kind
    {
      assert kind in kinds by {
        match kind
        case Segments =>
        case Features =>
      }
      var i :| 0 <= i < |kinds| && kinds[i] == kind;
      assert colls[i].kind == kind;
    }
  }

  /** A dataset with both kinds yields exactly two collections, segments
      first and flags second. */
  lemma {:induction false} SegmentsThenFlags(allData: Dataset, colls: seq<StoreCollection>)
    requires OrderedFor(allData, colls)
    requires Segments in allData && Features in allData
    ensures |colls| == 2 && colls[0].kind == Segments && colls[1].kind == Features
  {
    var i :| 0 <= i < |colls| && colls[i].kind == Segments;
    var j :| 0 <= j < |colls| && colls[j].kind == Features;
    assert i != j;
    // every collection after the first outranks it, so it is a flag collection
    forall k | 0 < k < |colls|
      ensures colls[k].kind == Features
    {
      assert Priority(colls[0].kind) < Priority(colls[k].kind);
    }
    var ps := seq(|colls|, k requires 0 <= k < |colls| => Priority(colls[k].kind));
    IncreasingIsShort(ps, 1);
  }

  /** A strictly increasing sequence of values in 0..b has at most b + 1
      elements. */
  lemma {:induction false} IncreasingIsShort(s: seq<int>, b: int)
    requires b >= -1
    requires forall i :: 0 <= i < |s| ==> 0 <= s[i] <= b
    requires forall i, j :: 0 <= i < j < |s| ==> s[i] < s[j]
    ensures |s| <= b + 1
    decreases |s|
  {
    if |s| > 0 {
      var p := s[..|s| - 1];
      assert forall i :: 0 <= i < |p| ==> p[i] == s[i] && s[i] < s[|s| - 1];
      IncreasingIsShort(p, b - 1);
    }
  }
}
