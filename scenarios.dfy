/** The wrapper's behaviour on the concrete runs of its test suite, each
    stated as what a caller observes. Time is counted in milliseconds from
    the wrapper's creation. */
module Scenarios {
  import opened Items
  import Core
  import Wrapper
  import NonAtomic
  import Ordering

  /** The time-to-live of the cached test configuration: 30 seconds. */
  const CacheTime: nat := 30000

  function Flag(key: string, version: int): Item {
    Item(key, version, false, [])
  }

  function TtlFor(cached: bool): nat {
    if cached then CacheTime else 0
  }

  /** A second Get returns the cached item when caching is on, and the
      backend's newer item when it is off. */
  method GetTwice(cached: bool) returns (first: Option<Item>, second: Option<Item>)
    ensures first == Some(Flag("flag", 1))
    ensures second == Some(if cached then Flag("flag", 1) else Flag("flag", 2))
  {
    var core := new Core.MockCore(TtlFor(cached));
    var w := new Wrapper.FeatureStoreWrapper(core);
    core.ForceSet(Features, Flag("flag", 1));
    first := w.Get(Features, "flag", 0);
    core.ForceSet(Features, Flag("flag", 2));
    second := w.Get(Features, "flag", 0);
  }

  /** A deleted item reads as absent; with caching on that answer is reused
      after the backend gets a live item. */
  method GetDeletedItem(cached: bool) returns (first: Option<Item>, second: Option<Item>)
    ensures first == None
    ensures second == if cached then None else Some(Flag("flag", 2))
  {
    var core := new Core.MockCore(TtlFor(cached));
    var w := new Wrapper.FeatureStoreWrapper(core);
    core.ForceSet(Features, Item("flag", 1, true, []));
    first := w.Get(Features, "flag", 0);
    core.ForceSet(Features, Flag("flag", 2));
    second := w.Get(Features, "flag", 0);
  }

  /** A missing item reads as absent; with caching on the absent answer is
      retained. */
  method GetMissingItem(cached: bool) returns (first: Option<Item>, second: Option<Item>)
    ensures first == None
    ensures second == if cached then None else Some(Flag("flag", 1))
  {
    var core := new Core.MockCore(TtlFor(cached));
    var w := new Wrapper.FeatureStoreWrapper(core);
    first := w.Get(Features, "flag", 0);
    core.ForceSet(Features, Flag("flag", 1));
    second := w.Get(Features, "flag", 0);
  }

  /** The run that reads back the dataset of Init as written: the write past
      the wrapper repeats the value already installed, so the read-back holds
      with caching off just as with caching on. */
  method GetAfterInitAsWritten(cached: bool) returns (installed: Dataset, item: Option<Item>)
    ensures installed == map[Features := map["flag" := Flag("flag", 1)]]
    ensures item == Some(Flag("flag", 1))
  {
    var core := new Core.MockCore(TtlFor(cached));
    var w := new Wrapper.FeatureStoreWrapper(core);
    var allData := map[Features := map["flag" := Flag("flag", 1)]];
    w.Init(allData, 0);
    installed := core.data;
    if cached {
      Wrapper.InitIsReadBack(allData, map[Features := map["flag" := Flag("flag", 1)]], Features, "flag", 0, 0, CacheTime);
    }
    core.ForceSet(Features, Flag("flag", 1));
    item := w.Get(Features, "flag", 0);
  }

  /** Init installs the dataset in the backend; after a newer write past
      the wrapper, a cached Get still answers from the dataset of Init while
      an uncached one sees the write. */
  method GetAfterInit(cached: bool) returns (installed: Dataset, item: Option<Item>)
    ensures installed == map[Features := map["flag" := Flag("flag", 1)]]
    ensures item == Some(if cached then Flag("flag", 1) else Flag("flag", 2))
  {
    var core := new Core.MockCore(TtlFor(cached));
    var w := new Wrapper.FeatureStoreWrapper(core);
    var allData := map[Features := map["flag" := Flag("flag", 1)]];
    w.Init(allData, 0);
    installed := core.data;
    if cached {
      Wrapper.InitIsReadBack(allData, map[Features := map["flag" := Flag("flag", 2)]], Features, "flag", 0, 0, CacheTime);
    }
    core.ForceSet(Features, Flag("flag", 2));
    item := w.Get(Features, "flag", 0);
  }

  /** All sees a removal past the wrapper only when caching is off. */
  method AllTwice(cached: bool) returns (first: ItemMap, second: ItemMap)
    ensures |first| == 2
    ensures |second| == if cached then 2 else 1
  {
    var core := new Core.MockCore(TtlFor(cached));
    var w := new Wrapper.FeatureStoreWrapper(core);
    core.ForceSet(Features, Flag("flag1", 1));
    core.ForceSet(Features, Flag("flag2", 1));
    first := w.All(Features, 0);
    assert first == map["flag1" := Flag("flag1", 1), "flag2" := Flag("flag2", 1)];
    core.ForceRemove(Features, "flag2");
    second := w.All(Features, 0);
    if !cached {
      assert second == map["flag1" := Flag("flag1", 1)];
    }
  }

  /** A cached All answers from the dataset of Init after a removal past
      the wrapper. */
  method CachedAllUsesInit() returns (installed: Dataset, items: ItemMap)
    ensures installed == map[Features := map["flag1" := Flag("flag1", 1), "flag2" := Flag("flag2", 1)]]
    ensures |items| == 2
  {
    var core := new Core.MockCore(CacheTime);
    var w := new Wrapper.FeatureStoreWrapper(core);
    var allData := map[Features := map["flag1" := Flag("flag1", 1), "flag2" := Flag("flag2", 1)]];
    w.Init(allData, 0);
    installed := core.data;
    core.ForceRemove(Features, "flag2");
    Wrapper.InitIsReadBack(allData, core.data, Features, "flag1", 0, 0, CacheTime);
    items := w.All(Features, 0);
    assert items == allData[Features];
  }

  /** An upsert through the wrapper flushes the kind's snapshot, so All then
      also sees a write past the wrapper to another key. */
  method CachedAllAfterUpsert() returns (installed: Dataset, outcome: Outcome, items: ItemMap)
    ensures installed == map[Features := map["flag1" := Flag("flag1", 1), "flag2" := Flag("flag2", 1)]]
    ensures outcome == Ok
    ensures "flag2" in items && items["flag2"].version == 2
  {
    var core := new Core.MockCore(CacheTime);
    var w := new Wrapper.FeatureStoreWrapper(core);
    var allData := map[Features := map["flag1" := Flag("flag1", 1), "flag2" := Flag("flag2", 1)]];
    w.Init(allData, 0);
    installed := core.data;
    outcome := w.Upsert(Features, Flag("flag1", 2), 0);
    core.ForceSet(Features, Flag("flag2", 2));
    items := w.All(Features, 0);
  }

  /** Two accepted upserts reach the backend, and Get returns the second
      one; with caching on, also after a write past the wrapper. */
  method UpsertSuccessful(cached: bool) returns (o1: Outcome, afterFirst: Option<Item>, o2: Outcome, afterSecond: Option<Item>, item: Option<Item>)
    ensures o1 == Ok && o2 == Ok
    ensures afterFirst == Some(Flag("flag", 1))
    ensures afterSecond == Some(Flag("flag", 2))
    ensures item == Some(Flag("flag", 2))
  {
    var core := new Core.MockCore(TtlFor(cached));
    var w := new Wrapper.FeatureStoreWrapper(core);
    o1 := w.Upsert(Features, Flag("flag", 1), 0);
    afterFirst := Lookup(core.data, Features, "flag");
    o2 := w.Upsert(Features, Flag("flag", 2), 0);
    afterSecond := Lookup(core.data, Features, "flag");
    if cached {
      core.ForceSet(Features, Flag("flag", 3));
    }
    item := w.Get(Features, "flag", 0);
  }

  /** A lower-version upsert is rejected: the backend keeps version 2 and
      the cache is refreshed with it. */
  method CachedUpsertUnsuccessful() returns (o1: Outcome, afterFirst: Option<Item>, o2: Outcome, afterSecond: Option<Item>, item: Option<Item>)
    ensures o1 == Ok && o2 == Ok
    ensures afterFirst == Some(Flag("flag", 2))
    ensures afterSecond == Some(Flag("flag", 2))
    ensures item == Some(Flag("flag", 2))
  {
    var core := new Core.MockCore(CacheTime);
    var w := new Wrapper.FeatureStoreWrapper(core);
    o1 := w.Upsert(Features, Flag("flag", 2), 0);
    afterFirst := Lookup(core.data, Features, "flag");
    o2 := w.Upsert(Features, Flag("flag", 1), 0);
    afterSecond := Lookup(core.data, Features, "flag");
    core.ForceSet(Features, Flag("flag", 3));
    item := w.Get(Features, "flag", 0);
  }

  /** Delete stores a tombstone; with caching on a later Get stays absent
      after a write past the wrapper, without caching it sees that write. */
  method DeleteThenGet(cached: bool) returns (before: Option<Item>, outcome: Outcome, stored: Option<Item>, after: Option<Item>)
    ensures before == Some(Flag("flag1", 1))
    ensures outcome == Ok
    ensures stored == Some(MakeDeletedItem("flag1", 2))
    ensures after == if cached then None else Some(Flag("flag1", 3))
  {
    var core := new Core.MockCore(TtlFor(cached));
    var w := new Wrapper.FeatureStoreWrapper(core);
    core.ForceSet(Features, Flag("flag1", 1));
    before := w.Get(Features, "flag1", 0);
    outcome := w.Delete(Features, "flag1", 2, 0);
    stored := Lookup(core.data, Features, "flag1");
    core.ForceSet(Features, Flag("flag1", 3));
    after := w.Get(Features, "flag1", 0);
  }

  /** Initialized asks the backend until it answers true, then never again. */
  method InitializedQueriesUntilTrue() returns (r1: bool, n1: nat, r2: bool, n2: nat, r3: bool, n3: nat)
    ensures !r1 && n1 == 1
    ensures r2 && n2 == 2
    ensures r3 && n3 == 2
  {
    var core := new Core.MockCore(0);
    var w := new Wrapper.FeatureStoreWrapper(core);
    r1 := w.Initialized(0);
    n1 := core.initQueriedCount;
    core.inited := true;
    r2 := w.Initialized(0);
    n2 := core.initQueriedCount;
    core.inited := false;
    r3 := w.Initialized(0);
    n3 := core.initQueriedCount;
  }

  /** After a local Init, Initialized answers true without asking. */
  method InitializedAfterInit() returns (r1: bool, n1: nat, r2: bool, n2: nat)
    ensures !r1 && n1 == 1
    ensures r2 && n2 == 1
  {
    var core := new Core.MockCore(0);
    var w := new Wrapper.FeatureStoreWrapper(core);
    r1 := w.Initialized(0);
    n1 := core.initQueriedCount;
    w.Init(map[Features := map[]], 0);
    r2 := w.Initialized(0);
    n2 := core.initQueriedCount;
  }

  /** With a 500 ms time-to-live a "not initialized" answer is reused
      without asking; 600 ms later the backend is asked again. */
  method InitializedCachesFalse() returns (r1: bool, n1: nat, r2: bool, n2: nat, r3: bool, n3: nat)
    ensures !r1 && n1 == 1
    ensures !r2 && n2 == 1
    ensures r3 && n3 == 2
  {
    var core := new Core.MockCore(500);
    var w := new Wrapper.FeatureStoreWrapper(core);
    r1 := w.Initialized(0);
    n1 := core.initQueriedCount;
    core.inited := true;
    r2 := w.Initialized(0);
    n2 := core.initQueriedCount;
    r3 := w.Initialized(600);
    n3 := core.initQueriedCount;
  }

  function Prereq(key: string, prerequisites: seq<string>): Item {
    Item(key, 0, false, prerequisites)
  }

  /** The dataset of the ordering test: flags a -> [b, c], b -> [c, e],
      c, d, e, f and one segment. */
  function OrderingTestData(): Dataset {
    map[
      Features := map[
        "a" := Prereq("a", ["b", "c"]),
        "b" := Prereq("b", ["c", "e"]),
        "c" := Prereq("c", []),
        "d" := Prereq("d", []),
        "e" := Prereq("e", []),
        "f" := Prereq("f", [])],
      Segments := map["1" := Prereq("1", [])]]
  }

  /** The test flags have no prerequisite cycle. */
  lemma OrderingTestDataIsAcyclic()
    ensures Ordering.Acyclic(OrderingTestData()[Features], Features)
  {
    var m := OrderingTestData()[Features];
    var rank := map["a" := 2, "b" := 1, "c" := 0, "d" := 0, "e" := 0, "f" := 0];
    assert Ordering.RankedBy(m, Features, rank);
  }

  /** Non-atomic Init hands the backend two collections, segments first,
      each with all input items, and no flag listed before one of its
      prerequisites. */
  method NonAtomicInitIsOrdered() returns (received: seq<StoreCollection>)
    ensures |received| == 2
    ensures received[0].kind == Segments && |received[0].items| == |OrderingTestData()[Segments]|
    ensures received[1].kind == Features && |received[1].items| == |OrderingTestData()[Features]|
    ensures Ordering.PrerequisitesListedFirst(OrderingTestData()[Features], received[1].items)
  {
    var core := new Core.MockNonAtomicCore();
    var w := new NonAtomic.NonAtomicFeatureStoreWrapper(core);
    var allData := OrderingTestData();
    w.Init(allData, 0);
    received := core.data;
    Ordering.SegmentsThenFlags(allData, received);
    OrderingTestDataIsAcyclic();
    assert Ordering.CollectionFor(allData, received[1]);
  }
}
