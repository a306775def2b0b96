/**
 CacheInvalidator (groove/proxy/cache/invalidator.go): a memory LRU stacked on a disk LRU,
 with an index of the disk LRU saved now and then.
 */
module Invalidator {
  import opened Prelude
  import opened RecencyList
  import opened LruCache

  // Both tiers freshest first, the operations since the last save was ordered, the saves ordered
  // but not run yet, and the index file if there is one.
  datatype Tiers = Tiers(
    memory: seq<Item>,
    disk: seq<Item>,
    operationCounter: int,
    pendingSaves: nat,
    index: Option<seq<CacheMetadata>>)

  datatype Config = Config(memoryMax: int, diskMax: int, saveInterval: int)

  datatype Answer = Found(value: Bytes) | NotFound | ReadFailed

  /** When a save runs: between two calls, or while a Set of key has dropped the key's old entry
      and left the given number of the other entries, its own not listed yet. */
  datatype View = Between | Amid(key: string, left: nat)

  /** A call together with what the outside world decides about it: whether the value could be
      encoded, whether the disk write succeeds, whether the disk read succeeds. SaveOp is the
      moment at which a goroutine started by an earlier call runs; one that runs in the middle of
      a call comes before that call, whose entries it does not see yet. */
  datatype Op =
    | SetOp(key: string, encoded: Option<Bytes>, writeOk: bool)
    | GetOp(key: string, readOk: bool)
    | HasOp(key: string)
    | DeleteOp(key: string)
    | ClearOp
    | SaveOp(view: View)

  function Empty(): Tiers {
    Tiers([], [], 0, 0, None)
  }

  // writeIndex up to the goroutine it starts.
  function OrderSave(t: Tiers, c: Config): Tiers {
    if t.operationCounter + 1 < c.saveInterval then t.(operationCounter := t.operationCounter + 1)
    else t.(operationCounter := 0, pendingSaves := t.pendingSaves + 1)
  }

  // The goroutine: an index file that already exists is opened read-only, so only a missing one is written.
  function AfterSave(t: Tiers, view: View): Tiers {
    if t.pendingSaves == 0 then t
    else t.(pendingSaves := t.pendingSaves - 1,
            index := if t.index.None? then Some(Metadata(Seen(t.disk, view))) else t.index)
  }

  // The entries a save finds listed.
  function Seen(disk: seq<Item>, view: View): seq<Item> {
    match view
    case Between => disk
    case Amid(key, left) =>
      var others := Without(disk, key);
      if left <= |others| then others[..left] else others
  }

  function AfterStore(t: Tiers, c: Config, key: string, value: Bytes, writeOk: bool): Tiers {
    OrderSave(t.(memory := AfterSet(t.memory, c.memoryMax, key, value, true),
                 disk := AfterSet(t.disk, c.diskMax, key, value, writeOk)), c)
  }

  function AfterLookup(t: Tiers, key: string): Tiers {
    t.(memory := AfterGet(t.memory, key), disk := AfterGet(t.disk, key))
  }

  function AfterRemoval(t: Tiers, c: Config, key: string): Tiers {
    OrderSave(t.(memory := Without(t.memory, key), disk := Without(t.disk, key)), c)
  }

  // Clearing erases the whole disk folder, the index file included.
  function AfterClear(t: Tiers): Tiers {
    t.(memory := [], disk := [], index := None)
  }

  function Step(t: Tiers, c: Config, op: Op): Tiers {
    match op
    case SetOp(key, encoded, writeOk) =>
      if encoded.None? then t else AfterStore(t, c, key, encoded.value, writeOk)
    case GetOp(key, _) => AfterLookup(t, key)
    case HasOp(_) => t
    case DeleteOp(key) => AfterRemoval(t, c, key)
    case ClearOp => AfterClear(t)
    case SaveOp(view) => AfterSave(t, view)
  }

  function RunFrom(start: Tiers, c: Config, ops: seq<Op>): Tiers {
    if ops == [] then start else Step(RunFrom(start, c, ops[..|ops| - 1]), c, ops[|ops| - 1])
  }

  function Run(c: Config, ops: seq<Op>): Tiers {
    RunFrom(Empty(), c, ops)
  }

  // The tiers after a restart over an index in step with the files.
  function Restarted(t: Tiers): Tiers {
    Tiers([], t.disk, 0, 0, t.index)
  }

  // The disk's copy wins when both tiers have one.
  function AnswerOf(t: Tiers, key: string, readOk: bool): Answer {
    match Find(t.disk, key)
    case Some(value) => if readOk then Found(value) else ReadFailed
    case None => match Find(t.memory, key) case Some(value) => Found(value) case None => NotFound
  }

  class CacheInvalidator {
    const memoryCache: LRUCache
    const diskCache: LRUCache
    const saveInterval: int
    var operationCounter: int
    var saveWaiter: nat
    var indexFile: Option<seq<CacheMetadata>>

    ghost predicate Valid()
      reads this, memoryCache, diskCache
    {
      memoryCache != diskCache && memoryCache.Valid() && diskCache.Valid()
    }

    ghost function State(): Tiers
      requires Valid()
      reads this, memoryCache, diskCache
    {
      Tiers(memoryCache.Contents(), diskCache.Contents(), operationCounter, saveWaiter, indexFile)
    }

    ghost function Settings(): Config {
      Config(memoryCache.maxSize, diskCache.maxSize, saveInterval)
    }

    // A first start: no index file and no files.
    constructor (memoryMax: int, diskMax: int, saveInterval: int)
      ensures Valid() && fresh(memoryCache) && fresh(diskCache)
      ensures State() == Empty() && Settings() == Config(memoryMax, diskMax, saveInterval)
    {
      memoryCache := new LRUCache(memoryMax);
      diskCache := new LRUCache(diskMax);
      this.saveInterval := saveInterval;
      operationCounter, saveWaiter, indexFile := 0, 0, None;
    }

    /** A restart: the memory tier is empty, and the disk tier has the index's list and byte total
        over whatever files there are. When index and files are as a disk tier holding items left
        them, that tier comes back as it was. */
    constructor Reopen(memoryMax: int, diskMax: int, saveInterval: int,
                       metadatas: seq<CacheMetadata>, files: map<string, Bytes>, ghost items: seq<Item>)
      ensures fresh(memoryCache) && fresh(diskCache) && memoryCache != diskCache
      ensures Settings() == Config(memoryMax, diskMax, saveInterval)
      ensures memoryCache.Valid() && memoryCache.Contents() == []
      ensures diskCache.backingCache == files && diskCache.currentSize == SumOfSizes(metadatas)
      ensures Values(diskCache.orderedCacheKeys) == metadatas &&
          diskCache.keyToElement == IndexOf(diskCache.orderedCacheKeys)
      ensures operationCounter == 0 && saveWaiter == 0 && indexFile == Some(metadatas)
      ensures DistinctKeys(items) && metadatas == Metadata(items) && files == Files(items) ==>
        Valid() && State() == Tiers([], items, 0, 0, Some(metadatas))
    {
      memoryCache := new LRUCache(memoryMax);
      diskCache := new LRUCache.FromIndex(diskMax, metadatas, files, items);
      this.saveInterval := saveInterval;
      operationCounter, saveWaiter, indexFile := 0, 0, Some(metadatas);
    }

    // One tier's part of Get: the tier is asked only if it has the key.
    static method LookIn(tier: LRUCache, key: string) returns (value: Option<Bytes>)
      requires tier.Valid()
      modifies tier
      ensures tier.Valid()
      ensures value == Find(old(tier.Contents()), key) && tier.Contents() == AfterGet(old(tier.Contents()), key)
    {
      FindIsMembership(tier.Contents(), key);
      value := None;
      var present := tier.Has(key);
      if present {
        value := tier.Get(key);
      }
    }

    method Get(key: string, readOk: bool) returns (answer: Answer)
      requires Valid()
      modifies memoryCache, diskCache
      ensures Valid()
      ensures State() == AfterLookup(old(State()), key)
      ensures answer == AnswerOf(old(State()), key, readOk)
    {
      var encodedValue := LookIn(memoryCache, key);
      var onDisk := LookIn(diskCache, key);
      if onDisk.Some? {
        if !readOk {
          return ReadFailed;
        }
        encodedValue := onDisk;
      }
      answer := match encodedValue case None => NotFound case Some(value) => Found(value);
    }

    method Set(key: string, encoded: Option<Bytes>, writeOk: bool) returns (failed: bool)
      requires Valid()
      modifies this, memoryCache, diskCache
      ensures Valid()
      ensures State() == Step(old(State()), Settings(), SetOp(key, encoded, writeOk))
      ensures failed <==> encoded.None?
    {
      if encoded.None? {
        return true;
      }
      var _ := memoryCache.Set(key, encoded.value, true);
      var _ := diskCache.Set(key, encoded.value, writeOk);
      WriteIndex();
      failed := false;
    }

    method Has(key: string) returns (present: bool)
      requires Valid()
      ensures present <==> HasKey(State().memory, key) || HasKey(State().disk, key)
    {
      present := memoryCache.Has(key);
      if !present {
        present := diskCache.Has(key);
      }
    }

    method Delete(key: string)
      requires Valid()
      modifies this, memoryCache, diskCache
      ensures Valid()
      ensures State() == AfterRemoval(old(State()), Settings(), key)
    {
      memoryCache.Delete(key);
      diskCache.Delete(key);
      WriteIndex();
    }

    method Clear()
      requires Valid()
      modifies this, memoryCache, diskCache
      ensures Valid()
      ensures State() == AfterClear(old(State()))
      ensures memoryCache.Contents() == [] && diskCache.Contents() == [] && indexFile == None
    {
      memoryCache.DeleteAll();
      diskCache.DeleteAll();
      indexFile := None;
    }

    method WriteIndex()
      requires Valid()
      modifies this
      ensures Valid()
      ensures State() == OrderSave(old(State()), Settings())
    {
      operationCounter := operationCounter + 1;
      if operationCounter < saveInterval {
        return;
      }
      operationCounter := 0;
      saveWaiter := saveWaiter + 1;
    }

    /** The goroutine WriteIndex starts, whenever it gets to run, in the middle of a call too: it
        takes the disk list front to back as it is then, and writes it only if there is no index
        file yet. */
    method SaveIndex()
      requires saveWaiter > 0
      modifies this`indexFile, this`saveWaiter
      ensures indexFile == if old(indexFile).None? then Some(Values(diskCache.orderedCacheKeys)) else old(indexFile)
      ensures saveWaiter == old(saveWaiter) - 1
      ensures old(Valid()) ==> Valid() && State() == AfterSave(old(State()), Between)
    {
      var existing := indexFile.Some?;
      var metadata: seq<CacheMetadata> := [];
      ghost var list := diskCache.orderedCacheKeys;
      for i := 0 to |diskCache.orderedCacheKeys|
        invariant metadata == Values(list)[..i]
      {
        metadata := metadata + [diskCache.orderedCacheKeys[i].value];
      }
      assert Values(list)[..|list|] == Values(list);
      if !existing {
        indexFile := Some(metadata);
      }
      saveWaiter := saveWaiter - 1;
      if Valid() {
        ListMetadata(list, diskCache.keyToElement, diskCache.backingCache);
        assert Values(list) == Metadata(diskCache.Contents());
      }
    }
  }

  lemma SeenIsDistinct(disk: seq<Item>, view: View)
    requires DistinctKeys(disk)
    ensures DistinctKeys(Seen(disk, view))
  {
    match view {
      case Between =>
      case Amid(key, left) => WithoutDistinct(disk, key);
    }
  }

  /** At every moment of a Set between the dropping of the key's entry and its publication, what
      is listed is a view of this kind: the other entries down to those the Set keeps. */
  lemma SetShowsViews(disk: seq<Item>, maxSize: int, key: string, size: nat)
    requires DistinctKeys(disk)
    ensures Without(disk, key) == Seen(disk, Amid(key, |Without(disk, key)|))
    ensures Kept(disk, maxSize, key, size) == Seen(disk, Amid(key, |Kept(disk, maxSize, key, size)|))
    ensures forall n :: 0 < n <= |Without(disk, key)| ==>
      Without(Seen(disk, Amid(key, n)), Seen(disk, Amid(key, n))[n - 1].key) == Seen(disk, Amid(key, n - 1))
  {
    var others := Without(disk, key);
    KeptFacts(disk, maxSize, key, size);
    WithoutDistinct(disk, key);
    forall n | 0 < n <= |others|
      ensures Without(others[..n], others[..n][n - 1].key) == others[..n - 1]
    {
      EvictedPrefix(others, n);
    }
  }

  lemma EvictedPrefix(others: seq<Item>, n: nat)
    requires DistinctKeys(others) && 0 < n <= |others|
    ensures Without(others[..n], others[..n][n - 1].key) == others[..n - 1]
  {
    WithoutAt(others[..n], n - 1);
    assert DropAt(others[..n], n - 1) == others[..n - 1];
  }
}
