/**
 LRUCache (groove/proxy/cache/lru.go) run by one caller at a time: a recency list of
 metadata elements, a key-to-element map, a byte counter and a backing store, kept in
 step. Every method is proved against the operations of RecencyList.
 */
module LruCache {
  import opened Prelude
  import opened RecencyList

  datatype CacheMetadata = CacheMetadata(key: string, size: int)

  // An element of the recency list; elements are told apart by identity, not by content.
  class ListElement {
    const value: CacheMetadata

    constructor (value: CacheMetadata)
      ensures this.value == value
    {
      this.value := value;
    }
  }

  // The list without the element e; the same list when e is not in it.
  function RemoveElement(list: seq<ListElement>, e: ListElement): seq<ListElement> {
    if list == [] then [] else if list[0] == e then list[1..] else [list[0]] + RemoveElement(list[1..], e)
  }

  function MoveToFront(list: seq<ListElement>, e: ListElement): seq<ListElement> {
    if e in list then [e] + RemoveElement(list, e) else list
  }

  // List, map and store describe the same keys, each once, and each element records its value's size.
  ghost predicate InStep(list: seq<ListElement>, index: map<string, ListElement>, store: map<string, Bytes>) {
    if list == [] then
      index == map[] && store == map[]
    else
      var key := list[0].value.key;
      && key in index && index[key] == list[0]
      && key in store && |store[key]| == list[0].value.size
      && InStep(list[1..], index - {key}, store - {key})
  }

  // The entries that list and store describe.
  ghost function ItemsOf(list: seq<ListElement>, store: map<string, Bytes>): seq<Item> {
    if list == [] then [] else
      var key := list[0].value.key;
      [Item(key, if key in store then store[key] else [])] + ItemsOf(list[1..], store - {key})
  }

  lemma {:induction false} SameKeys(list: seq<ListElement>, index: map<string, ListElement>, store: map<string, Bytes>,
                                    key: string)
    requires InStep(list, index, store)
    ensures key in index <==> key in store
    ensures key in index ==> index[key].value.key == key && index[key] in list
  {
    if list != [] {
      var head := list[0].value.key;
      SameKeys(list[1..], index - {head}, store - {head}, key);
    }
  }

  lemma {:induction false} ItemsAreTheStore(list: seq<ListElement>, index: map<string, ListElement>,
                                            store: map<string, Bytes>, key: string)
    requires InStep(list, index, store)
    ensures Find(ItemsOf(list, store), key) == if key in store then Some(store[key]) else None
    ensures HasKey(ItemsOf(list, store), key) <==> key in store
  {
    if list != [] {
      var head := list[0].value.key;
      ItemsAreTheStore(list[1..], index - {head}, store - {head}, key);
    }
    FindIsMembership(ItemsOf(list, store), key);
  }

  lemma {:induction false} ContentsAreDistinct(list: seq<ListElement>, index: map<string, ListElement>,
                                               store: map<string, Bytes>)
    requires InStep(list, index, store)
    ensures DistinctKeys(ItemsOf(list, store))
  {
    if list != [] {
      var head := list[0].value.key;
      var rest := ItemsOf(list[1..], store - {head});
      ContentsAreDistinct(list[1..], index - {head}, store - {head});
      ItemsAreTheStore(list[1..], index - {head}, store - {head}, head);
      assert forall i :: 0 <= i < |rest| ==> rest[i].key != head;
    }
  }

  lemma {:induction false} LastItem(list: seq<ListElement>, store: map<string, Bytes>)
    ensures |ItemsOf(list, store)| == |list|
    ensures list != [] ==> ItemsOf(list, store)[|list| - 1].key == list[|list| - 1].value.key
  {
    if list != [] {
      LastItem(list[1..], store - {list[0].value.key});
    }
  }

  // Unlinking key's element and erasing its value takes exactly that entry away.
  lemma {:induction false} UnlinkAndErase(list: seq<ListElement>, index: map<string, ListElement>,
                                          store: map<string, Bytes>, key: string)
    requires InStep(list, index, store) && key in index
    ensures InStep(RemoveElement(list, index[key]), index - {key}, store - {key})
    ensures ItemsOf(RemoveElement(list, index[key]), store - {key}) == Without(ItemsOf(list, store), key)
    ensures Total(ItemsOf(list, store)) == Total(Without(ItemsOf(list, store), key)) + index[key].value.size
  {
    SameKeys(list, index, store, key);
    var head := list[0].value.key;
    if head == key {
      ItemsAreTheStore(list[1..], index - {head}, store - {head}, key);
      WithoutAbsent(ItemsOf(list[1..], store - {head}), key);
    } else {
      UnlinkAndErase(list[1..], index - {head}, store - {head}, key);
      assert index - {head} - {key} == index - {key} - {head};
      assert store - {head} - {key} == store - {key} - {head};
    }
  }

  // Moving key's element to the front makes its entry the freshest and changes nothing else.
  lemma Touch(list: seq<ListElement>, index: map<string, ListElement>, store: map<string, Bytes>, key: string)
    requires InStep(list, index, store) && key in index
    ensures InStep(MoveToFront(list, index[key]), index, store)
    ensures ItemsOf(MoveToFront(list, index[key]), store) == AfterGet(ItemsOf(list, store), key)
    ensures Total(ItemsOf(MoveToFront(list, index[key]), store)) == Total(ItemsOf(list, store))
  {
    SameKeys(list, index, store, key);
    UnlinkAndErase(list, index, store, key);
    ItemsAreTheStore(list, index, store, key);
    var touched := MoveToFront(list, index[key]);
    assert touched[1..] == RemoveElement(list, index[key]);
    SizeMatches(list, index, store, key);
  }

  lemma {:induction false} SizeMatches(list: seq<ListElement>, index: map<string, ListElement>,
                                       store: map<string, Bytes>, key: string)
    requires InStep(list, index, store) && key in index && key in store
    ensures index[key].value.size == |store[key]|
  {
    var head := list[0].value.key;
    if head != key {
      SizeMatches(list[1..], index - {head}, store - {head}, key);
    }
  }

  // Storing a new key's value and pushing its element puts its entry in front.
  lemma Push(list: seq<ListElement>, index: map<string, ListElement>, store: map<string, Bytes>,
             element: ListElement, value: Bytes)
    requires InStep(list, index, store) && element.value.key !in store && element.value.size == |value|
    ensures InStep([element] + list, index[element.value.key := element], store[element.value.key := value])
    ensures ItemsOf([element] + list, store[element.value.key := value])
         == [Item(element.value.key, value)] + ItemsOf(list, store)
  {
    var key := element.value.key;
    SameKeys(list, index, store, key);
    assert ([element] + list)[1..] == list;
    assert index[key := element] - {key} == index;
    assert store[key := value] - {key} == store;
  }

  // The metadata of the entries, freshest first: what the index file records.
  function Metadata(items: seq<Item>): seq<CacheMetadata> {
    if items == [] then [] else
      [CacheMetadata(items[0].key, |items[0].value|)] + Metadata(items[1..])
  }

  // The files a store holding the entries has on disk.
  function Files(items: seq<Item>): map<string, Bytes> {
    if items == [] then map[] else Files(items[1..])[items[0].key := items[0].value]
  }

  function SumOfSizes(metadatas: seq<CacheMetadata>): int {
    if metadatas == [] then 0 else metadatas[0].size + SumOfSizes(metadatas[1..])
  }

  lemma {:induction false} FilesHaveTheKeys(items: seq<Item>, key: string)
    ensures key in Files(items) <==> HasKey(items, key)
    ensures DistinctKeys(items) && key in Files(items) ==> Find(items, key) == Some(Files(items)[key])
  {
    if items != [] {
      FilesHaveTheKeys(items[1..], key);
      FindIsMembership(items, key);
      FindIsMembership(items[1..], key);
    }
  }

  // The recorded metadata is the list's own, element by element.
  lemma {:induction false} ListMetadata(list: seq<ListElement>, index: map<string, ListElement>,
                                        store: map<string, Bytes>)
    requires InStep(list, index, store)
    ensures |Metadata(ItemsOf(list, store))| == |list|
    ensures forall i :: 0 <= i < |list| ==> Metadata(ItemsOf(list, store))[i] == list[i].value
  {
    if list != [] {
      var head := list[0].value.key;
      ListMetadata(list[1..], index - {head}, store - {head});
      forall i | 0 <= i < |list|
        ensures Metadata(ItemsOf(list, store))[i] == list[i].value
      {
        if i > 0 {
          assert list[i] == list[1..][i - 1];
        }
      }
    }
  }

  // Rebuilding proceeds from the freshest entry on; each new element goes to the back.
  lemma {:induction false} PushBack(list: seq<ListElement>, index: map<string, ListElement>, store: map<string, Bytes>,
                                    element: ListElement, value: Bytes)
    requires InStep(list, index, store) && element.value.key !in store && element.value.size == |value|
    ensures InStep(list + [element], index[element.value.key := element], store[element.value.key := value])
    ensures ItemsOf(list + [element], store[element.value.key := value])
         == ItemsOf(list, store) + [Item(element.value.key, value)]
  {
    var key := element.value.key;
    var longer := list + [element];
    if list == [] {
      assert longer[1..] == [];
      assert index[key := element] - {key} == index;
      assert store[key := value] - {key} == store;
    } else {
      var head := list[0].value.key;
      PushBack(list[1..], index - {head}, store - {head}, element, value);
      assert longer[1..] == list[1..] + [element];
      assert index[key := element] - {head} == (index - {head})[key := element];
      assert store[key := value] - {head} == (store - {head})[key := value];
    }
  }

  lemma {:induction false} MetadataAt(items: seq<Item>, i: nat)
    ensures |Metadata(items)| == |items|
    ensures i < |items| ==> Metadata(items)[i] == CacheMetadata(items[i].key, |items[i].value|)
  {
    if items != [] {
      MetadataAt(items[1..], if i == 0 then 0 else i - 1);
    }
  }

  lemma {:induction false} SumOfSizesIsTotal(items: seq<Item>)
    ensures SumOfSizes(Metadata(items)) == Total(items)
  {
    if items != [] {
      SumOfSizesIsTotal(items[1..]);
      assert Metadata(items)[1..] == Metadata(items[1..]);
    }
  }

  // The byte total readIndex reports.
  method TotalSize(metadatas: seq<CacheMetadata>) returns (totalSize: int)
    ensures totalSize == SumOfSizes(metadatas)
  {
    totalSize := 0;
    for i := 0 to |metadatas|
      invariant totalSize + SumOfSizes(metadatas[i..]) == SumOfSizes(metadatas)
    {
      totalSize := totalSize + metadatas[i].size;
    }
  }

  // A store is determined by the entries it gives its list.
  lemma RestoredStore(list: seq<ListElement>, index: map<string, ListElement>, store: map<string, Bytes>,
                      items: seq<Item>)
    requires InStep(list, index, store) && ItemsOf(list, store) == items && DistinctKeys(items)
    ensures store == Files(items)
  {
    forall key: string
      ensures key in store <==> key in Files(items)
      ensures key in store ==> store[key] == Files(items)[key]
    {
      ItemsAreTheStore(list, index, store, key);
      FilesHaveTheKeys(items, key);
      FindIsMembership(items, key);
    }
    assert store.Keys == Files(items).Keys;
  }

  // What the elements record.
  ghost function Values(list: seq<ListElement>): (values: seq<CacheMetadata>)
    ensures |values| == |list|
    ensures forall i :: 0 <= i < |list| ==> values[i] == list[i].value
  {
    seq(|list|, i requires 0 <= i < |list| => list[i].value)
  }

  // What keyToElement holds after the list's elements are entered front to back.
  ghost function IndexOf(list: seq<ListElement>): map<string, ListElement> {
    if list == [] then map[] else
      IndexOf(list[..|list| - 1])[list[|list| - 1].value.key := list[|list| - 1]]
  }

  // Elements made from the metadata of the entries are in step with the entries' files.
  lemma {:induction false} LoadedInStep(list: seq<ListElement>, items: seq<Item>)
    requires DistinctKeys(items) && Values(list) == Metadata(items)
    ensures InStep(list, IndexOf(list), Files(items)) && ItemsOf(list, Files(items)) == items
  {
    MetadataAt(items, 0);
    if list != [] {
      var n := |list| - 1;
      ShorterMetadata(items, n);
      assert Values(list[..n]) == Values(list)[..n];
      LoadedInStep(list[..n], items[..n]);
      MetadataAt(items, n);
      LoadLast(list, items);
    }
  }

  lemma ShorterMetadata(items: seq<Item>, n: nat)
    requires n <= |items| == |Metadata(items)|
    ensures Metadata(items[..n]) == Metadata(items)[..n]
  {
    MetadataAt(items[..n], 0);
    forall i | 0 <= i < n
      ensures Metadata(items[..n])[i] == Metadata(items)[i]
    {
      MetadataAt(items, i);
      MetadataAt(items[..n], i);
    }
  }

  lemma LoadLast(list: seq<ListElement>, items: seq<Item>)
    requires DistinctKeys(items) && |list| == |items| && list != []
    requires var n := |list| - 1;
             && InStep(list[..n], IndexOf(list[..n]), Files(items[..n]))
             && ItemsOf(list[..n], Files(items[..n])) == items[..n]
             && list[n].value == CacheMetadata(items[n].key, |items[n].value|)
    ensures InStep(list, IndexOf(list), Files(items)) && ItemsOf(list, Files(items)) == items
  {
    var n := |list| - 1;
    LoadOne(list[..n], IndexOf(list[..n]), Files(items[..n]), list[n], items, n);
    assert list == list[..n] + [list[n]] && items[..n + 1] == items;
    RestoredStore(list, IndexOf(list), Files(items[..n])[items[n].key := items[n].value], items);
  }

  // Rebuilding one more entry.
  lemma LoadOne(list: seq<ListElement>, index: map<string, ListElement>, store: map<string, Bytes>,
                element: ListElement, items: seq<Item>, i: nat)
    requires DistinctKeys(items) && i < |items| && InStep(list, index, store) && ItemsOf(list, store) == items[..i]
    requires element.value == CacheMetadata(items[i].key, |items[i].value|)
    ensures InStep(list + [element], index[element.value.key := element], store[element.value.key := items[i].value])
    ensures ItemsOf(list + [element], store[element.value.key := items[i].value]) == items[..i + 1]
  {
    ItemsAreTheStore(list, index, store, items[i].key);
    PushBack(list, index, store, element, items[i].value);
  }

  class LRUCache {
    var backingCache: map<string, Bytes>
    var orderedCacheKeys: seq<ListElement>
    var keyToElement: map<string, ListElement>
    var currentSize: int
    const maxSize: int

    // List, map, store and counter agree, with reserved bytes claimed but not yet published.
    ghost predicate Reserving(reserved: int)
      reads this
    {
      && InStep(orderedCacheKeys, keyToElement, backingCache)
      && currentSize == Total(ItemsOf(orderedCacheKeys, backingCache)) + reserved
    }

    ghost predicate Valid()
      reads this
    {
      Reserving(0)
    }

    // The entries, freshest first.
    ghost function Contents(): (items: seq<Item>)
      requires InStep(orderedCacheKeys, keyToElement, backingCache)
      reads this
    {
      ItemsOf(orderedCacheKeys, backingCache)
    }

    constructor (maxSize: int)
      ensures Valid() && Contents() == [] && this.maxSize == maxSize
    {
      this.maxSize := maxSize;
      backingCache, orderedCacheKeys, keyToElement, currentSize := map[], [], map[], 0;
    }

    /** buildDiskCache: the list has one element for each entry of the index, in its order, the
        map leads to the last one of each key, the counter is the index's byte total, and the
        store is what the files hold. When index and files are as a cache holding items left
        them, that cache comes back. */
    constructor FromIndex(maxSize: int, metadatas: seq<CacheMetadata>, files: map<string, Bytes>,
                          ghost items: seq<Item>)
      ensures this.maxSize == maxSize && backingCache == files && currentSize == SumOfSizes(metadatas)
      ensures Values(orderedCacheKeys) == metadatas && keyToElement == IndexOf(orderedCacheKeys)
      ensures DistinctKeys(items) && metadatas == Metadata(items) && files == Files(items) ==>
        Valid() && Contents() == items
    {
      this.maxSize := maxSize;
      backingCache, orderedCacheKeys, keyToElement, currentSize := files, [], map[], 0;
      new;
      LoadMetadata(metadatas);
      currentSize := TotalSize(metadatas);
      if DistinctKeys(items) && metadatas == Metadata(items) && files == Files(items) {
        LoadedInStep(orderedCacheKeys, items);
        SumOfSizesIsTotal(items);
      }
    }

    // The loop of buildDiskCache, freshest first.
    method LoadMetadata(metadatas: seq<CacheMetadata>)
      requires orderedCacheKeys == [] && keyToElement == map[]
      modifies this`orderedCacheKeys, this`keyToElement
      ensures Values(orderedCacheKeys) == metadatas && keyToElement == IndexOf(orderedCacheKeys)
    {
      for i := 0 to |metadatas|
        invariant Values(orderedCacheKeys) == metadatas[..i]
        invariant keyToElement == IndexOf(orderedCacheKeys)
      {
        var element := new ListElement(metadatas[i]);
        ghost var longer := orderedCacheKeys + [element];
        assert longer[..|longer| - 1] == orderedCacheKeys;
        orderedCacheKeys := orderedCacheKeys + [element];
        keyToElement := keyToElement[metadatas[i].key := element];
      }
    }

    method Has(key: string) returns (present: bool)
      requires Valid()
      ensures present <==> HasKey(Contents(), key)
    {
      ItemsAreTheStore(orderedCacheKeys, keyToElement, backingCache, key);
      present := key in backingCache;
    }

    method Get(key: string) returns (value: Option<Bytes>)
      requires Valid()
      modifies this
      ensures Valid()
      ensures value == Find(old(Contents()), key)
      ensures Contents() == AfterGet(old(Contents()), key)
    {
      ItemsAreTheStore(orderedCacheKeys, keyToElement, backingCache, key);
      SameKeys(orderedCacheKeys, keyToElement, backingCache, key);
      if key in keyToElement {
        Touch(orderedCacheKeys, keyToElement, backingCache, key);
        var element := keyToElement[key];
        orderedCacheKeys := MoveToFront(orderedCacheKeys, element);
      }
      value := if key in backingCache then Some(backingCache[key]) else None;
    }

    method Delete(key: string)
      requires Valid()
      modifies this
      ensures Valid()
      ensures Contents() == Without(old(Contents()), key)
    {
      SameKeys(orderedCacheKeys, keyToElement, backingCache, key);
      if key in keyToElement {
        UnlinkAndErase(orderedCacheKeys, keyToElement, backingCache, key);
        var element := keyToElement[key];
        orderedCacheKeys := RemoveElement(orderedCacheKeys, element);
        currentSize := currentSize - element.value.size;
        keyToElement := keyToElement - {key};
      } else {
        ItemsAreTheStore(orderedCacheKeys, keyToElement, backingCache, key);
        WithoutAbsent(Contents(), key);
        assert backingCache - {key} == backingCache;
      }
      backingCache := backingCache - {key};
    }

    method DeleteAll()
      requires Valid()
      modifies this
      ensures Valid() && Contents() == []
    {
      orderedCacheKeys := [];
      currentSize := 0;
      keyToElement := map[];
      backingCache := map[];
    }

    // Deleting the key at the back of an over-full list drops one entry that would not fit anyway.
    lemma EvictionIsHarmless(room: int)
      requires Valid() && orderedCacheKeys != [] && currentSize > room
      ensures var rest := Without(Contents(), orderedCacheKeys[|orderedCacheKeys| - 1].value.key);
              Fit(rest, room) == Fit(Contents(), room) && |rest| < |Contents()|
    {
      ContentsAreDistinct(orderedCacheKeys, keyToElement, backingCache);
      LastItem(orderedCacheKeys, backingCache);
      EvictOldest(Contents(), room);
    }

    // Drops entries from the back until size more bytes fit or nothing is left.
    method EvictFor(size: nat)
      requires Valid()
      modifies this
      ensures Valid()
      ensures Contents() == Fit(old(Contents()), maxSize - size)
    {
      ghost var before := Contents();
      while currentSize + size > maxSize && orderedCacheKeys != []
        invariant Valid()
        invariant Fit(Contents(), maxSize - size) == Fit(before, maxSize - size)
        decreases |Contents()|
      {
        var oldestElement := orderedCacheKeys[|orderedCacheKeys| - 1];
        EvictionIsHarmless(maxSize - size);
        Delete(oldestElement.value.key);
      }
      if currentSize + size <= maxSize {
        FitAll(Contents(), maxSize - size);
      }
    }

    method AllocateSpace(size: nat) returns (hasSpace: bool)
      requires Valid()
      modifies this`currentSize
      ensures hasSpace <==> Total(Contents()) + size <= maxSize
      ensures Reserving(if hasSpace then size else 0)
      ensures Contents() == old(Contents())
    {
      hasSpace := currentSize + size <= maxSize;
      if hasSpace {
        currentSize := currentSize + size;
      }
    }

    // The store's successful write followed by the publication of the new element.
    method Publish(key: string, value: Bytes)
      requires Reserving(|value|) && key !in backingCache
      modifies this
      ensures Valid()
      ensures Contents() == [Item(key, value)] + old(Contents())
    {
      var element := new ListElement(CacheMetadata(key, |value|));
      Push(orderedCacheKeys, keyToElement, backingCache, element, value);
      backingCache := backingCache[key := value];
      orderedCacheKeys := [element] + orderedCacheKeys;
      keyToElement := keyToElement[key := element];
    }

    // The end of Set: reserve, write, publish or roll back.
    method Store(key: string, value: Bytes, writeOk: bool) returns (failed: bool)
      requires Valid() && key !in backingCache
      modifies this
      ensures Valid()
      ensures var fits := Total(old(Contents())) + |value| <= maxSize;
              && Contents() == (if fits && writeOk then [Item(key, value)] else []) + old(Contents())
              && (failed <==> fits && !writeOk)
    {
      var hasSpace := AllocateSpace(|value|);
      if !hasSpace {
        return false;
      }
      if !writeOk {
        currentSize := currentSize - |value|;
        return true;
      }
      Publish(key, value);
      failed := false;
    }

    // The start of Set: drop the key's old entry, then evict until the new value fits.
    method MakeRoom(key: string, size: nat)
      requires Valid()
      modifies this
      ensures Valid() && key !in backingCache
      ensures Contents() == Kept(old(Contents()), maxSize, key, size)
    {
      ghost var before := Contents();
      ContentsAreDistinct(orderedCacheKeys, keyToElement, backingCache);
      var present := Has(key);
      if present {
        Delete(key);
      } else {
        WithoutAbsent(before, key);
      }
      if maxSize > -1 {
        EvictFor(size);
      }
      KeptIsNew(before, key, size);
    }

    lemma KeptIsNew(before: seq<Item>, key: string, size: nat)
      requires Valid() && DistinctKeys(before) && Contents() == Kept(before, maxSize, key, size)
      ensures key !in backingCache
    {
      KeptFacts(before, maxSize, key, size);
      ItemsAreTheStore(orderedCacheKeys, keyToElement, backingCache, key);
    }

    /** writeOk is the outcome of the backing store's write, should one be attempted; a failed
        write leaves the store as it was. */
    method Set(key: string, value: Bytes, writeOk: bool) returns (failed: bool)
      requires Valid()
      modifies this
      ensures Valid()
      ensures Contents() == AfterSet(old(Contents()), maxSize, key, value, writeOk)
      ensures failed <==> Admitted(old(Contents()), maxSize, key, |value|) && !writeOk
    {
      MakeRoom(key, |value|);
      failed := Store(key, value, writeOk);
    }
  }
}
