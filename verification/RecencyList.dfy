/**
 What an LRU cache holds, seen from outside: its entries from the freshest to the
 oldest. The operations below say what each cache call leaves; the class in
 LruCache.dfy is proved to compute them with its list, map, byte counter and store.
 */
module RecencyList {
  import opened Prelude

  datatype Item = Item(key: string, value: Bytes)

  // Bytes held by the entries.
  function Total(items: seq<Item>): nat {
    if items == [] then 0 else |items[0].value| + Total(items[1..])
  }

  ghost predicate DistinctKeys(items: seq<Item>) {
    forall i, j :: 0 <= i < j < |items| ==> items[i].key != items[j].key
  }

  predicate HasKey(items: seq<Item>, key: string) {
    exists i :: 0 <= i < |items| && items[i].key == key
  }

  function Find(items: seq<Item>, key: string): Option<Bytes> {
    if items == [] then None
    else if items[0].key == key then Some(items[0].value)
    else Find(items[1..], key)
  }

  // The entries other than key's, in the same order.
  function Without(items: seq<Item>, key: string): seq<Item> {
    if items == [] then []
    else if items[0].key == key then Without(items[1..], key)
    else [items[0]] + Without(items[1..], key)
  }

  // The freshest entries that fit in room bytes, taken greedily from the front.
  function Fit(items: seq<Item>, room: int): seq<Item> {
    if items == [] || |items[0].value| > room then []
    else [items[0]] + Fit(items[1..], room - |items[0].value|)
  }

  // What a Set of size bytes under key leaves of the earlier entries.
  function Kept(items: seq<Item>, maxSize: int, key: string, size: nat): seq<Item> {
    if maxSize > -1 then Fit(Without(items, key), maxSize - size) else Without(items, key)
  }

  predicate Admitted(items: seq<Item>, maxSize: int, key: string, size: nat) {
    Total(Kept(items, maxSize, key, size)) + size <= maxSize
  }

  // The entries after Set(key, value); writeOk is the outcome of the store's write.
  function AfterSet(items: seq<Item>, maxSize: int, key: string, value: Bytes, writeOk: bool): seq<Item> {
    var kept := Kept(items, maxSize, key, |value|);
    if Admitted(items, maxSize, key, |value|) && writeOk then [Item(key, value)] + kept else kept
  }

  // The entries after Get(key): a resident key becomes the freshest.
  function AfterGet(items: seq<Item>, key: string): seq<Item> {
    match Find(items, key)
    case None => items
    case Some(value) => [Item(key, value)] + Without(items, key)
  }

  lemma {:induction false} TotalAppend(a: seq<Item>, b: seq<Item>)
    ensures Total(a + b) == Total(a) + Total(b)
  {
    if a == [] {
      assert a + b == b;
    } else {
      assert (a + b)[1..] == a[1..] + b;
      TotalAppend(a[1..], b);
    }
  }

  lemma {:induction false} FindIsMembership(items: seq<Item>, key: string)
    ensures Find(items, key).Some? <==> HasKey(items, key)
    ensures Find(items, key).Some? ==> Item(key, Find(items, key).value) in items
  {
    if items != [] && items[0].key != key {
      FindIsMembership(items[1..], key);
      if HasKey(items, key) {
        var i :| 0 <= i < |items| && items[i].key == key;
        assert items[1..][i - 1].key == key;
      }
      if HasKey(items[1..], key) {
        var i :| 0 <= i < |items[1..]| && items[1..][i].key == key;
        assert items[i + 1].key == key;
      }
    }
  }

  // With distinct keys, an entry is found exactly when it is in the list.
  lemma {:induction false} FindUnique(items: seq<Item>, item: Item)
    requires DistinctKeys(items) && item in items
    ensures Find(items, item.key) == Some(item.value)
  {
    if items[0] != item {
      var i :| 0 <= i < |items| && items[i] == item;
      assert items[0].key != items[i].key;
      assert items[1..][i - 1] == item;
      FindUnique(items[1..], item);
    }
  }

  lemma {:induction false} WithoutMembers(items: seq<Item>, key: string)
    ensures forall x :: x in Without(items, key) <==> x in items && x.key != key
    ensures !HasKey(Without(items, key), key)
    ensures |Without(items, key)| <= |items|
  {
    if items != [] {
      WithoutMembers(items[1..], key);
      assert items == [items[0]] + items[1..];
    }
    var rest := Without(items, key);
    forall i | 0 <= i < |rest|
      ensures rest[i].key != key
    {
      assert rest[i] in rest;
    }
  }

  lemma {:induction false} WithoutDistinct(items: seq<Item>, key: string)
    requires DistinctKeys(items)
    ensures DistinctKeys(Without(items, key))
  {
    if items != [] {
      WithoutDistinct(items[1..], key);
      var rest := Without(items[1..], key);
      WithoutMembers(items[1..], key);
      forall j | 0 <= j < |rest|
        ensures rest[j].key != items[0].key
      {
        assert rest[j] in items[1..];
      }
    }
  }

  lemma {:induction false} WithoutAbsent(items: seq<Item>, key: string)
    requires !HasKey(items, key)
    ensures Without(items, key) == items
  {
    if items != [] {
      assert items[0].key != key;
      forall i | 0 <= i < |items[1..]|
        ensures items[1..][i].key != key
      {
        assert items[i + 1].key != key;
      }
      WithoutAbsent(items[1..], key);
    }
  }

  // Removing the entry at i is what Without does when keys are distinct.
  lemma {:induction false} WithoutAt(items: seq<Item>, i: nat)
    requires i < |items| && DistinctKeys(items)
    ensures Without(items, items[i].key) == DropAt(items, i)
  {
    if i == 0 {
      forall j | 0 <= j < |items[1..]|
        ensures items[1..][j].key != items[0].key
      {
        assert items[0].key != items[j + 1].key;
      }
      WithoutAbsent(items[1..], items[0].key);
    } else {
      assert items[0].key != items[i].key;
      WithoutAt(items[1..], i - 1);
      DropAtLater(items, i);
    }
  }

  lemma DropAtLater(items: seq<Item>, i: nat)
    requires 0 < i < |items|
    ensures DropAt(items, i) == [items[0]] + DropAt(items[1..], i - 1)
  {
  }

  // Evicting the oldest entry of an over-full list does not change what fits.
  lemma {:induction false} FitDropOldest(items: seq<Item>, room: int)
    requires items != [] && Total(items) > room
    ensures Fit(items[..|items| - 1], room) == Fit(items, room)
  {
    if |items| > 1 && |items[0].value| <= room {
      assert items[..|items| - 1][1..] == items[1..][..|items| - 2];
      FitDropOldest(items[1..], room - |items[0].value|);
    }
  }

  lemma EvictOldest(items: seq<Item>, room: int)
    requires DistinctKeys(items) && items != [] && Total(items) > room
    ensures Fit(Without(items, items[|items| - 1].key), room) == Fit(items, room)
    ensures |Without(items, items[|items| - 1].key)| == |items| - 1
  {
    WithoutAt(items, |items| - 1);
    assert DropAt(items, |items| - 1) == items[..|items| - 1];
    FitDropOldest(items, room);
  }

  lemma AfterGetAt(items: seq<Item>, j: nat)
    requires DistinctKeys(items) && j < |items|
    ensures Find(items, items[j].key) == Some(items[j].value)
    ensures AfterGet(items, items[j].key) == [items[j]] + DropAt(items, j)
  {
    FindUnique(items, items[j]);
    WithoutAt(items, j);
  }

  lemma AfterGetOfAbsent(items: seq<Item>, key: string)
    requires !HasKey(items, key)
    ensures Find(items, key) == None && AfterGet(items, key) == items
  {
    FindIsMembership(items, key);
  }

  lemma {:induction false} FitAll(items: seq<Item>, room: int)
    requires Total(items) <= room
    ensures Fit(items, room) == items
  {
    if items != [] {
      FitAll(items[1..], room - |items[0].value|);
    }
  }

  // Fit is the longest prefix whose sizes sum to at most room.
  lemma {:induction false} FitIsLongestPrefix(items: seq<Item>, room: int)
    ensures Fit(items, room) <= items
    ensures room >= 0 ==> Total(Fit(items, room)) <= room
    ensures room < 0 ==> Fit(items, room) == []
    ensures forall n :: |Fit(items, room)| < n <= |items| ==> Total(items[..n]) > room
  {
    var fit := Fit(items, room);
    if items != [] {
      if |items[0].value| <= room {
        FitIsLongestPrefix(items[1..], room - |items[0].value|);
      }
      forall n | |fit| < n <= |items|
        ensures Total(items[..n]) > room
      {
        assert items[..n][1..] == items[1..][..n - 1];
      }
    }
  }

  lemma PrefixFacts(prefix: seq<Item>, items: seq<Item>, key: string)
    requires DistinctKeys(items) && prefix <= items && !HasKey(items, key)
    ensures DistinctKeys(prefix)
    ensures !HasKey(prefix, key)
    ensures forall x :: x in prefix ==> x in items
  {
    assert items == prefix + items[|prefix|..];
  }

  lemma KeptFacts(items: seq<Item>, maxSize: int, key: string, size: nat)
    requires DistinctKeys(items)
    ensures Kept(items, maxSize, key, size) <= Without(items, key)
    ensures DistinctKeys(Kept(items, maxSize, key, size))
    ensures !HasKey(Kept(items, maxSize, key, size), key)
    ensures forall x :: x in Kept(items, maxSize, key, size) ==> x in items && x.key != key
  {
    KeptIsPrefix(items, maxSize, key, size);
    WithoutDistinct(items, key);
    WithoutMembers(items, key);
    PrefixFacts(Kept(items, maxSize, key, size), Without(items, key), key);
  }

  lemma KeptIsPrefix(items: seq<Item>, maxSize: int, key: string, size: nat)
    ensures Kept(items, maxSize, key, size) <= Without(items, key)
  {
    FitIsLongestPrefix(Without(items, key), maxSize - size);
  }

  // Every call keeps the keys distinct.
  lemma CallsKeepKeysDistinct(items: seq<Item>, maxSize: int, key: string, value: Bytes, writeOk: bool)
    requires DistinctKeys(items)
    ensures DistinctKeys(AfterSet(items, maxSize, key, value, writeOk))
    ensures DistinctKeys(AfterGet(items, key))
    ensures DistinctKeys(Without(items, key))
  {
    var kept := Kept(items, maxSize, key, |value|);
    KeptFacts(items, maxSize, key, |value|);
    ConsKeepsDistinct(Item(key, value), kept);
    WithoutMembers(items, key);
    WithoutDistinct(items, key);
    if Find(items, key).Some? {
      ConsKeepsDistinct(Item(key, Find(items, key).value), Without(items, key));
    }
  }

  lemma ConsKeepsDistinct(item: Item, items: seq<Item>)
    requires DistinctKeys(items) && !HasKey(items, item.key)
    ensures DistinctKeys([item] + items)
  {
    assert forall i :: 0 <= i < |items| ==> items[i].key != item.key;
  }

  // A value is admitted exactly when it alone fits in the capacity.
  lemma AdmittedIff(items: seq<Item>, maxSize: int, key: string, size: nat)
    ensures Admitted(items, maxSize, key, size) <==> size <= maxSize
  {
    FitIsLongestPrefix(Without(items, key), maxSize - size);
  }

  // The n freshest entries are the longest prefix that fits in room bytes.
  ghost predicate LongestFitting(items: seq<Item>, n: nat, room: int) {
    && n <= |items|
    && Total(items[..n]) <= room
    && forall m :: n < m <= |items| ==> Total(items[..m]) > room
  }

  /** A Set under a capacity of at least 0. A value that fits is put in front of the longest
      prefix of the other entries that leaves room for it; a failed write leaves that prefix
      alone; a value larger than the whole capacity empties the list and is not stored. */
  lemma SetOutcome(items: seq<Item>, maxSize: nat, key: string, value: Bytes, writeOk: bool) returns (n: nat)
    requires DistinctKeys(items)
    ensures |value| > maxSize ==> AfterSet(items, maxSize, key, value, writeOk) == []
    ensures |value| <= maxSize ==> LongestFitting(Without(items, key), n, maxSize - |value|)
    ensures |value| <= maxSize ==>
      AfterSet(items, maxSize, key, value, writeOk)
      == (if writeOk then [Item(key, value)] else []) + Without(items, key)[..n]
    ensures Total(AfterSet(items, maxSize, key, value, writeOk)) <= maxSize
  {
    var others := Without(items, key);
    var kept := Kept(items, maxSize, key, |value|);
    FitIsLongestPrefix(others, maxSize - |value|);
    n := |kept|;
    assert kept == others[..n];
  }

  /** Under a negative capacity a Set only drops its key: it neither evicts nor stores. */
  lemma SetUnderNegativeCapacity(items: seq<Item>, maxSize: int, key: string, value: Bytes, writeOk: bool)
    requires maxSize < 0
    ensures AfterSet(items, maxSize, key, value, writeOk) == Without(items, key)
  {
    AdmittedIff(items, maxSize, key, |value|);
  }
}
