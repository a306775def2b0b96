/**
 Whole runs of one LRU cache that starts empty. A key's last touch is the position of the
 latest call that published it or found it; the recency list is proved to be ordered by it.
 */
module LruHistory {
  import opened Prelude
  import opened RecencyList

  datatype Call =
    | SetCall(key: string, value: Bytes, writeOk: bool)
    | GetCall(key: string)
    | DeleteCall(key: string)
    | DeleteAllCall

  function After(items: seq<Item>, maxSize: int, call: Call): seq<Item> {
    match call
    case SetCall(key, value, writeOk) => AfterSet(items, maxSize, key, value, writeOk)
    case GetCall(key) => AfterGet(items, key)
    case DeleteCall(key) => Without(items, key)
    case DeleteAllCall => []
  }

  // What a cache that starts with the items holds after the calls.
  function HeldFrom(items: seq<Item>, maxSize: int, calls: seq<Call>): seq<Item> {
    if calls == [] then items else
      After(HeldFrom(items, maxSize, calls[..|calls| - 1]), maxSize, calls[|calls| - 1])
  }

  function Held(maxSize: int, calls: seq<Call>): seq<Item> {
    HeldFrom([], maxSize, calls)
  }

  lemma HeldAfterOne(items: seq<Item>, maxSize: int, call: Call)
    ensures HeldFrom(items, maxSize, [call]) == After(items, maxSize, call)
  {
    assert [call][..0] == [];
  }

  // What each Get among the calls returns; None for the other calls and for absent keys.
  function Replies(items: seq<Item>, maxSize: int, calls: seq<Call>): seq<Option<Bytes>> {
    if calls == [] then [] else
      var earlier := calls[..|calls| - 1];
      var call := calls[|calls| - 1];
      Replies(items, maxSize, earlier)
      + [if call.GetCall? then Find(HeldFrom(items, maxSize, earlier), call.key) else None]
  }

  // A Set touches its key when it publishes an entry, a Get when the key is resident.
  predicate Touches(items: seq<Item>, maxSize: int, call: Call, key: string) {
    match call
    case SetCall(k, value, writeOk) => k == key && writeOk && Admitted(items, maxSize, k, |value|)
    case GetCall(k) => k == key && Find(items, k).Some?
    case _ => false
  }

  // Position of the last call that touched key; -1 if none did.
  function LastTouch(maxSize: int, calls: seq<Call>, key: string): (t: int)
    ensures -1 <= t < |calls|
  {
    if calls == [] then -1
    else
      var earlier := calls[..|calls| - 1];
      if Touches(Held(maxSize, earlier), maxSize, calls[|calls| - 1], key) then |earlier|
      else LastTouch(maxSize, earlier, key)
  }

  ghost predicate FreshestFirst(items: seq<Item>, touch: string -> int) {
    && (forall i :: 0 <= i < |items| ==> 0 <= touch(items[i].key))
    && (forall i, j :: 0 <= i < j < |items| ==> touch(items[i].key) > touch(items[j].key))
  }

  lemma {:induction false} WithoutKeepsOrder(items: seq<Item>, key: string, touch: string -> int)
    requires FreshestFirst(items, touch)
    ensures FreshestFirst(Without(items, key), touch)
  {
    if items != [] {
      var tail := items[1..];
      var rest := Without(tail, key);
      WithoutKeepsOrder(tail, key, touch);
      WithoutMembers(tail, key);
      forall i | 0 <= i < |rest|
        ensures touch(items[0].key) > touch(rest[i].key)
      {
        assert rest[i] in tail;
        var j :| 0 <= j < |tail| && tail[j] == rest[i];
        assert items[j + 1] == rest[i];
      }
    }
  }

  // Order survives a new clock reading for keys that are not in the list.
  lemma OrderDependsOnResidents(items: seq<Item>, touch: string -> int, touch': string -> int)
    requires FreshestFirst(items, touch)
    requires forall i :: 0 <= i < |items| ==> touch(items[i].key) == touch'(items[i].key)
    ensures FreshestFirst(items, touch')
  {
  }

  lemma PushedIsFreshest(item: Item, rest: seq<Item>, touch: string -> int)
    requires FreshestFirst(rest, touch) && 0 <= touch(item.key)
    requires forall i :: 0 <= i < |rest| ==> touch(rest[i].key) < touch(item.key)
    ensures FreshestFirst([item] + rest, touch)
  {
  }

  /** One call keeps the order, when a touch is dated later than all earlier ones and every other
      key keeps its date. */
  lemma CallKeepsOrder(items: seq<Item>, maxSize: int, call: Call, touch: string -> int, touch': string -> int,
                       now: nat)
    requires DistinctKeys(items) && FreshestFirst(items, touch)
    requires forall i :: 0 <= i < |items| ==> touch(items[i].key) < now
    requires forall key :: touch'(key) == if Touches(items, maxSize, call, key) then now as int else touch(key)
    ensures FreshestFirst(After(items, maxSize, call), touch') && DistinctKeys(After(items, maxSize, call))
  {
    if !call.DeleteAllCall? {
      var size := if call.SetCall? then |call.value| else 0;
      var rest := if call.SetCall? then Kept(items, maxSize, call.key, size) else Without(items, call.key);
      RestIsOrdered(items, maxSize, call.key, size, touch);
      RestIsOlder(items, maxSize, call.key, size, touch, now);
      OrderDependsOnResidents(rest, touch, touch');
      if Touches(items, maxSize, call, call.key) {
        var item := Item(call.key, if call.SetCall? then call.value else Find(items, call.key).value);
        assert After(items, maxSize, call) == [item] + rest;
        PushedIsFreshest(item, rest, touch');
      } else if call.GetCall? {
        OrderDependsOnResidents(items, touch, touch');
      }
      CallsKeepKeysDistinct(items, maxSize, call.key, if call.SetCall? then call.value else [],
                            call.SetCall? && call.writeOk);
    }
  }

  lemma RestIsOlder(items: seq<Item>, maxSize: int, key: string, size: nat, touch: string -> int, now: nat)
    requires DistinctKeys(items) && forall i :: 0 <= i < |items| ==> touch(items[i].key) < now
    ensures forall x :: x in Without(items, key) ==> touch(x.key) < now
    ensures forall x :: x in Kept(items, maxSize, key, size) ==> touch(x.key) < now
  {
    assert forall x :: x in items ==> touch(x.key) < now;
    WithoutMembers(items, key);
    KeptFacts(items, maxSize, key, size);
  }

  /** In every reachable state the list runs from the latest touched key to the earliest, so
      keys are distinct and the entry at the back is the one touched longest ago. */
  lemma {:induction false} ListIsOrderedByLastTouch(maxSize: int, calls: seq<Call>)
    ensures FreshestFirst(Held(maxSize, calls), key => LastTouch(maxSize, calls, key))
    ensures DistinctKeys(Held(maxSize, calls))
  {
    if calls != [] {
      var earlier := calls[..|calls| - 1];
      ListIsOrderedByLastTouch(maxSize, earlier);
      CallKeepsOrder(Held(maxSize, earlier), maxSize, calls[|calls| - 1], key => LastTouch(maxSize, earlier, key),
                     key => LastTouch(maxSize, calls, key), |earlier|);
    }
  }

  lemma RestIsOrdered(items: seq<Item>, maxSize: int, key: string, size: nat, touch: string -> int)
    requires DistinctKeys(items) && FreshestFirst(items, touch)
    ensures FreshestFirst(Without(items, key), touch) && !HasKey(Without(items, key), key)
    ensures FreshestFirst(Kept(items, maxSize, key, size), touch) && !HasKey(Kept(items, maxSize, key, size), key)
  {
    WithoutKeepsOrder(items, key, touch);
    WithoutMembers(items, key);
    KeptFacts(items, maxSize, key, size);
  }

  /** Every entry a Set evicts was touched before every entry it keeps. */
  lemma VictimsWereTouchedFirst(maxSize: int, calls: seq<Call>, key: string, value: Bytes, victim: Item, survivor: Item)
    requires victim in Held(maxSize, calls) && victim.key != key
    requires victim !in Kept(Held(maxSize, calls), maxSize, key, |value|)
    requires survivor in Kept(Held(maxSize, calls), maxSize, key, |value|)
    ensures LastTouch(maxSize, calls, victim.key) < LastTouch(maxSize, calls, survivor.key)
  {
    var items := Held(maxSize, calls);
    var touch := (k: string) => LastTouch(maxSize, calls, k);
    var others := Without(items, key);
    var kept := Kept(items, maxSize, key, |value|);
    ListIsOrderedByLastTouch(maxSize, calls);
    KeptFacts(items, maxSize, key, |value|);
    WithoutKeepsOrder(items, key, touch);
    WithoutMembers(items, key);
    var i :| 0 <= i < |others| && others[i] == victim;
    var j :| 0 <= j < |kept| && kept[j] == survivor;
    assert others[j] == kept[j];
    assert i >= |kept|;
    assert touch(others[j].key) > touch(others[i].key);
  }

  /** No run from an empty cache holds more than its capacity; a negative capacity holds nothing. */
  lemma {:induction false} CapacityIsRespected(maxSize: int, calls: seq<Call>)
    ensures Total(Held(maxSize, calls)) <= (if maxSize < 0 then 0 else maxSize)
    ensures maxSize < 0 ==> Held(maxSize, calls) == []
  {
    if calls != [] {
      var before := Held(maxSize, calls[..|calls| - 1]);
      var call := calls[|calls| - 1];
      CapacityIsRespected(maxSize, calls[..|calls| - 1]);
      ListIsOrderedByLastTouch(maxSize, calls[..|calls| - 1]);
      match call {
        case SetCall(key, value, writeOk) =>
          if maxSize >= 0 {
            var _ := SetOutcome(before, maxSize, key, value, writeOk);
          }
        case GetCall(key) => TotalAfterRemoval(before, key);
        case DeleteCall(key) => TotalAfterRemoval(before, key);
        case DeleteAllCall =>
      }
    }
  }

  lemma {:induction false} TotalAfterRemoval(items: seq<Item>, key: string)
    requires DistinctKeys(items)
    ensures Total(Without(items, key)) <= Total(items)
    ensures Total(AfterGet(items, key)) == Total(items)
  {
    if items != [] {
      TotalAfterRemoval(items[1..], key);
      if items[0].key == key {
        forall i | 0 <= i < |items[1..]|
          ensures items[1..][i].key != key
        {
          assert items[0].key != items[i + 1].key;
        }
        WithoutAbsent(items[1..], key);
      }
    }
  }
}
