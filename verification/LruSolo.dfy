/**
 The shared LRUCache under schedules in which no two calls overlap: it holds what the cache used
 by one caller at a time holds after the same calls.
 */
module LruSolo {
  import opened Prelude
  import opened RecencyList
  import opened LruHistory
  import opened LruThreads
  import opened LruEviction
  import opened LruOrphans

  // The entries that list and store describe, freshest first.
  function Entries(list: seq<Node>, store: map<string, Bytes>): (items: seq<Item>)
    ensures |items| == |list|
  {
    if list == [] then [] else
      var key := list[0].key;
      [Item(key, if key in store then store[key] else [])] + Entries(list[1..], store)
  }

  // Every listed element is the one its key maps to, and records the size of its stored value.
  ghost predicate Matched(list: seq<Node>, index: map<string, Node>, store: map<string, Bytes>) {
    forall node :: node in list ==>
      && node.key in index && index[node.key] == node
      && node.key in store && |store[node.key]| == node.size
  }

  // Every stored key is mapped, but for one that may be on its way in or out.
  ghost predicate StoreIsMapped(index: map<string, Node>, store: map<string, Bytes>, extra: Option<string>) {
    forall key :: key in store ==> key in index || extra == Some(key)
  }

  // --- Entries ---

  lemma {:induction false} EntriesAt(list: seq<Node>, store: map<string, Bytes>, i: nat)
    requires i < |list|
    ensures Entries(list, store)[i].key == list[i].key
    ensures list[i].key in store ==> Entries(list, store)[i].value == store[list[i].key]
  {
    if i > 0 {
      EntriesAt(list[1..], store, i - 1);
    }
  }

  // Only the listed keys' values matter.
  lemma {:induction false} EntriesOfOther(list: seq<Node>, store: map<string, Bytes>, store': map<string, Bytes>)
    requires forall node :: node in list ==>
      (node.key in store <==> node.key in store') && (node.key in store ==> store[node.key] == store'[node.key])
    ensures Entries(list, store) == Entries(list, store')
  {
    if list != [] {
      assert list[0] in list && forall node :: node in list[1..] ==> node in list;
      EntriesOfOther(list[1..], store, store');
    }
  }

  lemma {:induction false} EntriesTotal(list: seq<Node>, store: map<string, Bytes>)
    requires forall node :: node in list ==> node.key in store && |store[node.key]| == node.size
    ensures Total(Entries(list, store)) == SumSizes(list)
  {
    if list != [] {
      assert list[0] in list && forall node :: node in list[1..] ==> node in list;
      EntriesTotal(list[1..], store);
    }
  }

  lemma EntriesAreDistinct(list: seq<Node>, index: map<string, Node>, store: map<string, Bytes>)
    requires DistinctIds(list) && Matched(list, index, store)
    ensures DistinctKeys(Entries(list, store))
  {
    var items := Entries(list, store);
    forall i, j | 0 <= i < j < |items|
      ensures items[i].key != items[j].key
    {
      EntriesAt(list, store, i);
      EntriesAt(list, store, j);
      assert list[i] in list && list[j] in list && list[i].id != list[j].id;
    }
  }

  lemma EntriesHaveTheKeys(list: seq<Node>, store: map<string, Bytes>, key: string)
    ensures HasKey(Entries(list, store), key) <==> exists node :: node in list && node.key == key
  {
    var items := Entries(list, store);
    if HasKey(items, key) {
      var i :| 0 <= i < |items| && items[i].key == key;
      EntriesAt(list, store, i);
      assert list[i] in list;
    }
    if exists node :: node in list && node.key == key {
      var node :| node in list && node.key == key;
      var i :| 0 <= i < |list| && list[i] == node;
      EntriesAt(list, store, i);
    }
  }

  // Unlinking a key's only element takes its entry away.
  lemma {:induction false} EntriesWithout(list: seq<Node>, store: map<string, Bytes>, node: Node)
    requires DistinctIds(list) && node in list && forall x :: x in list && x.key == node.key ==> x == node
    ensures Entries(Remove(list, node), store) == Without(Entries(list, store), node.key)
  {
    var tail := list[1..];
    assert list == [list[0]] + tail;
    assert list[0] in list && forall x :: x in tail ==> x in list;
    if list[0] == node {
      NotAgain(list);
      EntriesHaveTheKeys(tail, store, node.key);
      WithoutAbsent(Entries(tail, store), node.key);
    } else {
      EntriesWithout(tail, store, node);
    }
  }

  lemma NotAgain(list: seq<Node>)
    requires DistinctIds(list) && list != []
    ensures list[0] !in list[1..]
  {
    forall i | 0 <= i < |list[1..]|
      ensures list[1..][i] != list[0]
    {
      assert list[0].id != list[i + 1].id;
    }
  }

  // --- One call at a time ---

  // A key that is stored but not mapped, at the given place in a call.
  function Extra(task: Task): Option<string> {
    match task
    case SetErase(k, _) => Some(k)
    case SetEvictErase(_, _, victim) => Some(victim)
    case SetPublish(k, _, written) => if written then Some(k) else None
    case DeleteErase(k) => Some(k)
    case _ => None
  }

  /** Where a call that nobody interferes with stands, before being the entries at its start. */
  ghost predicate Stands(s: Shared, task: Task, before: seq<Item>) {
    var now := Entries(s.list, s.store);
    match task
    case Idle => now == before
    case SetHas(_, _) => now == before
    case SetUnlink(_, _) => now == before
    case SetErase(k, _) => now == Without(before, k) && k !in s.index
    case SetLock(k, _) => now == Without(before, k) && k !in s.store
    case SetEvict(k, v) =>
      s.maxSize > -1 && k !in s.store && Fit(now, s.maxSize - |v|) == Fit(Without(before, k), s.maxSize - |v|)
    case SetEvictErase(k, v, victim) =>
      && s.maxSize > -1 && k !in s.store && victim !in s.index
      && Fit(now, s.maxSize - |v|) == Fit(Without(before, k), s.maxSize - |v|)
    case SetReserve(k, v) => now == Kept(before, s.maxSize, k, |v|) && k !in s.store
    case SetWrite(k, v) =>
      now == Kept(before, s.maxSize, k, |v|) && k !in s.store && Admitted(before, s.maxSize, k, |v|)
    case SetPublish(k, v, written) =>
      && now == Kept(before, s.maxSize, k, |v|) && Admitted(before, s.maxSize, k, |v|) && k !in s.index
      && (if written then k in s.store && s.store[k] == v else k !in s.store)
    case GetLookup(_) => now == before
    case GetTouch(k, node) => now == before && k in s.index && s.index[k] == node
    case GetRead(k) => now == AfterGet(before, k)
    case DeleteUnlink(_) => now == before
    case DeleteErase(k) => now == Without(before, k) && k !in s.index
  }

  ghost predicate OthersIdle(s: Shared, t: nat) {
    forall u :: 0 <= u < |s.tasks| && u != t ==> s.tasks[u].Idle?
  }

  // Only t may be in a call, and its call stands as it should.
  ghost predicate Solo(s: Shared, t: nat, before: seq<Item>) {
    && t < |s.tasks| && ListIsSound(s) && CounterIsExact(s) && OthersIdle(s, t)
    && (s.holder == if s.tasks[t].SetEvict? || s.tasks[t].SetEvictErase? then Some(t) else None)
    && Matched(s.list, s.index, s.store) && StoreIsMapped(s.index, s.store, Extra(s.tasks[t]))
    && DistinctKeys(before) && Stands(s, s.tasks[t], before)
  }

  // The call a step completes.
  function Completed(task: Task): Option<Call> {
    match task
    case SetReserve(k, v) => Some(SetCall(k, v, true))
    case SetPublish(k, v, written) => Some(SetCall(k, v, written))
    case GetRead(k) => Some(GetCall(k))
    case DeleteErase(k) => Some(DeleteCall(k))
    case _ => None
  }

  lemma {:induction false} ReservedByOne(tasks: seq<Task>, t: nat)
    requires t < |tasks| && forall u :: 0 <= u < |tasks| && u != t ==> tasks[u].Idle?
    ensures Reserved(tasks) == Claim(tasks[t])
  {
    if t == 0 {
      NothingReserved(tasks[1..]);
    } else {
      ReservedByOne(tasks[1..], t - 1);
    }
  }

  lemma SoloTotal(s: Shared, t: nat, before: seq<Item>)
    requires Solo(s, t, before)
    ensures s.currentSize == Total(Entries(s.list, s.store)) + Claim(s.tasks[t])
  {
    ReservedByOne(s.tasks, t);
    EntriesTotal(s.list, s.store);
  }

  // --- The steps of a call ---

  lemma UnlistedKey(s: Shared, key: string)
    requires Matched(s.list, s.index, s.store) && key !in s.index
    ensures Without(Entries(s.list, s.store), key) == Entries(s.list, s.store)
    ensures !HasKey(Entries(s.list, s.store), key)
  {
    EntriesHaveTheKeys(s.list, s.store, key);
    WithoutAbsent(Entries(s.list, s.store), key);
  }

  lemma UnlinkKeepsMatched(s: Shared, key: string)
    requires ListIsSound(s) && Matched(s.list, s.index, s.store) && StoreIsMapped(s.index, s.store, None)
    ensures var after := Unlink(s, key);
            && Matched(after.list, after.index, s.store)
            && StoreIsMapped(after.index, s.store, Some(key)) && key !in after.index
            && Entries(after.list, s.store) == Without(Entries(s.list, s.store), key)
            && |after.list| <= |s.list| && (key in s.index ==> |after.list| < |s.list|)
  {
    if key in s.index {
      RemovalKeepsMatched(s.list, s.index, s.store, key);
      RemovalDropsEntry(s.list, s.index, s.store, key);
    } else {
      UnlistedKey(s, key);
    }
  }

  lemma RemovalKeepsMatched(list: seq<Node>, index: map<string, Node>, store: map<string, Bytes>, key: string)
    requires DistinctIds(list) && Matched(list, index, store)
    requires key in index && index[key] in list && index[key].key == key
    ensures Matched(Remove(list, index[key]), index - {key}, store)
    ensures |Remove(list, index[key])| < |list|
  {
    RemoveFacts(list, index[key]);
    assert forall x :: x in Remove(list, index[key]) ==> x in list && x.key != key;
  }

  lemma RemovalDropsEntry(list: seq<Node>, index: map<string, Node>, store: map<string, Bytes>, key: string)
    requires DistinctIds(list) && Matched(list, index, store)
    requires key in index && index[key] in list && index[key].key == key
    ensures Entries(Remove(list, index[key]), store) == Without(Entries(list, store), key)
  {
    assert forall x :: x in list && x.key == key ==> x == index[key];
    EntriesWithout(list, store, index[key]);
  }

  lemma EraseKeepsMatched(s: Shared, key: string)
    requires Matched(s.list, s.index, s.store) && StoreIsMapped(s.index, s.store, Some(key)) && key !in s.index
    ensures var store := s.store - {key};
            && Matched(s.list, s.index, store) && StoreIsMapped(s.index, store, None)
            && Entries(s.list, store) == Entries(s.list, s.store)
  {
    EntriesOfOther(s.list, s.store, s.store - {key});
  }

  lemma TouchKeepsMatched(s: Shared, key: string)
    requires ListIsSound(s) && Matched(s.list, s.index, s.store) && key in s.index
    ensures var touched := [s.index[key]] + Remove(s.list, s.index[key]);
            && Matched(touched, s.index, s.store)
            && Entries(touched, s.store) == AfterGet(Entries(s.list, s.store), key)
  {
    var node := s.index[key];
    var touched := [node] + Remove(s.list, node);
    RemoveFacts(s.list, node);
    EntriesWithout(s.list, s.store, node);
    EntriesAreDistinct(s.list, s.index, s.store);
    assert touched[1..] == Remove(s.list, node);
    var i :| 0 <= i < |s.list| && s.list[i] == node;
    EntriesAt(s.list, s.store, i);
    FindUnique(Entries(s.list, s.store), Entries(s.list, s.store)[i]);
  }

  lemma PublishKeepsMatched(s: Shared, node: Node, value: Bytes)
    requires Matched(s.list, s.index, s.store) && StoreIsMapped(s.index, s.store, Some(node.key))
    requires node.key !in s.index
    requires node.key in s.store && s.store[node.key] == value && node.size == |value|
    ensures Matched([node] + s.list, s.index[node.key := node], s.store)
    ensures Entries([node] + s.list, s.store) == [Item(node.key, value)] + Entries(s.list, s.store)
    ensures StoreIsMapped(s.index[node.key := node], s.store, None)
  {
    assert ([node] + s.list)[1..] == s.list;
  }

  lemma AdvanceKeepsList(s: Shared, t: nat, writeOk: bool)
    requires t < |s.tasks| && ListIsSound(s) && CounterIsExact(s)
    ensures ListIsSound(Next(s, t, writeOk)) && CounterIsExact(Next(s, t, writeOk))
  {
    ListStaysSound(s, t, writeOk);
    CounterStaysExact(s, t, writeOk);
  }

  // Steps t still needs to end its call alone.
  function StepsLeft(s: Shared, t: nat): nat
    requires t < |s.tasks|
  {
    var n := 2 * |s.list|;
    match s.tasks[t]
    case Idle => 0
    case SetHas(_, _) => n + 8
    case SetUnlink(_, _) => n + 7
    case SetErase(_, _) => n + 6
    case SetLock(_, _) => n + 5
    case SetEvict(_, _) => n + 4
    case SetEvictErase(_, _, _) => n + 5
    case SetReserve(_, _) => 3
    case SetWrite(_, _) => 2
    case SetPublish(_, _, _) => 1
    case GetLookup(_) => 3
    case GetTouch(_, _) => 2
    case GetRead(_) => 1
    case DeleteUnlink(_) => 2
    case DeleteErase(_) => 1
  }

  // The entries the call's start is to be compared with after the step.
  function Base(s: Shared, t: nat, after: Shared, before: seq<Item>): seq<Item>
    requires t < |s.tasks| && t < |after.tasks|
  {
    if !s.tasks[t].Idle? && after.tasks[t].Idle? && Completed(s.tasks[t]).Some?
    then After(before, s.maxSize, Completed(s.tasks[t]).value) else before
  }

  // What a step of t must do.
  ghost predicate Advanced(s: Shared, t: nat, after: Shared, before: seq<Item>)
    requires t < |s.tasks|
  {
    && |after.tasks| == |s.tasks| && after.maxSize == s.maxSize
    && Solo(after, t, Base(s, t, after, before)) && StepsLeft(after, t) < StepsLeft(s, t)
    && (after.tasks[t].Idle? ==> Completed(s.tasks[t]).Some?)
  }

  // The frame of every step: its effects are what remains to be shown.
  lemma Arrives(s: Shared, t: nat, after: Shared, task: Task, before: seq<Item>)
    requires Solo(s, t, before) && !s.tasks[t].Idle? && ListIsSound(after) && CounterIsExact(after)
    requires after.tasks == s.tasks[t := task] && after.maxSize == s.maxSize
    requires after.holder == if task.SetEvict? || task.SetEvictErase? then Some(t) else None
    requires Matched(after.list, after.index, after.store) && StoreIsMapped(after.index, after.store, Extra(task))
    requires task.Idle? ==> Completed(s.tasks[t]).Some?
    requires Stands(after, task, Base(s, t, after, before)) && StepsLeft(after, t) < StepsLeft(s, t)
    ensures Advanced(s, t, after, before)
  {
    assert DistinctKeys(Base(s, t, after, before)) by {
      if task.Idle? {
        AfterKeepsDistinct(before, s.maxSize, Completed(s.tasks[t]).value);
      }
    }
  }

  lemma AfterKeepsDistinct(items: seq<Item>, maxSize: int, call: Call)
    requires DistinctKeys(items)
    ensures DistinctKeys(After(items, maxSize, call))
  {
    match call {
      case SetCall(k, v, ok) => CallsKeepKeysDistinct(items, maxSize, k, v, ok);
      case GetCall(k) => CallsKeepKeysDistinct(items, maxSize, k, [], false);
      case DeleteCall(k) => CallsKeepKeysDistinct(items, maxSize, k, [], false);
      case DeleteAllCall =>
    }
  }

  lemma SoloSetHas(s: Shared, t: nat, before: seq<Item>, writeOk: bool)
    requires Solo(s, t, before) && s.tasks[t].SetHas?
    ensures Advanced(s, t, Next(s, t, writeOk), before)
  {
    AdvanceKeepsList(s, t, writeOk);
    var after := NextMakingRoom(s, t);
    if s.tasks[t].key !in s.store {
      assert s.tasks[t].key !in s.index by {
        IndexIsStored(s, s.tasks[t].key);
      }
      UnlistedKey(s, s.tasks[t].key);
    }
    Arrives(s, t, after, after.tasks[t], before);
  }

  lemma IndexIsStored(s: Shared, key: string)
    requires ListIsSound(s) && Matched(s.list, s.index, s.store)
    ensures key in s.index ==> key in s.store
  {
  }

  lemma SoloSetUnlink(s: Shared, t: nat, before: seq<Item>, writeOk: bool)
    requires Solo(s, t, before) && s.tasks[t].SetUnlink?
    ensures Advanced(s, t, Next(s, t, writeOk), before)
  {
    AdvanceKeepsList(s, t, writeOk);
    var key, value := s.tasks[t].key, s.tasks[t].value;
    UnlinkKeepsMatched(s, key);
    UnlinkStep(s, t, writeOk, SetErase(key, value));
    Arrives(s, t, Goto(Unlink(s, key), t, SetErase(key, value)), SetErase(key, value), before);
  }

  lemma SoloSetErase(s: Shared, t: nat, before: seq<Item>, writeOk: bool)
    requires Solo(s, t, before) && s.tasks[t].SetErase?
    ensures Advanced(s, t, Next(s, t, writeOk), before)
  {
    AdvanceKeepsList(s, t, writeOk);
    EraseKeepsMatched(s, s.tasks[t].key);
    var after := NextMakingRoom(s, t);
    Arrives(s, t, after, after.tasks[t], before);
  }

  lemma SoloSetLock(s: Shared, t: nat, before: seq<Item>, writeOk: bool)
    requires Solo(s, t, before) && s.tasks[t].SetLock?
    ensures Advanced(s, t, Next(s, t, writeOk), before)
  {
    AdvanceKeepsList(s, t, writeOk);
    var after := NextMakingRoom(s, t);
    Arrives(s, t, after, after.tasks[t], before);
  }

  // The back element goes, and what fits of the rest is unchanged.
  lemma EvictingBack(s: Shared, room: int)
    requires ListIsSound(s) && Matched(s.list, s.index, s.store) && s.list != []
    requires Total(Entries(s.list, s.store)) > room
    ensures var oldest := s.list[|s.list| - 1].key;
            && oldest in s.index
            && Fit(Without(Entries(s.list, s.store), oldest), room) == Fit(Entries(s.list, s.store), room)
  {
    EntriesAreDistinct(s.list, s.index, s.store);
    EntriesAt(s.list, s.store, |s.list| - 1);
    assert s.list[|s.list| - 1] in s.list;
    EvictOldest(Entries(s.list, s.store), room);
  }

  lemma SoloSetEvict(s: Shared, t: nat, before: seq<Item>, writeOk: bool)
    requires Solo(s, t, before) && s.tasks[t].SetEvict? && NeedsRoom(s, t)
    ensures Advanced(s, t, Next(s, t, writeOk), before)
  {
    AdvanceKeepsList(s, t, writeOk);
    EvictStep(s, t, writeOk);
    EvictAdvances(s, t, Next(s, t, writeOk), before);
  }

  lemma EvictAdvances(s: Shared, t: nat, after: Shared, before: seq<Item>)
    requires Solo(s, t, before) && s.tasks[t].SetEvict? && NeedsRoom(s, t)
    requires ListIsSound(after) && CounterIsExact(after)
    requires var oldest := s.list[|s.list| - 1].key;
             after == Goto(Unlink(s, oldest), t, SetEvictErase(s.tasks[t].key, s.tasks[t].value, oldest))
    ensures Advanced(s, t, after, before)
  {
    var unlinked := Unlink(s, s.list[|s.list| - 1].key);
    EvictStands(s, t, before);
    assert after.list == unlinked.list && after.index == unlinked.index && after.store == s.store;
    EvictArrives(s, t, after, s.list[|s.list| - 1].key, before);
  }

  lemma EvictStands(s: Shared, t: nat, before: seq<Item>)
    requires Solo(s, t, before) && s.tasks[t].SetEvict? && NeedsRoom(s, t)
    ensures var oldest := s.list[|s.list| - 1].key;
            var unlinked := Unlink(s, oldest);
            && unlinked == s.(list := unlinked.list, index := unlinked.index, currentSize := unlinked.currentSize)
            && Matched(unlinked.list, unlinked.index, s.store) && StoreIsMapped(unlinked.index, s.store, Some(oldest))
            && oldest !in unlinked.index && |unlinked.list| < |s.list|
            && SameFit(Entries(unlinked.list, s.store), s.maxSize, s.tasks[t], before)
  {
    var value, oldest := s.tasks[t].value, s.list[|s.list| - 1].key;
    SoloTotal(s, t, before);
    EvictingBack(s, s.maxSize - |value|);
    UnlinkKeepsMatched(s, oldest);
  }

  // What fits is what fitted at the start.
  ghost predicate SameFit(now: seq<Item>, maxSize: int, task: Task, before: seq<Item>)
    requires task.SetEvict?
  {
    Fit(now, maxSize - |task.value|) == Fit(Without(before, task.key), maxSize - |task.value|)
  }

  lemma EvictArrives(s: Shared, t: nat, after: Shared, victim: string, before: seq<Item>)
    requires Solo(s, t, before) && s.tasks[t].SetEvict? && ListIsSound(after) && CounterIsExact(after)
    requires after == s.(list := after.list, index := after.index, currentSize := after.currentSize,
                         tasks := s.tasks[t := SetEvictErase(s.tasks[t].key, s.tasks[t].value, victim)])
    requires Matched(after.list, after.index, after.store) && StoreIsMapped(after.index, after.store, Some(victim))
    requires victim !in after.index && |after.list| < |s.list|
    requires SameFit(Entries(after.list, after.store), s.maxSize, s.tasks[t], before)
    ensures Advanced(s, t, after, before)
  {
    var task := SetEvictErase(s.tasks[t].key, s.tasks[t].value, victim);
    EvictKeepsStanding(s, after, s.tasks[t], task, before);
    assert Base(s, t, after, before) == before;
    Arrives(s, t, after, task, before);
  }

  lemma EvictKeepsStanding(s: Shared, after: Shared, task: Task, task': Task, before: seq<Item>)
    requires task.SetEvict? && task'.SetEvictErase? && task'.key == task.key && task'.value == task.value
    requires Stands(s, task, before) && after.store == s.store && after.maxSize == s.maxSize
    requires task'.victim !in after.index && SameFit(Entries(after.list, after.store), s.maxSize, task, before)
    ensures Stands(after, task', before)
  {
  }

  lemma SoloSetFits(s: Shared, t: nat, before: seq<Item>, writeOk: bool)
    requires Solo(s, t, before) && s.tasks[t].SetEvict? && !NeedsRoom(s, t)
    ensures Advanced(s, t, Next(s, t, writeOk), before)
  {
    AdvanceKeepsList(s, t, writeOk);
    var key, value := s.tasks[t].key, s.tasks[t].value;
    SoloTotal(s, t, before);
    if s.currentSize + |value| <= s.maxSize {
      FitAll(Entries(s.list, s.store), s.maxSize - |value|);
    }
    EvictExit(s, t, writeOk);
    Arrives(s, t, Goto(s.(holder := None), t, SetReserve(key, value)), SetReserve(key, value), before);
  }

  lemma SoloSetEvictErase(s: Shared, t: nat, before: seq<Item>, writeOk: bool)
    requires Solo(s, t, before) && s.tasks[t].SetEvictErase?
    ensures Advanced(s, t, Next(s, t, writeOk), before)
  {
    AdvanceKeepsList(s, t, writeOk);
    var victim := s.tasks[t].victim;
    var task := SetEvict(s.tasks[t].key, s.tasks[t].value);
    EraseKeepsMatched(s, victim);
    EraseStep(s, t, writeOk);
    Arrives(s, t, Goto(s.(store := s.store - {victim}), t, task), task, before);
  }

  lemma SoloSetReserve(s: Shared, t: nat, before: seq<Item>, writeOk: bool)
    requires Solo(s, t, before) && s.tasks[t].SetReserve?
    ensures Advanced(s, t, Next(s, t, writeOk), before)
  {
    AdvanceKeepsList(s, t, writeOk);
    SoloTotal(s, t, before);
    var key, value := s.tasks[t].key, s.tasks[t].value;
    var fits := s.currentSize + |value| <= s.maxSize;
    assert fits <==> Admitted(before, s.maxSize, key, |value|);
    ReserveStep(s, t, writeOk);
    if fits {
      var claimed := s.(currentSize := s.currentSize + |value|);
      Arrives(s, t, Goto(claimed, t, SetWrite(key, value)), SetWrite(key, value), before);
    } else {
      Arrives(s, t, Goto(s, t, Idle), Idle, before);
    }
  }

  lemma ReserveStep(s: Shared, t: nat, writeOk: bool)
    requires t < |s.tasks| && s.tasks[t].SetReserve? && s.holder.None?
    ensures var key, value := s.tasks[t].key, s.tasks[t].value;
            Next(s, t, writeOk)
            == if s.currentSize + |value| <= s.maxSize
               then Goto(s.(currentSize := s.currentSize + |value|), t, SetWrite(key, value)) else Goto(s, t, Idle)
  {
    assert Next(s, t, writeOk) == NextStoring(s, t, writeOk);
  }

  lemma SoloSetWrite(s: Shared, t: nat, before: seq<Item>, writeOk: bool)
    requires Solo(s, t, before) && s.tasks[t].SetWrite?
    ensures Advanced(s, t, Next(s, t, writeOk), before)
  {
    AdvanceKeepsList(s, t, writeOk);
    var key, value := s.tasks[t].key, s.tasks[t].value;
    IndexIsStored(s, key);
    WriteKeepsMatched(s, key, value);
    WriteStep(s, t, writeOk);
    var written := if writeOk then s.(store := s.store[key := value]) else s;
    Arrives(s, t, Goto(written, t, SetPublish(key, value, writeOk)), SetPublish(key, value, writeOk), before);
  }

  lemma WriteStep(s: Shared, t: nat, writeOk: bool)
    requires t < |s.tasks| && s.tasks[t].SetWrite?
    ensures var key, value := s.tasks[t].key, s.tasks[t].value;
            Next(s, t, writeOk)
            == Goto(if writeOk then s.(store := s.store[key := value]) else s, t, SetPublish(key, value, writeOk))
  {
    assert Next(s, t, writeOk) == NextStoring(s, t, writeOk);
  }

  lemma WriteKeepsMatched(s: Shared, key: string, value: Bytes)
    requires Matched(s.list, s.index, s.store) && StoreIsMapped(s.index, s.store, None) && key !in s.index
    ensures var store := s.store[key := value];
            && Matched(s.list, s.index, store) && StoreIsMapped(s.index, store, Some(key))
            && Entries(s.list, store) == Entries(s.list, s.store)
  {
    EntriesOfOther(s.list, s.store, s.store[key := value]);
  }

  lemma SoloSetPublish(s: Shared, t: nat, before: seq<Item>, writeOk: bool)
    requires Solo(s, t, before) && s.tasks[t].SetPublish?
    ensures Advanced(s, t, Next(s, t, writeOk), before)
  {
    AdvanceKeepsList(s, t, writeOk);
    var key, value := s.tasks[t].key, s.tasks[t].value;
    if s.tasks[t].written {
      PublishKeepsMatched(s, Node(s.nextId, key, |value|), value);
    }
    var after := NextStoring(s, t, writeOk);
    Arrives(s, t, after, Idle, before);
  }

  lemma SoloGetLookup(s: Shared, t: nat, before: seq<Item>, writeOk: bool)
    requires Solo(s, t, before) && s.tasks[t].GetLookup?
    ensures Advanced(s, t, Next(s, t, writeOk), before)
  {
    AdvanceKeepsList(s, t, writeOk);
    var key := s.tasks[t].key;
    if key !in s.index {
      UnlistedKey(s, key);
      FindIsMembership(Entries(s.list, s.store), key);
    }
    var after := NextReadingOrDeleting(s, t);
    Arrives(s, t, after, after.tasks[t], before);
  }

  lemma SoloGetTouch(s: Shared, t: nat, before: seq<Item>, writeOk: bool)
    requires Solo(s, t, before) && s.tasks[t].GetTouch?
    ensures Advanced(s, t, Next(s, t, writeOk), before)
  {
    AdvanceKeepsList(s, t, writeOk);
    TouchKeepsMatched(s, s.tasks[t].key);
    var after := NextReadingOrDeleting(s, t);
    Arrives(s, t, after, after.tasks[t], before);
  }

  lemma SoloDeleteUnlink(s: Shared, t: nat, before: seq<Item>, writeOk: bool)
    requires Solo(s, t, before) && s.tasks[t].DeleteUnlink?
    ensures Advanced(s, t, Next(s, t, writeOk), before)
  {
    AdvanceKeepsList(s, t, writeOk);
    var key := s.tasks[t].key;
    UnlinkKeepsMatched(s, key);
    UnlinkStep(s, t, writeOk, DeleteErase(key));
    Arrives(s, t, Goto(Unlink(s, key), t, DeleteErase(key)), DeleteErase(key), before);
  }

  lemma SoloLast(s: Shared, t: nat, before: seq<Item>, writeOk: bool)
    requires Solo(s, t, before) && (s.tasks[t].GetRead? || s.tasks[t].DeleteErase?)
    ensures Advanced(s, t, Next(s, t, writeOk), before)
  {
    AdvanceKeepsList(s, t, writeOk);
    if s.tasks[t].DeleteErase? {
      EraseKeepsMatched(s, s.tasks[t].key);
    }
    var after := NextReadingOrDeleting(s, t);
    Arrives(s, t, after, Idle, before);
  }

  lemma SoloAdvance(s: Shared, t: nat, before: seq<Item>, writeOk: bool)
    requires Solo(s, t, before) && !s.tasks[t].Idle?
    ensures Advanced(s, t, Next(s, t, writeOk), before)
  {
    match s.tasks[t] {
      case SetHas(_, _) => SoloSetHas(s, t, before, writeOk);
      case SetUnlink(_, _) => SoloSetUnlink(s, t, before, writeOk);
      case SetErase(_, _) => SoloSetErase(s, t, before, writeOk);
      case SetLock(_, _) => SoloSetLock(s, t, before, writeOk);
      case SetEvict(_, _) =>
        if NeedsRoom(s, t) {
          SoloSetEvict(s, t, before, writeOk);
        } else {
          SoloSetFits(s, t, before, writeOk);
        }
      case SetEvictErase(_, _, _) => SoloSetEvictErase(s, t, before, writeOk);
      case SetReserve(_, _) => SoloSetReserve(s, t, before, writeOk);
      case SetWrite(_, _) => SoloSetWrite(s, t, before, writeOk);
      case SetPublish(_, _, _) => SoloSetPublish(s, t, before, writeOk);
      case GetLookup(_) => SoloGetLookup(s, t, before, writeOk);
      case GetTouch(_, _) => SoloGetTouch(s, t, before, writeOk);
      case DeleteUnlink(_) => SoloDeleteUnlink(s, t, before, writeOk);
      case _ => SoloLast(s, t, before, writeOk);
    }
  }
}
