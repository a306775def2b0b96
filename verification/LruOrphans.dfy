/**
 Elements of a shared LRUCache's list that its map has lost: they stay for ever, and what they
 cost is settled by when the byte counter equals the bytes stored.
 */
module LruOrphans {
  import opened Prelude
  import opened LruThreads
  import opened LruEviction

  // A listed element that is not the one its key maps to.
  ghost predicate Orphan(s: Shared, node: Node) {
    node in s.list && (node.key in s.index ==> s.index[node.key] != node)
  }

  // --- Orphans stay ---

  lemma UnlinkKeepsOrphan(s: Shared, key: string, node: Node)
    requires ListIsSound(s) && Orphan(s, node)
    ensures Orphan(Unlink(s, key), node)
  {
    if key in s.index {
      RemoveFacts(s.list, s.index[key]);
    }
  }

  // Making room unlinks one key at most.
  lemma MakingRoomUnlinks(s: Shared, t: nat) returns (key: string)
    requires t < |s.tasks| && MakesRoom(s.tasks[t])
    ensures var after := NextMakingRoom(s, t);
            (after.list == s.list && after.index == s.index)
            || (after.list == Unlink(s, key).list && after.index == Unlink(s, key).index)
  {
    key := s.tasks[t].key;
    if s.tasks[t].SetEvict? && s.list != [] {
      key := s.list[|s.list| - 1].key;
    }
  }

  lemma OrphanWhileMakingRoom(s: Shared, t: nat, node: Node)
    requires t < |s.tasks| && MakesRoom(s.tasks[t]) && ListIsSound(s) && Orphan(s, node)
    ensures Orphan(NextMakingRoom(s, t), node)
  {
    var key := MakingRoomUnlinks(s, t);
    UnlinkKeepsOrphan(s, key, node);
  }

  lemma OrphanWhileStoring(s: Shared, t: nat, writeOk: bool, node: Node)
    requires t < |s.tasks| && Stores(s.tasks[t]) && ListIsSound(s) && Orphan(s, node)
    ensures Orphan(NextStoring(s, t, writeOk), node)
  {
    assert node.id < s.nextId;
  }

  lemma OrphanWhileReadingOrDeleting(s: Shared, t: nat, node: Node)
    requires t < |s.tasks| && !MakesRoom(s.tasks[t]) && !Stores(s.tasks[t]) && ListIsSound(s) && Orphan(s, node)
    ensures Orphan(NextReadingOrDeleting(s, t), node)
  {
    if s.tasks[t].DeleteUnlink? {
      UnlinkKeepsOrphan(s, s.tasks[t].key, node);
    } else {
      ReadingKeepsList(s, t, node);
    }
  }

  lemma ReadingKeepsList(s: Shared, t: nat, node: Node)
    requires t < |s.tasks| && !MakesRoom(s.tasks[t]) && !Stores(s.tasks[t]) && !s.tasks[t].DeleteUnlink?
    requires ListIsSound(s) && node in s.list
    ensures node in NextReadingOrDeleting(s, t).list && NextReadingOrDeleting(s, t).index == s.index
  {
    if s.tasks[t].GetTouch? {
      RemoveFacts(s.list, s.tasks[t].node);
    }
  }

  lemma OrphanStep(s: Shared, move: Move, node: Node)
    requires ListIsSound(s) && Orphan(s, node)
    ensures Orphan(Step(s, move), node)
  {
    var t := move.thread;
    if t < |s.tasks| && move.choice.Advance? {
      if MakesRoom(s.tasks[t]) {
        OrphanWhileMakingRoom(s, t, node);
      } else if Stores(s.tasks[t]) {
        OrphanWhileStoring(s, t, move.choice.writeOk, node);
      } else {
        OrphanWhileReadingOrDeleting(s, t, node);
      }
    }
  }

  /** Once an orphan, always an orphan: no schedule of Sets, Gets and Deletes unlists the element
      or maps its key to it again. */
  lemma {:induction false} OrphansStay(s: Shared, schedule: seq<Move>, node: Node)
    requires Inv(s) && Orphan(s, node)
    ensures Orphan(Exec(s, schedule), node)
    decreases |schedule|
  {
    if schedule != [] {
      OrphanStep(s, schedule[0], node);
      StepKeepsInv(s, schedule[0]);
      OrphansStay(Step(s, schedule[0]), schedule[1..], node);
    }
  }

  // --- When orphans arise ---

  ghost predicate NoOrphans(s: Shared) {
    forall node :: node in s.list ==> node.key in s.index && s.index[node.key] == node
  }

  // The move lists a new element after a successful write.
  predicate Publishes(s: Shared, move: Move) {
    && move.thread < |s.tasks| && move.choice.Advance? && s.holder.None?
    && s.tasks[move.thread].SetPublish? && s.tasks[move.thread].written
  }

  predicate SafeToPublish(s: Shared, t: nat)
    requires t < |s.tasks| && s.tasks[t].SetPublish?
  {
    s.tasks[t].key !in s.index
  }

  lemma PublishStep(s: Shared, move: Move)
    requires Publishes(s, move) && ListIsSound(s) && NoOrphans(s)
    ensures NoOrphans(Step(s, move)) <==> SafeToPublish(s, move.thread)
  {
    var key := s.tasks[move.thread].key;
    var after := NextStoring(s, move.thread, move.choice.writeOk);
    var node := Node(s.nextId, key, |s.tasks[move.thread].value|);
    assert after.list == [node] + s.list && after.index == s.index[key := node];
    if key in s.index {
      var mapped := s.index[key];
      assert mapped in after.list && mapped.key == key && mapped.id != node.id;
    }
  }

  lemma UnlinkKeepsNoOrphans(s: Shared, key: string)
    requires ListIsSound(s) && NoOrphans(s)
    ensures NoOrphans(Unlink(s, key))
  {
    if key in s.index {
      RemoveFacts(s.list, s.index[key]);
    }
  }

  lemma OtherStepsWhileMakingRoom(s: Shared, t: nat)
    requires t < |s.tasks| && MakesRoom(s.tasks[t]) && ListIsSound(s) && NoOrphans(s)
    ensures NoOrphans(NextMakingRoom(s, t))
  {
    var key := MakingRoomUnlinks(s, t);
    UnlinkKeepsNoOrphans(s, key);
  }

  lemma OtherStepsWhileReading(s: Shared, t: nat)
    requires t < |s.tasks| && !MakesRoom(s.tasks[t]) && !Stores(s.tasks[t]) && ListIsSound(s) && NoOrphans(s)
    ensures NoOrphans(NextReadingOrDeleting(s, t))
  {
    if s.tasks[t].DeleteUnlink? {
      UnlinkKeepsNoOrphans(s, s.tasks[t].key);
    } else if s.tasks[t].GetTouch? && s.tasks[t].node in s.list {
      RemoveFacts(s.list, s.tasks[t].node);
    }
  }

  lemma OtherSteps(s: Shared, move: Move)
    requires ListIsSound(s) && NoOrphans(s) && !Publishes(s, move)
    ensures NoOrphans(Step(s, move))
  {
    var t := move.thread;
    if t < |s.tasks| && move.choice.Advance? {
      if MakesRoom(s.tasks[t]) {
        OtherStepsWhileMakingRoom(s, t);
      } else if Stores(s.tasks[t]) {
        assert NextStoring(s, t, move.choice.writeOk).list == s.list;
      } else {
        OtherStepsWhileReading(s, t);
      }
    }
  }

  ghost predicate NeverAnOrphan(s: Shared, schedule: seq<Move>)
    decreases |schedule|
  {
    NoOrphans(s) && (schedule == [] || NeverAnOrphan(Step(s, schedule[0]), schedule[1..]))
  }

  ghost predicate PublicationsAreSafe(s: Shared, schedule: seq<Move>)
    decreases |schedule|
  {
    schedule == [] ||
    (&& (Publishes(s, schedule[0]) ==> SafeToPublish(s, schedule[0].thread))
     && PublicationsAreSafe(Step(s, schedule[0]), schedule[1..]))
  }

  /** No orphan is ever listed during a schedule if and only if every publication in it finds its
      key unmapped. */
  lemma {:induction false} NoOrphansIffSafePublications(s: Shared, schedule: seq<Move>)
    requires Inv(s) && NoOrphans(s)
    ensures NeverAnOrphan(s, schedule) <==> PublicationsAreSafe(s, schedule)
    decreases |schedule|
  {
    if schedule != [] {
      var move := schedule[0];
      if Publishes(s, move) {
        PublishStep(s, move);
      } else {
        OtherSteps(s, move);
      }
      StepKeepsInv(s, move);
      if NoOrphans(Step(s, move)) {
        NoOrphansIffSafePublications(Step(s, move), schedule[1..]);
      }
    }
  }

  /** While there is no orphan, an eviction that lets its thread move often enough ends. */
  lemma EvictionsEndWithoutOrphans(s: Shared, t: nat, schedule: seq<Move>)
    requires Inv(s) && NoOrphans(s) && t < |s.tasks| && s.tasks[t].SetEvict?
    requires Advances(schedule, t) >= 2 * |s.list| + 1
    ensures Leaves(s, t, schedule, s.tasks[t].key, s.tasks[t].value)
  {
    EvictionEndsOrSticks(s, t, schedule);
    MappedListFrees(s.list, s.index, Excess(s, t));
  }

  // --- When the counter is exact ---

  ghost predicate DistinctIds(list: seq<Node>) {
    forall i, j :: 0 <= i < j < |list| ==> list[i].id != list[j].id
  }

  // Every element that counts stands for a stored value of its size, and no two for the same key.
  ghost predicate CountsOnce(list: seq<Node>, store: map<string, Bytes>) {
    forall node :: node in list && node.size > 0 ==>
      && node.key in store && |store[node.key]| == node.size
      && forall other :: other in list && other.size > 0 && other.key == node.key ==> other == node
  }

  // Every stored value is listed at its size.
  ghost predicate AllListed(list: seq<Node>, store: map<string, Bytes>) {
    forall key :: key in store ==> exists node :: node in list && node.key == key && node.size == |store[key]|
  }

  lemma {:induction false} ZeroSum(list: seq<Node>)
    ensures SumSizes(list) == 0 <==> forall node :: node in list ==> node.size == 0
  {
    if list != [] {
      ZeroSum(list[1..]);
      assert list == [list[0]] + list[1..];
      assert list[0] in list;
    }
  }

  lemma AllListedElsewhere(list: seq<Node>, store: map<string, Bytes>, key: string, node: Node)
    requires DistinctIds(list)
    requires AllListed(list, store) && node.key == key
    ensures AllListed(Remove(list, node), store - {key})
  {
    RemoveFacts(list, node);
    forall k | k in store - {key}
      ensures exists other :: other in Remove(list, node) && other.key == k && other.size == |store[k]|
    {
      var other :| other in list && other.key == k && other.size == |store[k]|;
      assert other in Remove(list, node);
    }
  }

  lemma CountsOnceElsewhere(list: seq<Node>, store: map<string, Bytes>, key: string, node: Node)
    requires DistinctIds(list)
    requires key in store && node in list && node.key == key && node.size == |store[key]|
    ensures CountsOnce(list, store) <==> CountsOnce(Remove(list, node), store - {key})
  {
    RemoveFacts(list, node);
    var rest := Remove(list, node);
    if CountsOnce(list, store) {
      forall x | x in rest && x.size > 0
        ensures x.key in store - {key}
      {
        assert x in list;
      }
    }
    if CountsOnce(rest, store - {key}) {
      forall x | x in list && x.size > 0 && x != node
        ensures x in rest && x.key in store && x.key != key && |store[x.key]| == x.size
      {
      }
    }
  }

  /** When every stored value is listed at its size, the listed sizes sum to the bytes stored if
      and only if every element that counts stands for one stored value of its own. */
  lemma {:induction false} ListedIsStoredIff(list: seq<Node>, store: map<string, Bytes>)
    requires DistinctIds(list) && AllListed(list, store)
    ensures StoreBytes(store) == SumSizes(list) <==> CountsOnce(list, store)
    decreases |store|
  {
    if store == map[] {
      ZeroSum(list);
    } else {
      var node := OneSetAside(list, store);
      ListedIsStoredIff(Remove(list, node), store - {node.key});
    }
  }

  lemma OneSetAside(list: seq<Node>, store: map<string, Bytes>) returns (node: Node)
    requires DistinctIds(list) && AllListed(list, store) && store != map[]
    ensures var list', store' := Remove(list, node), store - {node.key};
            && DistinctIds(list') && AllListed(list', store') && |store'| < |store|
            && StoreBytes(store) - SumSizes(list) == StoreBytes(store') - SumSizes(list')
            && (CountsOnce(list, store) <==> CountsOnce(list', store'))
  {
    var key :| key in store;
    node := ListedElement(list, store, key);
    SetAside(list, store, key, node);
    AllListedElsewhere(list, store, key, node);
    CountsOnceElsewhere(list, store, key, node);
  }

  lemma ListedElement(list: seq<Node>, store: map<string, Bytes>, key: string) returns (node: Node)
    requires AllListed(list, store) && key in store
    ensures node in list && node.key == key && node.size == |store[key]|
  {
    node :| node in list && node.key == key && node.size == |store[key]|;
  }

  // Setting a stored value and an element listing it aside keeps the sums equal or different.
  lemma SetAside(list: seq<Node>, store: map<string, Bytes>, key: string, node: Node)
    requires DistinctIds(list)
    requires key in store && node in list && node.key == key && node.size == |store[key]|
    ensures DistinctIds(Remove(list, node))
    ensures StoreBytes(store) - SumSizes(list) == StoreBytes(store - {key}) - SumSizes(Remove(list, node))
  {
    StoreBytesSplit(store, key);
    RemoveFacts(list, node);
  }

  ghost predicate AllIdle(s: Shared) {
    forall t :: 0 <= t < |s.tasks| ==> s.tasks[t].Idle?
  }

  lemma IdleIsListed(s: Shared)
    requires Inv(s) && AllIdle(s)
    ensures AllListed(s.list, s.store) && s.currentSize == SumSizes(s.list)
  {
    NothingReserved(s.tasks);
    forall key | key in s.store
      ensures exists node :: node in s.list && node.key == key && node.size == |s.store[key]|
    {
      assert Justified(s, key);
    }
  }

  /** In every idle state a schedule reaches, the counter equals the bytes stored if and only if
      every listed element of positive size has its key stored at that size and shares the key
      with no other such element. */
  lemma CounterIsStoredIff(s: Shared, schedule: seq<Move>)
    requires Inv(s) && AllIdle(Exec(s, schedule))
    ensures var after := Exec(s, schedule);
            StoreBytes(after.store) == after.currentSize <==> CountsOnce(after.list, after.store)
  {
    EveryScheduleIsSafe(s, schedule);
    IdleIsListed(Exec(s, schedule));
    ListedIsStoredIff(Exec(s, schedule).list, Exec(s, schedule).store);
  }

  // --- What an orphan costs ---

  ghost predicate Publishing(s: Shared, key: string) {
    exists t :: 0 <= t < |s.tasks| && s.tasks[t].SetPublish? && s.tasks[t].written && s.tasks[t].key == key
  }

  // A stored key is mapped, about to be mapped, or about to be erased.
  ghost predicate Tracked(s: Shared, key: string) {
    key in s.index || Publishing(s, key) || Doomed(s, key)
  }

  ghost predicate StoreIsTracked(s: Shared) {
    forall key :: key in s.store ==> Tracked(s, key)
  }

  lemma TrackSurvives(s: Shared, after: Shared, t: nat, task: Task, key: string)
    requires t < |s.tasks| && after.tasks == s.tasks[t := task] && Tracked(s, key)
    requires !Erasing(s.tasks[t], key)
    requires key in s.index ==> key in after.index || Erasing(task, key)
    requires s.tasks[t].SetPublish? && s.tasks[t].written && s.tasks[t].key == key ==>
      key in after.index || task == s.tasks[t]
    ensures Tracked(after, key)
  {
    if Erasing(task, key) {
      assert Erasing(after.tasks[t], key);
    } else if key !in after.index {
      if Publishing(s, key) {
        var u :| 0 <= u < |s.tasks| && s.tasks[u].SetPublish? && s.tasks[u].written && s.tasks[u].key == key;
        assert after.tasks[u] == s.tasks[u];
      } else {
        var u :| 0 <= u < |s.tasks| && Erasing(s.tasks[u], key);
        assert after.tasks[u] == s.tasks[u];
      }
    }
  }

  // The steps that neither erase nor write.
  lemma TrackedAtRest(s: Shared, after: Shared, t: nat, task: Task)
    requires t < |s.tasks| && after.tasks == s.tasks[t := task] && after.store == s.store && StoreIsTracked(s)
    requires forall key :: !Erasing(s.tasks[t], key)
    requires forall key :: key in s.index ==> key in after.index || Erasing(task, key)
    requires s.tasks[t].SetPublish? && s.tasks[t].written ==> s.tasks[t].key in after.index || task == s.tasks[t]
    ensures StoreIsTracked(after)
  {
    forall key | key in after.store
      ensures Tracked(after, key)
    {
      TrackSurvives(s, after, t, task, key);
    }
  }

  lemma TrackedWhileErasing(s: Shared, victim: string, t: nat, task: Task)
    requires t < |s.tasks| && Erasing(s.tasks[t], victim) && StoreIsTracked(s)
    ensures StoreIsTracked(Goto(s.(store := s.store - {victim}), t, task))
  {
    var after := Goto(s.(store := s.store - {victim}), t, task);
    forall key | key in after.store
      ensures Tracked(after, key)
    {
      TrackSurvives(s, after, t, task, key);
    }
  }

  lemma TrackedWhileMakingRoom(s: Shared, t: nat)
    requires t < |s.tasks| && MakesRoom(s.tasks[t]) && StoreIsTracked(s)
    ensures StoreIsTracked(NextMakingRoom(s, t))
  {
    var after := NextMakingRoom(s, t);
    var task := after.tasks[t];
    assert s.tasks[t := s.tasks[t]] == s.tasks;
    match s.tasks[t] {
      case SetErase(k, _) => TrackedWhileErasing(s, k, t, task);
      case SetEvictErase(_, _, victim) => TrackedWhileErasing(s, victim, t, task);
      case _ => TrackedAtRest(s, after, t, task);
    }
  }

  lemma TrackedWhileStoring(s: Shared, t: nat, writeOk: bool)
    requires t < |s.tasks| && Stores(s.tasks[t]) && StoreIsTracked(s)
    ensures StoreIsTracked(NextStoring(s, t, writeOk))
  {
    var after := NextStoring(s, t, writeOk);
    var task := after.tasks[t];
    assert s.tasks[t := s.tasks[t]] == s.tasks;
    assert after.tasks == s.tasks[t := task];
    forall key | key in after.store
      ensures Tracked(after, key)
    {
      if s.tasks[t].SetWrite? && key == s.tasks[t].key && writeOk {
        assert after.tasks[t] == SetPublish(key, s.tasks[t].value, true);
      } else {
        TrackSurvives(s, after, t, task, key);
      }
    }
  }

  lemma TrackedWhileReadingOrDeleting(s: Shared, t: nat)
    requires t < |s.tasks| && !MakesRoom(s.tasks[t]) && !Stores(s.tasks[t]) && StoreIsTracked(s)
    ensures StoreIsTracked(NextReadingOrDeleting(s, t))
  {
    var after := NextReadingOrDeleting(s, t);
    var task := after.tasks[t];
    assert s.tasks[t := s.tasks[t]] == s.tasks;
    if s.tasks[t].DeleteErase? {
      TrackedWhileErasing(s, s.tasks[t].key, t, task);
    } else {
      TrackedAtRest(s, after, t, task);
    }
  }

  lemma TrackedStep(s: Shared, move: Move)
    requires StoreIsTracked(s)
    ensures StoreIsTracked(Step(s, move))
  {
    var t := move.thread;
    if t < |s.tasks| {
      if !move.choice.Advance? {
        if s.tasks[t].Idle? {
          TrackedAtRest(s, Step(s, move), t, Step(s, move).tasks[t]);
        }
      } else if MakesRoom(s.tasks[t]) {
        TrackedWhileMakingRoom(s, t);
      } else if Stores(s.tasks[t]) {
        TrackedWhileStoring(s, t, move.choice.writeOk);
      } else {
        TrackedWhileReadingOrDeleting(s, t);
      }
    }
  }

  /** Under every schedule a stored key is mapped, about to be mapped or about to be erased; so
      whenever all threads are idle every stored key is mapped. */
  lemma {:induction false} StoreStaysTracked(s: Shared, schedule: seq<Move>)
    requires StoreIsTracked(s)
    ensures StoreIsTracked(Exec(s, schedule))
    ensures AllIdle(Exec(s, schedule)) ==> forall key :: key in Exec(s, schedule).store ==>
        key in Exec(s, schedule).index
    decreases |schedule|
  {
    if schedule != [] {
      TrackedStep(s, schedule[0]);
      StoreStaysTracked(Step(s, schedule[0]), schedule[1..]);
    }
  }

  /** For good: after a schedule that leaves an orphan of positive size, every further schedule
      that ends with all threads idle and no empty element listed has the counter strictly above
      the bytes stored. */
  lemma OrphanCostsForGood(s: Shared, schedule: seq<Move>, node: Node)
    requires Inv(s) && StoreIsTracked(s) && Orphan(s, node)
    requires var after := Exec(s, schedule); AllIdle(after) && forall n :: n in after.list ==> n.size > 0
    ensures Orphan(Exec(s, schedule), node)
    ensures StoreBytes(Exec(s, schedule).store) < Exec(s, schedule).currentSize
  {
    var after := Exec(s, schedule);
    OrphansStay(s, schedule, node);
    EveryScheduleIsSafe(s, schedule);
    StoreStaysTracked(s, schedule);
    CounterIsStoredIff(s, schedule);
    IdleIsListed(after);
    ListCoversStore(after.list, after.store);
    OrphanIsNotCounted(after, node);
  }

  lemma OrphanIsNotCounted(s: Shared, node: Node)
    requires ListIsSound(s) && Orphan(s, node) && forall key :: key in s.store ==> key in s.index
    requires forall n :: n in s.list ==> n.size > 0
    ensures !CountsOnce(s.list, s.store)
  {
    if node.key in s.store {
      var mapped := s.index[node.key];
      assert mapped in s.list && mapped.key == node.key && mapped != node;
    }
  }

  lemma OneByteStored(s: Shared)
    requires s.list == [Node(1, "k", 1), Node(0, "k", 1)] && s.index == map["k" := Node(1, "k", 1)]
    requires s.store == map["k" := [0]] && s.tasks == [Idle, Idle]
    ensures AllIdle(s) && Orphan(s, Node(0, "k", 1)) && StoreBytes(s.store) == 1
  {
    assert s.list[1] == Node(0, "k", 1);
    StoreBytesSplit(s.store, "k");
    assert s.store - {"k"} == map[];
  }

  // An orphan's cost, as an implication.
  lemma OrphanCosts(s: Shared, more: seq<Move>, node: Node)
    requires Inv(s) && StoreIsTracked(s) && Orphan(s, node)
    ensures Orphan(Exec(s, more), node)
    ensures AllIdle(Exec(s, more)) && (forall n :: n in Exec(s, more).list ==> n.size > 0) ==>
      StoreBytes(Exec(s, more).store) < Exec(s, more).currentSize
  {
    OrphansStay(s, more, node);
    if AllIdle(Exec(s, more)) && forall n :: n in Exec(s, more).list ==> n.size > 0 {
      OrphanCostsForGood(s, more, node);
    }
  }

  lemma ReachableIsTracked(maxSize: int, threads: nat, schedule: seq<Move>, s: Shared)
    requires s == Exec(Fresh(maxSize, threads), schedule)
    ensures Inv(s) && StoreIsTracked(s)
  {
    FreshIsSound(maxSize, threads);
    EveryScheduleIsSafe(Fresh(maxSize, threads), schedule);
    StoreStaysTracked(Fresh(maxSize, threads), schedule);
  }

  lemma OverlapLeaves() returns (sets: seq<Move>, s: Shared)
    ensures Exec(Fresh(2, 2), sets) == s && s.currentSize == 2 && s.tasks == [Idle, Idle] && s.store == map["k" := [0]]
    ensures s.list == [Node(1, "k", 1), Node(0, "k", 1)] && s.index == map["k" := Node(1, "k", 1)]
  {
    sets := OverlappingSetsLeaveAnOrphan();
    s := Exec(Fresh(2, 2), sets);
  }

  /** Two overlapping Sets of one key cost a byte for good: whatever is called after them, the
      orphan stays listed, and the counter exceeds the bytes stored whenever the cache is idle
      and lists no empty element. */
  lemma OverlappingSetsCostForGood(more: seq<Move>) returns (sets: seq<Move>, s: Shared)
    ensures Exec(Fresh(2, 2), sets) == s && AllIdle(s) && StoreBytes(s.store) == 1 && s.currentSize == 2
    ensures Orphan(Exec(s, more), Node(0, "k", 1))
    ensures AllIdle(Exec(s, more)) && (forall n :: n in Exec(s, more).list ==> n.size > 0) ==>
      StoreBytes(Exec(s, more).store) < Exec(s, more).currentSize
  {
    sets, s := OverlapLeaves();
    ReachableIsTracked(2, 2, sets, s);
    OneByteStored(s);
    OrphanCosts(s, more, Node(0, "k", 1));
  }
}
