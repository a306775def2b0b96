/**
 LRUCache (groove/proxy/cache/lru.go) shared by any number of threads. One step of a thread
 is one block run under linkedListLock or one backing-store callback; the eviction loop keeps
 the lock over many steps. A schedule is any sequence of thread steps.
 */
module LruThreads {
  import opened Prelude

  // A list element; id stands for its address, so elements with equal contents differ.
  datatype Node = Node(id: nat, key: string, size: nat)

  // Where a thread is in the call it runs, with the call's arguments and locals.
  datatype Task =
    | Idle
    | SetHas(key: string, value: Bytes)
    | SetUnlink(key: string, value: Bytes)
    | SetErase(key: string, value: Bytes)
    | SetLock(key: string, value: Bytes)
    | SetEvict(key: string, value: Bytes)
    | SetEvictErase(key: string, value: Bytes, victim: string)
    | SetReserve(key: string, value: Bytes)
    | SetWrite(key: string, value: Bytes)
    | SetPublish(key: string, value: Bytes, written: bool)
    | GetLookup(key: string)
    | GetTouch(key: string, node: Node)
    | GetRead(key: string)
    | DeleteUnlink(key: string)
    | DeleteErase(key: string)

  datatype Shared = Shared(
    list: seq<Node>,
    index: map<string, Node>,
    currentSize: int,
    maxSize: int,
    store: map<string, Bytes>,
    holder: Option<nat>,
    nextId: nat,
    tasks: seq<Task>)

  // Start a call on an idle thread, or let the thread take its next step; writeOk is the
  // outcome of the store's write if that is the step.
  datatype Choice =
    | StartSet(key: string, value: Bytes)
    | StartGet(key: string)
    | StartDelete(key: string)
    | Advance(writeOk: bool)

  datatype Move = Move(thread: nat, choice: Choice)

  function Remove(list: seq<Node>, node: Node): seq<Node> {
    if list == [] then [] else if list[0] == node then list[1..] else [list[0]] + Remove(list[1..], node)
  }

  // The locked block of deleteWithProtection.
  function Unlink(s: Shared, key: string): Shared {
    if key in s.index then
      s.(list := Remove(s.list, s.index[key]), currentSize := s.currentSize - s.index[key].size,
          index := s.index - {key})
    else s
  }

  function Goto(s: Shared, t: nat, task: Task): Shared
    requires t < |s.tasks|
  {
    s.(tasks := s.tasks[t := task])
  }

  // The part of Set that drops the old entry and evicts.
  predicate MakesRoom(task: Task) {
    task.SetHas? || task.SetUnlink? || task.SetErase? || task.SetLock? || task.SetEvict? || task.SetEvictErase?
  }

  // The part of Set that reserves space, writes and publishes.
  predicate Stores(task: Task) {
    task.SetReserve? || task.SetWrite? || task.SetPublish?
  }

  function NextMakingRoom(s: Shared, t: nat): Shared
    requires t < |s.tasks| && MakesRoom(s.tasks[t])
  {
    match s.tasks[t]
    case SetHas(k, v) => Goto(s, t, if k in s.store then SetUnlink(k, v) else SetLock(k, v))
    case SetUnlink(k, v) => if s.holder.Some? then s else Goto(Unlink(s, k), t, SetErase(k, v))
    case SetErase(k, v) => Goto(s.(store := s.store - {k}), t, SetLock(k, v))
    case SetLock(k, v) =>
      if s.maxSize <= -1 then Goto(s, t, SetReserve(k, v))
      else if s.holder.Some? then s
      else Goto(s.(holder := Some(t)), t, SetEvict(k, v))
    case SetEvict(k, v) =>
      if s.currentSize + |v| > s.maxSize && s.list != [] then
        var oldest := s.list[|s.list| - 1].key;
        Goto(Unlink(s, oldest), t, SetEvictErase(k, v, oldest))
      else Goto(s.(holder := None), t, SetReserve(k, v))
    case SetEvictErase(k, v, victim) => Goto(s.(store := s.store - {victim}), t, SetEvict(k, v))
  }

  function NextStoring(s: Shared, t: nat, writeOk: bool): Shared
    requires t < |s.tasks| && Stores(s.tasks[t])
  {
    match s.tasks[t]
    case SetReserve(k, v) =>
      if s.holder.Some? then s
      else if s.currentSize + |v| <= s.maxSize then Goto(s.(currentSize := s.currentSize + |v|), t, SetWrite(k, v))
      else Goto(s, t, Idle)
    case SetWrite(k, v) =>
      Goto(if writeOk then s.(store := s.store[k := v]) else s, t, SetPublish(k, v, writeOk))
    case SetPublish(k, v, written) =>
      if s.holder.Some? then s
      else if written then
        var node := Node(s.nextId, k, |v|);
        Goto(s.(list := [node] + s.list, index := s.index[k := node], nextId := s.nextId + 1), t, Idle)
      else Goto(s.(currentSize := s.currentSize - |v|), t, Idle)
  }

  function NextReadingOrDeleting(s: Shared, t: nat): Shared
    requires t < |s.tasks| && !MakesRoom(s.tasks[t]) && !Stores(s.tasks[t])
  {
    match s.tasks[t]
    case Idle => s
    case GetLookup(k) =>
      if s.holder.Some? then s else Goto(s, t, if k in s.index then GetTouch(k, s.index[k]) else GetRead(k))
    case GetTouch(k, node) =>
      if s.holder.Some? then s
      else Goto(if node in s.list then s.(list := [node] + Remove(s.list, node)) else s, t, GetRead(k))
    case GetRead(k) => Goto(s, t, Idle)
    case DeleteUnlink(k) => if s.holder.Some? then s else Goto(Unlink(s, k), t, DeleteErase(k))
    case DeleteErase(k) => Goto(s.(store := s.store - {k}), t, Idle)
  }

  // The next step of thread t; a thread that must wait for the lock stays where it is.
  function Next(s: Shared, t: nat, writeOk: bool): Shared
    requires t < |s.tasks|
  {
    if MakesRoom(s.tasks[t]) then NextMakingRoom(s, t)
    else if Stores(s.tasks[t]) then NextStoring(s, t, writeOk)
    else NextReadingOrDeleting(s, t)
  }

  function Step(s: Shared, move: Move): Shared {
    if move.thread >= |s.tasks| then s
    else match move.choice
      case Advance(writeOk) => Next(s, move.thread, writeOk)
      case StartSet(k, v) => if s.tasks[move.thread].Idle? then Goto(s, move.thread, SetHas(k, v)) else s
      case StartGet(k) => if s.tasks[move.thread].Idle? then Goto(s, move.thread, GetLookup(k)) else s
      case StartDelete(k) => if s.tasks[move.thread].Idle? then Goto(s, move.thread, DeleteUnlink(k)) else s
  }

  function Exec(s: Shared, schedule: seq<Move>): Shared
    decreases |schedule|
  {
    if schedule == [] then s else Exec(Step(s, schedule[0]), schedule[1..])
  }

  function Fresh(maxSize: int, threads: nat): Shared {
    Shared([], map[], 0, maxSize, map[], None, 0, seq(threads, _ => Idle))
  }

  // --- The invariant ---

  function SumSizes(list: seq<Node>): nat {
    if list == [] then 0 else list[0].size + SumSizes(list[1..])
  }

  // Bytes a thread has claimed between allocateSpace and its publication or rollback.
  function Claim(task: Task): nat {
    if task.SetWrite? || task.SetPublish? then |task.value| else 0
  }

  function Reserved(tasks: seq<Task>): nat {
    if tasks == [] then 0 else Claim(tasks[0]) + Reserved(tasks[1..])
  }

  // The thread has unlinked key and will erase its value.
  predicate Erasing(task: Task, key: string) {
    match task
    case SetErase(k, _) => k == key
    case SetEvictErase(_, _, victim) => victim == key
    case DeleteErase(k) => k == key
    case _ => false
  }

  ghost predicate ListIsSound(s: Shared) {
    && (forall i :: 0 <= i < |s.list| ==> s.list[i].id < s.nextId)
    && (forall i, j :: 0 <= i < j < |s.list| ==> s.list[i].id != s.list[j].id)
    && (forall k :: k in s.index ==> s.index[k] in s.list && s.index[k].key == k)
  }

  // The counter is what the list holds plus what is claimed.
  ghost predicate CounterIsExact(s: Shared) {
    && s.currentSize == SumSizes(s.list) + Reserved(s.tasks)
    && (s.maxSize >= 0 ==> s.currentSize <= s.maxSize)
  }

  ghost predicate LockIsExclusive(s: Shared) {
    forall t :: 0 <= t < |s.tasks| ==>
      ((s.tasks[t].SetEvict? || s.tasks[t].SetEvictErase?) <==> s.holder == Some(t))
  }

  ghost predicate Listed(s: Shared, key: string) {
    key in s.store && exists node :: node in s.list && node.key == key && node.size == |s.store[key]|
  }

  ghost predicate Pending(s: Shared, key: string) {
    key in s.store && exists t :: 0 <= t < |s.tasks| && s.tasks[t] == SetPublish(key, s.store[key], true)
  }

  ghost predicate Doomed(s: Shared, key: string) {
    exists t :: 0 <= t < |s.tasks| && Erasing(s.tasks[t], key)
  }

  // Every stored value has a reason to be there.
  ghost predicate StoreIsJustified(s: Shared) {
    forall key :: key in s.store ==> Listed(s, key) || Pending(s, key) || Doomed(s, key)
  }

  ghost predicate Inv(s: Shared) {
    ListIsSound(s) && CounterIsExact(s) && LockIsExclusive(s) && StoreIsJustified(s)
  }

  // --- List and sum lemmas ---

  lemma {:induction false} RemoveFacts(list: seq<Node>, node: Node)
    requires forall i, j :: 0 <= i < j < |list| ==> list[i].id != list[j].id
    ensures forall x :: x in Remove(list, node) <==> x in list && x != node
    ensures forall i, j :: 0 <= i < j < |Remove(list, node)| ==> Remove(list, node)[i].id != Remove(list, node)[j].id
    ensures node in list ==> SumSizes(list) == SumSizes(Remove(list, node)) + node.size
    ensures node in list ==> |Remove(list, node)| == |list| - 1
  {
    if list != [] {
      var rest := Remove(list[1..], node);
      RemoveFacts(list[1..], node);
      assert list == [list[0]] + list[1..];
      forall x | x in list[1..]
        ensures x.id != list[0].id
      {
        var i :| 0 <= i < |list[1..]| && list[1..][i] == x;
        assert list[i + 1] == x;
      }
      forall i | 0 <= i < |rest|
        ensures rest[i].id != list[0].id
      {
        assert rest[i] in rest;
      }
    }
  }

  lemma {:induction false} ReservedUpdate(tasks: seq<Task>, t: nat, task: Task)
    requires t < |tasks|
    ensures Reserved(tasks[t := task]) == Reserved(tasks) - Claim(tasks[t]) + Claim(task)
  {
    if t == 0 {
      assert tasks[t := task][1..] == tasks[1..];
    } else {
      ReservedUpdate(tasks[1..], t - 1, task);
      assert tasks[t := task][1..] == tasks[1..][t - 1 := task];
    }
  }

  lemma {:induction false} NothingReserved(tasks: seq<Task>)
    requires forall t :: 0 <= t < |tasks| ==> tasks[t].Idle?
    ensures Reserved(tasks) == 0
  {
    if tasks != [] {
      NothingReserved(tasks[1..]);
    }
  }

  // --- Preservation ---

  lemma UnlinkIsSound(s: Shared, key: string)
    requires ListIsSound(s)
    ensures ListIsSound(Unlink(s, key))
    ensures Unlink(s, key).currentSize - SumSizes(Unlink(s, key).list) == s.currentSize - SumSizes(s.list)
    ensures Unlink(s, key).currentSize <= s.currentSize
    ensures forall node :: node in s.list && node.key != key ==> node in Unlink(s, key).list
    ensures key !in Unlink(s, key).index
  {
    if key in s.index {
      var after := Unlink(s, key);
      RemoveFacts(s.list, s.index[key]);
      forall i | 0 <= i < |after.list|
        ensures after.list[i].id < after.nextId
      {
        assert after.list[i] in s.list;
      }
    }
  }

  lemma SameListIsSound(s: Shared, after: Shared)
    requires ListIsSound(s) && after.list == s.list && after.index == s.index && after.nextId == s.nextId
    ensures ListIsSound(after)
  {
  }

  lemma ListAtUnlink(s: Shared, t: nat, writeOk: bool)
    requires t < |s.tasks| && ListIsSound(s)
    requires s.tasks[t].SetUnlink? || s.tasks[t].DeleteUnlink?
    ensures ListIsSound(Next(s, t, writeOk))
  {
    if s.holder.Some? {
      assert Next(s, t, writeOk) == s;
    } else {
      var unlinked := Unlink(s, s.tasks[t].key);
      var task := if s.tasks[t].SetUnlink? then SetErase(s.tasks[t].key, s.tasks[t].value)
          else DeleteErase(s.tasks[t].key);
      UnlinkIsSound(s, s.tasks[t].key);
      UnlinkStep(s, t, writeOk, task);
      SameListIsSound(unlinked, Goto(unlinked, t, task));
    }
  }

  lemma UnlinkStep(s: Shared, t: nat, writeOk: bool, task: Task)
    requires t < |s.tasks| && s.holder.None? && (s.tasks[t].SetUnlink? || s.tasks[t].DeleteUnlink?)
    requires task == if s.tasks[t].SetUnlink? then SetErase(s.tasks[t].key, s.tasks[t].value)
        else DeleteErase(s.tasks[t].key)
    ensures Next(s, t, writeOk) == Goto(Unlink(s, s.tasks[t].key), t, task)
  {
    if s.tasks[t].SetUnlink? {
      assert Next(s, t, writeOk) == NextMakingRoom(s, t);
    } else {
      assert Next(s, t, writeOk) == NextReadingOrDeleting(s, t);
    }
  }

  lemma ListAtEvict(s: Shared, t: nat, writeOk: bool)
    requires t < |s.tasks| && ListIsSound(s) && s.tasks[t].SetEvict?
    ensures ListIsSound(Next(s, t, writeOk))
  {
    var key, value := s.tasks[t].key, s.tasks[t].value;
    if s.currentSize + |value| > s.maxSize && s.list != [] {
      var oldest := s.list[|s.list| - 1].key;
      UnlinkIsSound(s, oldest);
      EvictStep(s, t, writeOk);
      SameListIsSound(Unlink(s, oldest), Goto(Unlink(s, oldest), t, SetEvictErase(key, value, oldest)));
    } else {
      EvictExit(s, t, writeOk);
      SameListIsSound(s, Goto(s.(holder := None), t, SetReserve(key, value)));
    }
  }

  // What one step of the eviction loop does while room is needed, and how the loop ends.
  lemma EvictStep(s: Shared, t: nat, writeOk: bool)
    requires t < |s.tasks| && s.tasks[t].SetEvict? && s.currentSize + |s.tasks[t].value| > s.maxSize && s.list != []
    ensures var oldest := s.list[|s.list| - 1].key;
            Next(s, t, writeOk) == Goto(Unlink(s, oldest), t, SetEvictErase(s.tasks[t].key, s.tasks[t].value, oldest))
  {
    assert Next(s, t, writeOk) == NextMakingRoom(s, t);
  }

  lemma EvictExit(s: Shared, t: nat, writeOk: bool)
    requires t < |s.tasks| && s.tasks[t].SetEvict? && (s.currentSize + |s.tasks[t].value| <= s.maxSize || s.list == [])
    ensures Next(s, t, writeOk) == Goto(s.(holder := None), t, SetReserve(s.tasks[t].key, s.tasks[t].value))
  {
    assert Next(s, t, writeOk) == NextMakingRoom(s, t);
  }

  lemma ListAtTouch(s: Shared, t: nat, writeOk: bool)
    requires t < |s.tasks| && ListIsSound(s) && s.tasks[t].GetTouch?
    ensures ListIsSound(Next(s, t, writeOk))
  {
    var node := s.tasks[t].node;
    if s.holder.None? && node in s.list {
      TouchIsSound(s, node);
      SameListIsSound(s.(list := [node] + Remove(s.list, node)), Next(s, t, writeOk));
    } else {
      SameListIsSound(s, Next(s, t, writeOk));
    }
  }

  lemma ListAtPublish(s: Shared, t: nat, writeOk: bool)
    requires t < |s.tasks| && ListIsSound(s) && s.tasks[t].SetPublish?
    ensures ListIsSound(Next(s, t, writeOk))
  {
  }

  // The steps that leave list, map and identities alone.
  predicate KeepsList(task: Task) {
    !task.SetUnlink? && !task.DeleteUnlink? && !task.SetEvict? && !task.GetTouch? && !task.SetPublish?
  }

  lemma ListAtRest(s: Shared, t: nat, writeOk: bool)
    requires t < |s.tasks| && KeepsList(s.tasks[t])
    ensures var after := Next(s, t, writeOk);
            after.list == s.list && after.index == s.index && after.nextId == s.nextId
    ensures ListIsSound(s) ==> ListIsSound(Next(s, t, writeOk))
  {
  }

  lemma ListStaysSound(s: Shared, t: nat, writeOk: bool)
    requires t < |s.tasks| && ListIsSound(s)
    ensures ListIsSound(Next(s, t, writeOk))
  {
    if KeepsList(s.tasks[t]) {
      ListAtRest(s, t, writeOk);
    } else if s.tasks[t].GetTouch? {
      ListAtTouch(s, t, writeOk);
    } else if s.tasks[t].SetPublish? {
      ListAtPublish(s, t, writeOk);
    } else if s.tasks[t].SetEvict? {
      ListAtEvict(s, t, writeOk);
    } else {
      ListAtUnlink(s, t, writeOk);
    }
  }

  lemma TouchIsSound(s: Shared, node: Node)
    requires ListIsSound(s) && node in s.list
    ensures ListIsSound(s.(list := [node] + Remove(s.list, node)))
    ensures SumSizes([node] + Remove(s.list, node)) == SumSizes(s.list)
    ensures forall x :: x in [node] + Remove(s.list, node) <==> x in s.list
  {
    var rest := Remove(s.list, node);
    var touched := [node] + rest;
    RemoveFacts(s.list, node);
    assert touched[1..] == rest;
    forall i | 0 <= i < |rest|
      ensures rest[i].id < s.nextId && rest[i].id != node.id
    {
      assert rest[i] in rest;
      OtherId(s.list, rest[i], node);
    }
    assert node.id < s.nextId;
  }

  lemma OtherId(list: seq<Node>, x: Node, y: Node)
    requires forall i, j :: 0 <= i < j < |list| ==> list[i].id != list[j].id
    requires x in list && y in list && x != y
    ensures x.id != y.id
  {
    var a :| 0 <= a < |list| && list[a] == x;
    var b :| 0 <= b < |list| && list[b] == y;
  }

  // Moving thread t to task changes only what it claims.
  lemma GotoCounter(s: Shared, t: nat, task: Task)
    requires t < |s.tasks|
    requires s.currentSize == SumSizes(s.list) + Reserved(s.tasks) - Claim(s.tasks[t]) + Claim(task)
    requires s.maxSize >= 0 ==> s.currentSize <= s.maxSize
    ensures CounterIsExact(Goto(s, t, task))
  {
    ReservedUpdate(s.tasks, t, task);
  }

  lemma UnlinkCounter(s: Shared, key: string, t: nat, task: Task)
    requires t < |s.tasks| && ListIsSound(s) && CounterIsExact(s) && Claim(task) == Claim(s.tasks[t]) == 0
    ensures CounterIsExact(Goto(Unlink(s, key), t, task))
  {
    UnlinkIsSound(s, key);
    GotoCounter(Unlink(s, key), t, task);
  }

  lemma CounterAtUnlink(s: Shared, t: nat, writeOk: bool)
    requires t < |s.tasks| && ListIsSound(s) && CounterIsExact(s)
    requires s.tasks[t].SetUnlink? || s.tasks[t].DeleteUnlink?
    ensures CounterIsExact(Next(s, t, writeOk))
  {
    if s.holder.None? {
      UnlinkCounter(s, s.tasks[t].key, t, Next(s, t, writeOk).tasks[t]);
    }
  }

  lemma CounterAtEvict(s: Shared, t: nat, writeOk: bool)
    requires t < |s.tasks| && ListIsSound(s) && CounterIsExact(s) && s.tasks[t].SetEvict?
    ensures CounterIsExact(Next(s, t, writeOk))
  {
    var k, v := s.tasks[t].key, s.tasks[t].value;
    if s.currentSize + |v| > s.maxSize && s.list != [] {
      var oldest := s.list[|s.list| - 1].key;
      UnlinkCounter(s, oldest, t, SetEvictErase(k, v, oldest));
    } else {
      GotoCounter(s.(holder := None), t, SetReserve(k, v));
    }
  }

  lemma CounterAtTouch(s: Shared, t: nat, writeOk: bool)
    requires t < |s.tasks| && ListIsSound(s) && CounterIsExact(s) && s.tasks[t].GetTouch?
    ensures CounterIsExact(Next(s, t, writeOk))
  {
    var node := s.tasks[t].node;
    if s.holder.None? {
      if node in s.list {
        TouchIsSound(s, node);
        GotoCounter(s.(list := [node] + Remove(s.list, node)), t, GetRead(s.tasks[t].key));
      } else {
        GotoCounter(s, t, GetRead(s.tasks[t].key));
      }
    }
  }

  lemma CounterAtPublish(s: Shared, t: nat, writeOk: bool)
    requires t < |s.tasks| && CounterIsExact(s) && s.tasks[t].SetPublish?
    ensures CounterIsExact(Next(s, t, writeOk))
  {
    var k, v := s.tasks[t].key, s.tasks[t].value;
    if s.holder.None? {
      if s.tasks[t].written {
        var node := Node(s.nextId, k, |v|);
        assert ([node] + s.list)[1..] == s.list;
        GotoCounter(s.(list := [node] + s.list, index := s.index[k := node], nextId := s.nextId + 1), t, Idle);
      } else {
        GotoCounter(s.(currentSize := s.currentSize - |v|), t, Idle);
      }
    }
  }

  lemma CounterAtReserve(s: Shared, t: nat, writeOk: bool)
    requires t < |s.tasks| && CounterIsExact(s) && s.tasks[t].SetReserve?
    ensures CounterIsExact(Next(s, t, writeOk))
  {
    var k, v := s.tasks[t].key, s.tasks[t].value;
    if s.currentSize + |v| <= s.maxSize {
      GotoCounter(s.(currentSize := s.currentSize + |v|), t, SetWrite(k, v));
    } else {
      GotoCounter(s, t, Idle);
    }
  }

  lemma CounterUntouched(s: Shared, after: Shared, t: nat, task: Task)
    requires t < |s.tasks| && CounterIsExact(s)
    requires after.list == s.list && after.currentSize == s.currentSize && after.maxSize == s.maxSize
    requires after.tasks == s.tasks[t := task] && Claim(task) == Claim(s.tasks[t])
    ensures CounterIsExact(after)
  {
    ReservedUpdate(s.tasks, t, task);
  }

  lemma CounterAtRest(s: Shared, t: nat, writeOk: bool)
    requires t < |s.tasks| && CounterIsExact(s) && KeepsList(s.tasks[t]) && !s.tasks[t].SetReserve?
    ensures CounterIsExact(Next(s, t, writeOk))
  {
    assert s.tasks[t := s.tasks[t]] == s.tasks;
    if MakesRoom(s.tasks[t]) {
      var after := NextMakingRoom(s, t);
      CounterUntouched(s, after, t, after.tasks[t]);
    } else if Stores(s.tasks[t]) {
      var after := NextStoring(s, t, writeOk);
      CounterUntouched(s, after, t, after.tasks[t]);
    } else {
      var after := NextReadingOrDeleting(s, t);
      CounterUntouched(s, after, t, after.tasks[t]);
    }
  }

  lemma CounterStaysExact(s: Shared, t: nat, writeOk: bool)
    requires t < |s.tasks| && ListIsSound(s) && CounterIsExact(s)
    ensures CounterIsExact(Next(s, t, writeOk))
  {
    if s.tasks[t].GetTouch? {
      CounterAtTouch(s, t, writeOk);
    } else if s.tasks[t].SetPublish? {
      CounterAtPublish(s, t, writeOk);
    } else if s.tasks[t].SetReserve? {
      CounterAtReserve(s, t, writeOk);
    } else if s.tasks[t].SetEvict? {
      CounterAtEvict(s, t, writeOk);
    } else if KeepsList(s.tasks[t]) {
      CounterAtRest(s, t, writeOk);
    } else {
      CounterAtUnlink(s, t, writeOk);
    }
  }

  // The steps outside the eviction block leave the lock with whoever has it.
  lemma LockAtRest(s: Shared, t: nat, writeOk: bool) returns (task: Task)
    requires t < |s.tasks| && !MakesRoom(s.tasks[t])
    ensures Next(s, t, writeOk).holder == s.holder
    ensures Next(s, t, writeOk).tasks == s.tasks[t := task] && !task.SetEvict? && !task.SetEvictErase?
  {
    assert s.tasks[t := s.tasks[t]] == s.tasks;
    task := Next(s, t, writeOk).tasks[t];
    if Stores(s.tasks[t]) {
      assert NextStoring(s, t, writeOk).tasks == s.tasks[t := task];
    } else {
      assert NextReadingOrDeleting(s, t).tasks == s.tasks[t := task];
    }
  }

  lemma LockWhileMakingRoom(s: Shared, t: nat)
    requires t < |s.tasks| && MakesRoom(s.tasks[t]) && LockIsExclusive(s)
    ensures LockIsExclusive(NextMakingRoom(s, t))
  {
  }

  lemma LockStaysExclusive(s: Shared, t: nat, writeOk: bool)
    requires t < |s.tasks| && LockIsExclusive(s)
    ensures LockIsExclusive(Next(s, t, writeOk))
  {
    if MakesRoom(s.tasks[t]) {
      LockWhileMakingRoom(s, t);
    } else {
      var _ := LockAtRest(s, t, writeOk);
    }
  }

  // --- Why a stored value is there ---

  ghost predicate Justified(s: Shared, key: string) {
    Listed(s, key) || Pending(s, key) || Doomed(s, key)
  }

  /** A reason for key survives a step of thread t that leaves key's value alone, provided the
      thread either keeps key's elements or is about to erase key, and either gave no reason
      itself or has just listed the value. */
  lemma ReasonSurvives(s: Shared, after: Shared, t: nat, task: Task, key: string)
    requires t < |s.tasks| && after.tasks == s.tasks[t := task]
    requires key in s.store && key in after.store && after.store[key] == s.store[key]
    requires (forall node :: node in s.list && node.key == key ==> node in after.list) || Erasing(task, key)
    requires !Erasing(s.tasks[t], key)
    requires s.tasks[t] != SetPublish(key, s.store[key], true) || Listed(after, key)
    requires Justified(s, key)
    ensures Justified(after, key)
  {
    if Erasing(task, key) {
      assert Erasing(after.tasks[t], key);
    } else if Listed(s, key) {
    } else if Pending(s, key) {
      var u :| 0 <= u < |s.tasks| && s.tasks[u] == SetPublish(key, s.store[key], true);
      assert u != t ==> after.tasks[u] == s.tasks[u];
    } else {
      var u :| 0 <= u < |s.tasks| && Erasing(s.tasks[u], key);
      assert after.tasks[u] == s.tasks[u];
    }
  }

  lemma StoreWhileUnlinking(s: Shared, victim: string, t: nat, task: Task)
    requires t < |s.tasks| && ListIsSound(s) && StoreIsJustified(s)
    requires Erasing(task, victim) && !s.tasks[t].SetPublish? && forall key :: !Erasing(s.tasks[t], key)
    ensures StoreIsJustified(Goto(Unlink(s, victim), t, task))
  {
    UnlinkIsSound(s, victim);
    var after := Goto(Unlink(s, victim), t, task);
    forall key | key in after.store
      ensures Justified(after, key)
    {
      ReasonSurvives(s, after, t, task, key);
    }
  }

  lemma StoreWhileErasing(s: Shared, victim: string, t: nat, task: Task)
    requires t < |s.tasks| && StoreIsJustified(s)
    requires Erasing(s.tasks[t], victim)
    ensures StoreIsJustified(Goto(s.(store := s.store - {victim}), t, task))
  {
    var after := Goto(s.(store := s.store - {victim}), t, task);
    forall key | key in after.store
      ensures Justified(after, key)
    {
      ReasonSurvives(s, after, t, task, key);
    }
  }

  // Steps that change neither the store nor the list, taken by a thread that gives no reason.
  lemma StoreAtRest(s: Shared, after: Shared, t: nat, task: Task)
    requires t < |s.tasks| && StoreIsJustified(s)
    requires after.tasks == s.tasks[t := task] && after.store == s.store
    requires forall node :: node in s.list ==> node in after.list
    requires !(s.tasks[t].SetPublish? && s.tasks[t].written) && forall key :: !Erasing(s.tasks[t], key)
    ensures StoreIsJustified(after)
  {
    forall key | key in after.store
      ensures Justified(after, key)
    {
      ReasonSurvives(s, after, t, task, key);
    }
  }

  lemma StoreWhileMakingRoom(s: Shared, t: nat)
    requires t < |s.tasks| && MakesRoom(s.tasks[t]) && ListIsSound(s) && StoreIsJustified(s)
    ensures StoreIsJustified(NextMakingRoom(s, t))
  {
    var after := NextMakingRoom(s, t);
    var task := after.tasks[t];
    assert s.tasks[t := s.tasks[t]] == s.tasks;
    match s.tasks[t] {
      case SetHas(_, _) => StoreAtRest(s, after, t, task);
      case SetUnlink(k, _) => if s.holder.None? { StoreWhileUnlinking(s, k, t, task); }
      case SetErase(k, _) => StoreWhileErasing(s, k, t, task);
      case SetLock(_, _) => StoreAtRest(s, after, t, task);
      case SetEvict(_, v) =>
        if s.currentSize + |v| > s.maxSize && s.list != [] {
          StoreWhileUnlinking(s, s.list[|s.list| - 1].key, t, task);
        } else {
          StoreAtRest(s, after, t, task);
        }
      case SetEvictErase(_, _, victim) => StoreWhileErasing(s, victim, t, task);
    }
  }

  lemma StoreWhileStoring(s: Shared, t: nat, writeOk: bool)
    requires t < |s.tasks| && Stores(s.tasks[t]) && StoreIsJustified(s)
    ensures StoreIsJustified(NextStoring(s, t, writeOk))
  {
    var after := NextStoring(s, t, writeOk);
    var task := after.tasks[t];
    assert s.tasks[t := s.tasks[t]] == s.tasks;
    assert after.tasks == s.tasks[t := task];
    if after.store == s.store && !(s.tasks[t].SetPublish? && s.tasks[t].written) {
      StoreAtRest(s, after, t, task);
    } else {
      forall key | key in after.store
        ensures Justified(after, key)
      {
        if s.tasks[t].SetWrite? && key == s.tasks[t].key {
          assert after.tasks[t] == SetPublish(key, after.store[key], true);
        } else if s.tasks[t].SetPublish? && s.holder.None? {
          var node := Node(s.nextId, s.tasks[t].key, |s.tasks[t].value|);
          assert node in after.list;
          ReasonSurvives(s, after, t, task, key);
        } else if s.tasks[t].SetWrite? {
          ReasonSurvives(s, after, t, task, key);
        }
      }
    }
  }

  lemma StoreWhileReadingOrDeleting(s: Shared, t: nat)
    requires t < |s.tasks| && !MakesRoom(s.tasks[t]) && !Stores(s.tasks[t]) && ListIsSound(s) && StoreIsJustified(s)
    ensures StoreIsJustified(NextReadingOrDeleting(s, t))
  {
    var after := NextReadingOrDeleting(s, t);
    var task := after.tasks[t];
    assert s.tasks[t := s.tasks[t]] == s.tasks;
    match s.tasks[t] {
      case GetTouch(_, node) =>
        if node in s.list {
          TouchIsSound(s, node);
        }
        StoreAtRest(s, after, t, task);
      case DeleteUnlink(k) => if s.holder.None? { StoreWhileUnlinking(s, k, t, task); }
      case DeleteErase(k) => StoreWhileErasing(s, k, t, task);
      case _ => StoreAtRest(s, after, t, task);
    }
  }

  // --- Every schedule ---

  lemma AdvanceKeepsInv(s: Shared, t: nat, writeOk: bool)
    requires Inv(s) && t < |s.tasks|
    ensures Inv(Next(s, t, writeOk))
  {
    ListStaysSound(s, t, writeOk);
    CounterStaysExact(s, t, writeOk);
    LockStaysExclusive(s, t, writeOk);
    assert StoreIsJustified(Next(s, t, writeOk)) by {
      if MakesRoom(s.tasks[t]) {
        StoreWhileMakingRoom(s, t);
      } else if Stores(s.tasks[t]) {
        StoreWhileStoring(s, t, writeOk);
      } else {
        StoreWhileReadingOrDeleting(s, t);
      }
    }
  }

  lemma AdvanceKeepsShape(s: Shared, t: nat, writeOk: bool)
    requires t < |s.tasks|
    ensures Next(s, t, writeOk).maxSize == s.maxSize && |Next(s, t, writeOk).tasks| == |s.tasks|
  {
    if MakesRoom(s.tasks[t]) {
      assert |NextMakingRoom(s, t).tasks| == |s.tasks|;
    } else if Stores(s.tasks[t]) {
      assert |NextStoring(s, t, writeOk).tasks| == |s.tasks|;
    } else {
      assert |NextReadingOrDeleting(s, t).tasks| == |s.tasks|;
    }
  }

  lemma StepKeepsInv(s: Shared, move: Move)
    requires Inv(s)
    ensures Inv(Step(s, move))
    ensures Step(s, move).maxSize == s.maxSize && |Step(s, move).tasks| == |s.tasks|
  {
    if move.thread < |s.tasks| {
      if move.choice.Advance? {
        AdvanceKeepsInv(s, move.thread, move.choice.writeOk);
        AdvanceKeepsShape(s, move.thread, move.choice.writeOk);
      } else if s.tasks[move.thread].Idle? {
        StartKeepsInv(s, move.thread, Step(s, move).tasks[move.thread]);
      }
    }
  }

  lemma StartKeepsInv(s: Shared, t: nat, task: Task)
    requires Inv(s) && t < |s.tasks| && s.tasks[t].Idle?
    requires task.SetHas? || task.GetLookup? || task.DeleteUnlink?
    ensures Inv(Goto(s, t, task))
  {
    GotoCounter(s, t, task);
    StoreAtRest(s, Goto(s, t, task), t, task);
  }

  lemma FreshIsSound(maxSize: int, threads: nat)
    ensures Inv(Fresh(maxSize, threads))
  {
    NothingReserved(Fresh(maxSize, threads).tasks);
  }

  /** From any state with the invariant, and so from an empty cache shared by any number of
      threads, every schedule keeps it: the counter is the sum of all listed sizes plus the
      claimed ones and stays within the capacity, every mapped element is listed under its key,
      and every stored value is listed at its size, about to be published or about to be erased. */
  lemma {:induction false} EveryScheduleIsSafe(s: Shared, schedule: seq<Move>)
    requires Inv(s)
    ensures Inv(Exec(s, schedule))
    ensures Exec(s, schedule).maxSize == s.maxSize
    decreases |schedule|
  {
    if schedule != [] {
      StepKeepsInv(s, schedule[0]);
      EveryScheduleIsSafe(Step(s, schedule[0]), schedule[1..]);
    }
  }

  /** The same from an empty cache, spelled out. */
  lemma SharedCacheIsSound(maxSize: int, threads: nat, schedule: seq<Move>)
    ensures var s := Exec(Fresh(maxSize, threads), schedule);
      && s.currentSize == SumSizes(s.list) + Reserved(s.tasks)
      && 0 <= s.currentSize && (maxSize >= 0 ==> s.currentSize <= maxSize)
      && (forall k :: k in s.index ==> s.index[k] in s.list && s.index[k].key == k)
      && (forall k :: k in s.store ==>
           || (exists node :: node in s.list && node.key == k && node.size == |s.store[k]|)
           || (exists t :: 0 <= t < |s.tasks| && s.tasks[t] == SetPublish(k, s.store[k], true))
           || (exists t :: 0 <= t < |s.tasks| && Erasing(s.tasks[t], k)))
  {
    FreshIsSound(maxSize, threads);
    EveryScheduleIsSafe(Fresh(maxSize, threads), schedule);
    var s := Exec(Fresh(maxSize, threads), schedule);
    forall k | k in s.store
      ensures Listed(s, k) || Pending(s, k) || Doomed(s, k)
    {
    }
  }

  // --- What idle states promise ---

  ghost function StoreBytes(store: map<string, Bytes>): nat {
    if store == map[] then 0 else
      var key :| key in store;
      |store[key]| + StoreBytes(store - {key})
  }

  lemma {:induction false} StoreBytesSplit(store: map<string, Bytes>, key: string)
    requires key in store
    ensures StoreBytes(store) == |store[key]| + StoreBytes(store - {key})
    decreases |store|
  {
    var chosen :| chosen in store && StoreBytes(store) == |store[chosen]| + StoreBytes(store - {chosen});
    if chosen != key {
      StoreBytesSplit(store - {chosen}, key);
      StoreBytesSplit(store - {key}, chosen);
      assert store - {chosen} - {key} == store - {key} - {chosen};
    }
  }

  // A store whose every value is listed at its size holds no more than the list accounts for.
  lemma {:induction false} ListCoversStore(list: seq<Node>, store: map<string, Bytes>)
    requires forall i, j :: 0 <= i < j < |list| ==> list[i].id != list[j].id
    requires forall key :: key in store ==> exists node :: node in list && node.key == key && node.size == |store[key]|
    ensures StoreBytes(store) <= SumSizes(list)
    decreases |store|
  {
    if store != map[] {
      var key :| key in store;
      var node :| node in list && node.key == key && node.size == |store[key]|;
      StoreBytesSplit(store, key);
      RemoveFacts(list, node);
      forall k | k in store - {key}
        ensures exists other :: other in Remove(list, node) && other.key == k && other.size == |store[k]|
      {
        var other :| other in list && other.key == k && other.size == |store[k]|;
        assert other in Remove(list, node);
      }
      ListCoversStore(Remove(list, node), store - {key});
    }
  }

  /** Whenever all threads are idle, the bytes stored are at most the counter, and the counter
      at most the capacity. */
  lemma IdleCacheIsWithinCapacity(s: Shared, schedule: seq<Move>)
    requires Inv(s) && s.maxSize >= 0
    requires forall t :: 0 <= t < |Exec(s, schedule).tasks| ==> Exec(s, schedule).tasks[t].Idle?
    ensures var after := Exec(s, schedule);
            && StoreBytes(after.store) <= after.currentSize <= s.maxSize
            && after.currentSize == SumSizes(after.list)
  {
    var after := Exec(s, schedule);
    EveryScheduleIsSafe(s, schedule);
    NothingReserved(after.tasks);
    forall key | key in after.store
      ensures exists node :: node in after.list && node.key == key && node.size == |after.store[key]|
    {
      assert Justified(after, key);
    }
    ListCoversStore(after.list, after.store);
  }
}
