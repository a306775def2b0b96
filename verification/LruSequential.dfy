/**
 Schedules of the shared LRUCache in which no two calls overlap. Whatever the threads, such a
 schedule leaves what the cache used by one caller holds after the same calls; and a call that
 runs alone ends.
 */
module LruSequential {
  import opened Prelude
  import opened RecencyList
  import opened LruHistory
  import opened LruThreads
  import opened LruEviction
  import opened LruOrphans
  import opened LruSolo

  // All threads are idle, and list, map, store and counter describe the same entries.
  ghost predicate AtRest(s: Shared, items: seq<Item>) {
    && AllIdle(s) && s.holder == None && ListIsSound(s) && CounterIsExact(s)
    && Matched(s.list, s.index, s.store) && StoreIsMapped(s.index, s.store, None)
    && Entries(s.list, s.store) == items
  }

  predicate Begins(s: Shared, move: Move) {
    move.thread < |s.tasks| && s.tasks[move.thread].Idle? && !move.choice.Advance?
  }

  // A call begins only while no thread is in one.
  ghost predicate OneAtATime(s: Shared, schedule: seq<Move>)
    decreases |schedule|
  {
    schedule == []
    || ((Begins(s, schedule[0]) ==> AllIdle(s)) && OneAtATime(Step(s, schedule[0]), schedule[1..]))
  }

  // The call that ends with the move, if one does.
  function Ended(s: Shared, move: Move): seq<Call> {
    if move.thread >= |s.tasks| || s.tasks[move.thread].Idle? || !Step(s, move).tasks[move.thread].Idle? then []
    else match Completed(s.tasks[move.thread])
      case None => []
      case Some(call) => [call]
  }

  // The calls a schedule completes, in the order in which they end.
  function Trace(s: Shared, schedule: seq<Move>): seq<Call>
    decreases |schedule|
  {
    if schedule == [] then [] else Ended(s, schedule[0]) + Trace(Step(s, schedule[0]), schedule[1..])
  }

  // --- A run, call by call ---

  lemma RestIsSolo(s: Shared, t: nat, items: seq<Item>)
    requires AtRest(s, items) && t < |s.tasks|
    ensures Solo(s, t, items)
  {
    EntriesAreDistinct(s.list, s.index, s.store);
  }

  lemma SoloIsRest(s: Shared, t: nat, before: seq<Item>)
    requires Solo(s, t, before) && s.tasks[t].Idle?
    ensures AtRest(s, before)
  {
  }

  // The others neither see nor change anything while one thread is in a call.
  lemma SoloBegins(s: Shared, t: nat, before: seq<Item>, move: Move)
    requires Solo(s, t, before) && Begins(s, move) && AllIdle(s)
    ensures Solo(Step(s, move), move.thread, before)
  {
    match move.choice {
      case StartSet(k, v) => SoloStarts(s, t, before, move.thread, SetHas(k, v));
      case StartGet(k) => SoloStarts(s, t, before, move.thread, GetLookup(k));
      case StartDelete(k) => SoloStarts(s, t, before, move.thread, DeleteUnlink(k));
    }
  }

  lemma SoloStarts(s: Shared, t: nat, before: seq<Item>, u: nat, task: Task)
    requires Solo(s, t, before) && AllIdle(s) && u < |s.tasks|
    requires task.SetHas? || task.GetLookup? || task.DeleteUnlink?
    ensures Solo(Goto(s, u, task), u, before)
  {
    NothingReserved(s.tasks);
    ReservedByOne(s.tasks[u := task], u);
  }

  lemma IdleStaysPut(s: Shared, move: Move)
    requires !Begins(s, move)
    requires move.thread >= |s.tasks| || s.tasks[move.thread].Idle? || !move.choice.Advance?
    ensures Step(s, move) == s
  {
  }

  lemma {:induction false} HeldFromFirst(items: seq<Item>, maxSize: int, calls: seq<Call>, rest: seq<Call>)
    ensures HeldFrom(items, maxSize, calls + rest) == HeldFrom(HeldFrom(items, maxSize, calls), maxSize, rest)
  {
    if rest == [] {
      assert calls + rest == calls;
    } else {
      assert (calls + rest)[..|calls + rest| - 1] == calls + rest[..|rest| - 1];
      HeldFromFirst(items, maxSize, calls, rest[..|rest| - 1]);
    }
  }

  lemma BaseIsHeld(s: Shared, t: nat, after: Shared, before: seq<Item>, move: Move)
    requires t < |s.tasks| && !s.tasks[t].Idle? && move.thread == t && after == Step(s, move)
    requires Advanced(s, t, after, before)
    ensures Base(s, t, after, before) == HeldFrom(before, s.maxSize, Ended(s, move))
  {
    if after.tasks[t].Idle? {
      HeldAfterOne(before, s.maxSize, Completed(s.tasks[t]).value);
    }
  }

  lemma SoloStep(s: Shared, t: nat, before: seq<Item>, move: Move) returns (t': nat)
    requires Solo(s, t, before) && (Begins(s, move) ==> AllIdle(s))
    ensures Solo(Step(s, move), t', HeldFrom(before, s.maxSize, Ended(s, move)))
    ensures Step(s, move).maxSize == s.maxSize
  {
    t' := t;
    if Begins(s, move) {
      t' := move.thread;
      SoloBegins(s, t, before, move);
    } else if move.thread == t && !s.tasks[t].Idle? && move.choice.Advance? {
      SoloAdvance(s, t, before, move.choice.writeOk);
      BaseIsHeld(s, t, Next(s, t, move.choice.writeOk), before, move);
    } else {
      IdleStaysPut(s, move);
    }
  }

  lemma {:induction false} SoloRun(s: Shared, t: nat, before: seq<Item>, schedule: seq<Move>) returns (t': nat)
    requires Solo(s, t, before) && OneAtATime(s, schedule)
    ensures Solo(Exec(s, schedule), t', HeldFrom(before, s.maxSize, Trace(s, schedule)))
    ensures NeverAnOrphan(s, schedule)
    decreases |schedule|
  {
    t' := t;
    if schedule != [] {
      var next := Step(s, schedule[0]);
      var u := SoloStep(s, t, before, schedule[0]);
      HeldFromFirst(before, s.maxSize, Ended(s, schedule[0]), Trace(next, schedule[1..]));
      t' := SoloRun(next, u, HeldFrom(before, s.maxSize, Ended(s, schedule[0])), schedule[1..]);
    }
  }

  lemma {:induction false} NobodyMoves(s: Shared, schedule: seq<Move>)
    requires s.tasks == []
    ensures Exec(s, schedule) == s && Trace(s, schedule) == []
    ensures NoOrphans(s) ==> NeverAnOrphan(s, schedule)
  {
    if schedule != [] {
      NobodyMoves(s, schedule[1..]);
    }
  }

  /** From agreement, calls that do not overlap leave what the sequential cache leaves after the
      same calls, whichever threads make them, and no element is an orphan at any moment. */
  lemma CallsOneAtATime(s: Shared, items: seq<Item>, schedule: seq<Move>)
    requires AtRest(s, items) && OneAtATime(s, schedule)
    ensures NeverAnOrphan(s, schedule)
    ensures AllIdle(Exec(s, schedule)) ==>
      AtRest(Exec(s, schedule), HeldFrom(items, s.maxSize, Trace(s, schedule)))
  {
    if s.tasks == [] {
      NobodyMoves(s, schedule);
    } else {
      RestIsSolo(s, 0, items);
      var t := SoloRun(s, 0, items, schedule);
      if AllIdle(Exec(s, schedule)) {
        SoloIsRest(Exec(s, schedule), t, HeldFrom(items, s.maxSize, Trace(s, schedule)));
      }
    }
  }

  // --- A call alone ---

  predicate OnlyAdvances(schedule: seq<Move>) {
    forall i :: 0 <= i < |schedule| ==> schedule[i].choice.Advance?
  }

  // The task belongs to the call that the choice starts.
  predicate Runs(task: Task, choice: Choice) {
    match choice
    case StartSet(k, v) => (MakesRoom(task) || Stores(task)) && task.key == k && task.value == v
    case StartGet(k) => (task.GetLookup? || task.GetTouch? || task.GetRead?) && task.key == k
    case StartDelete(k) => (task.DeleteUnlink? || task.DeleteErase?) && task.key == k
    case Advance(_) => false
  }

  function CallOf(choice: Choice, ok: bool): Call
    requires !choice.Advance?
  {
    match choice
    case StartSet(k, v) => SetCall(k, v, ok)
    case StartGet(k) => GetCall(k)
    case StartDelete(k) => DeleteCall(k)
  }

  lemma MakesRoomOn(s: Shared, t: nat, choice: Choice)
    requires t < |s.tasks| && MakesRoom(s.tasks[t]) && Runs(s.tasks[t], choice)
    ensures t < |NextMakingRoom(s, t).tasks|
    ensures var next := NextMakingRoom(s, t).tasks[t]; Runs(next, choice) && !next.SetPublish?
  {
  }

  // A step of a call stays in it, or ends it.
  lemma RunsOn(s: Shared, t: nat, choice: Choice, writeOk: bool, next: Task)
    requires t < |s.tasks| && Runs(s.tasks[t], choice) && (s.holder.None? || MakesRoom(s.tasks[t]))
    requires next == Next(s, t, writeOk).tasks[t] && !next.Idle?
    ensures Runs(next, choice)
    ensures next.SetPublish? ==> next.written == writeOk
  {
    if MakesRoom(s.tasks[t]) {
      MakesRoomOn(s, t, choice);
    } else if Stores(s.tasks[t]) {
      assert next == NextStoring(s, t, writeOk).tasks[t];
    } else {
      assert next == NextReadingOrDeleting(s, t).tasks[t];
    }
  }

  // The outcome of the call's write, as far as the task and its next step tell.
  function Outcome(task: Task, writeOk: bool): bool {
    if task.SetPublish? then task.written else writeOk
  }

  lemma EndsAs(s: Shared, t: nat, before: seq<Item>, choice: Choice, writeOk: bool, next: Shared)
    requires !choice.Advance? && t < |s.tasks| == |next.tasks| && Completed(s.tasks[t]).Some?
    requires Runs(s.tasks[t], choice) && next.tasks[t].Idle?
    requires Solo(s, t, before) && next == Next(s, t, writeOk)
    ensures After(before, s.maxSize, Completed(s.tasks[t]).value)
         == After(before, s.maxSize, CallOf(choice, Outcome(s.tasks[t], writeOk)))
  {
    if s.tasks[t].SetReserve? {
      SoloTotal(s, t, before);
      ReserveStep(s, t, writeOk);
      assert !Admitted(before, s.maxSize, s.tasks[t].key, |s.tasks[t].value|);
    }
  }

  // One step of a call alone: it is closer to its end, or there.
  lemma CallStep(s: Shared, t: nat, before: seq<Item>, choice: Choice, writeOk: bool, next: Shared)
    requires Solo(s, t, before) && !choice.Advance? && Runs(s.tasks[t], choice) && next == Next(s, t, writeOk)
    ensures t < |next.tasks| && next.maxSize == s.maxSize
    ensures next.tasks[t].Idle? ==>
      AtRest(next, After(before, s.maxSize, CallOf(choice, Outcome(s.tasks[t], writeOk))))
    ensures !next.tasks[t].Idle? ==>
      && Solo(next, t, before) && Runs(next.tasks[t], choice) && StepsLeft(next, t) < StepsLeft(s, t)
      && (next.tasks[t].SetPublish? ==> next.tasks[t].written == writeOk)
  {
    SoloAdvance(s, t, before, writeOk);
    if next.tasks[t].Idle? {
      EndsAs(s, t, before, choice, writeOk, next);
      SoloIsRest(next, t, Base(s, t, next, before));
    } else {
      RunsOn(s, t, choice, writeOk, next.tasks[t]);
    }
  }

  // Some advance of the schedule carries the outcome ok.
  predicate HasOutcome(schedule: seq<Move>, ok: bool) {
    exists i :: 0 <= i < |schedule| && schedule[i].choice == Advance(ok)
  }

  lemma FirstAdvance(schedule: seq<Move>, t: nat)
    requires schedule != [] && OnlyAdvances(schedule)
    ensures schedule[0].choice.Advance? && OnlyAdvances(schedule[1..])
    ensures Advances(schedule, t) == (if schedule[0].thread == t then 1 else 0) + Advances(schedule[1..], t)
    ensures HasOutcome(schedule, schedule[0].choice.writeOk)
    ensures forall ok :: HasOutcome(schedule[1..], ok) ==> HasOutcome(schedule, ok)
  {
    var rest := schedule[1..];
    assert forall i :: 0 <= i < |rest| ==> rest[i] == schedule[i + 1];
  }

  lemma {:induction false} CallEnds(s: Shared, t: nat, before: seq<Item>, choice: Choice, schedule: seq<Move>)
    returns (ok: bool)
    requires Solo(s, t, before) && !choice.Advance? && Runs(s.tasks[t], choice)
    requires OnlyAdvances(schedule) && Advances(schedule, t) >= StepsLeft(s, t) > 0
    ensures AtRest(Exec(s, schedule), After(before, s.maxSize, CallOf(choice, ok)))
    ensures (s.tasks[t].SetPublish? && ok == s.tasks[t].written) || HasOutcome(schedule, ok)
    decreases |schedule|
  {
    var move, rest := schedule[0], schedule[1..];
    var next := Step(s, move);
    FirstAdvance(schedule, t);
    if move.thread == t {
      CallStep(s, t, before, choice, move.choice.writeOk, next);
      if next.tasks[t].Idle? {
        ok := Outcome(s.tasks[t], move.choice.writeOk);
        RestStays(next, rest);
      } else {
        ok := CallEnds(next, t, before, choice, rest);
      }
    } else {
      IdleStaysPut(s, move);
      ok := CallEnds(s, t, before, choice, rest);
    }
  }

  lemma {:induction false} RestStays(s: Shared, schedule: seq<Move>)
    requires AllIdle(s) && OnlyAdvances(schedule)
    ensures Exec(s, schedule) == s
  {
    if schedule != [] {
      IdleStaysPut(s, schedule[0]);
      assert forall i :: 0 <= i < |schedule[1..]| ==> schedule[1..][i] == schedule[i + 1];
      RestStays(s, schedule[1..]);
    }
  }

  /** A call that one thread starts at rest ends after at most 2n + 8 of its steps, n being the
      length of the list, while the others stay idle; it leaves what that call leaves in the
      sequential cache, the write's outcome being the one its step met. */
  lemma CallAloneIsSequential(s: Shared, items: seq<Item>, t: nat, choice: Choice, schedule: seq<Move>)
    returns (ok: bool)
    requires AtRest(s, items) && t < |s.tasks| && !choice.Advance?
    requires OnlyAdvances(schedule) && Advances(schedule, t) >= 2 * |s.list| + 8
    ensures HasOutcome(schedule, ok)
    ensures AtRest(Exec(s, [Move(t, choice)] + schedule), After(items, s.maxSize, CallOf(choice, ok)))
  {
    var start := Move(t, choice);
    var begun := Step(s, start);
    RestIsSolo(s, t, items);
    SoloBegins(s, t, items, start);
    ok := CallEnds(begun, t, items, choice, schedule);
    assert ([start] + schedule)[1..] == schedule;
  }

  // What agreement says of each part.
  lemma RestIsExact(s: Shared, items: seq<Item>)
    requires AtRest(s, items)
    ensures s.currentSize == Total(items) == StoreBytes(s.store)
    ensures forall key :: Find(items, key) == if key in s.store then Some(s.store[key]) else None
    ensures s.index.Keys == s.store.Keys && |s.list| == |items|
  {
    RestCounts(s, items);
    forall key
      ensures Find(items, key) == if key in s.store then Some(s.store[key]) else None
      ensures key in s.index <==> key in s.store
    {
      RestAt(s, items, key);
    }
  }

  lemma RestCounts(s: Shared, items: seq<Item>)
    requires AtRest(s, items)
    ensures s.currentSize == Total(items) == StoreBytes(s.store)
  {
    NothingReserved(s.tasks);
    EntriesTotal(s.list, s.store);
    StoredIsListed(s);
  }

  lemma RestAt(s: Shared, items: seq<Item>, key: string)
    requires AtRest(s, items)
    ensures Find(items, key) == if key in s.store then Some(s.store[key]) else None
    ensures key in s.index <==> key in s.store
  {
    EntriesHaveTheKeys(s.list, s.store, key);
    FindIsMembership(items, key);
    if key in s.store {
      var node := s.index[key];
      var i :| 0 <= i < |s.list| && s.list[i] == node;
      EntriesAt(s.list, s.store, i);
      EntriesAreDistinct(s.list, s.index, s.store);
      FindUnique(items, items[i]);
    }
  }

  lemma StoredIsListed(s: Shared)
    requires ListIsSound(s) && Matched(s.list, s.index, s.store) && StoreIsMapped(s.index, s.store, None)
    ensures StoreBytes(s.store) == SumSizes(s.list)
  {
    forall key | key in s.store
      ensures exists node :: node in s.list && node.key == key && node.size == |s.store[key]|
    {
      assert s.index[key] in s.list;
    }
    ListedIsStoredIff(s.list, s.store);
  }

  /** A cache that starts empty and is never called twice at once: whenever it is idle, its list
      gives the entries of the sequential run, keyed and counted exactly, with nothing left over
      in map or store. */
  lemma NonOverlappingIsSequential(maxSize: int, threads: nat, schedule: seq<Move>)
    requires OneAtATime(Fresh(maxSize, threads), schedule)
    ensures NeverAnOrphan(Fresh(maxSize, threads), schedule)
    ensures var after := Exec(Fresh(maxSize, threads), schedule);
            var items := Held(maxSize, Trace(Fresh(maxSize, threads), schedule));
            AllIdle(after) ==>
            && Entries(after.list, after.store) == items
            && after.currentSize == Total(items) == StoreBytes(after.store)
            && after.index.Keys == after.store.Keys
            && forall key :: Find(items, key) == if key in after.store then Some(after.store[key]) else None
  {
    var s := Fresh(maxSize, threads);
    var after := Exec(s, schedule);
    FreshIsSound(maxSize, threads);
    CallsOneAtATime(s, [], schedule);
    if AllIdle(after) {
      RestIsExact(after, Held(maxSize, Trace(s, schedule)));
    }
  }
}
