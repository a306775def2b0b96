/**
 CacheInvalidator (groove/proxy/cache/invalidator.go) shared by any number of threads. Each call
 works on the memory tier first and on the disk tier later; one step is one tier's whole part of
 a call. What threads do to each other between the two parts is settled here.
 */
module TierThreads {
  import opened Prelude
  import opened RecencyList

  // The disk part a thread has still to do, its memory part done.
  datatype Task =
    | Idle
    | SetDisk(key: string, value: Bytes, writeOk: bool)
    | GetDisk(key: string)
    | DeleteDisk(key: string)
    | ClearDisk

  datatype Shared = Shared(memory: seq<Item>, disk: seq<Item>, memoryMax: int, diskMax: int, tasks: seq<Task>)

  // Start a call on an idle thread, which does its memory part, or let the thread do its disk part.
  datatype Choice =
    | StartSet(key: string, value: Bytes, writeOk: bool)
    | StartGet(key: string)
    | StartDelete(key: string)
    | StartClear
    | Advance

  datatype Move = Move(thread: nat, choice: Choice)

  function Goto(s: Shared, t: nat, task: Task): Shared
    requires t < |s.tasks|
  {
    s.(tasks := s.tasks[t := task])
  }

  function Start(s: Shared, t: nat, choice: Choice): Shared
    requires t < |s.tasks|
  {
    match choice
    case StartSet(k, v, ok) => Goto(s.(memory := AfterSet(s.memory, s.memoryMax, k, v, true)), t, SetDisk(k, v, ok))
    case StartGet(k) => Goto(s.(memory := AfterGet(s.memory, k)), t, GetDisk(k))
    case StartDelete(k) => Goto(s.(memory := Without(s.memory, k)), t, DeleteDisk(k))
    case StartClear => Goto(s.(memory := []), t, ClearDisk)
    case Advance => s
  }

  function Finish(s: Shared, t: nat): Shared
    requires t < |s.tasks|
  {
    match s.tasks[t]
    case Idle => s
    case SetDisk(k, v, ok) => Goto(s.(disk := AfterSet(s.disk, s.diskMax, k, v, ok)), t, Idle)
    case GetDisk(k) => Goto(s.(disk := AfterGet(s.disk, k)), t, Idle)
    case DeleteDisk(k) => Goto(s.(disk := Without(s.disk, k)), t, Idle)
    case ClearDisk => Goto(s.(disk := []), t, Idle)
  }

  function Step(s: Shared, move: Move): Shared {
    if move.thread >= |s.tasks| then s
    else if move.choice.Advance? then Finish(s, move.thread)
    else if s.tasks[move.thread].Idle? then Start(s, move.thread, move.choice)
    else s
  }

  function Exec(s: Shared, schedule: seq<Move>): Shared
    decreases |schedule|
  {
    if schedule == [] then s else Exec(Step(s, schedule[0]), schedule[1..])
  }

  function Fresh(memoryMax: int, diskMax: int, threads: nat): Shared {
    Shared([], [], memoryMax, diskMax, seq(threads, _ => Idle))
  }

  // --- What tiers may hold ---

  ghost predicate Writing(s: Shared, key: string) {
    exists t :: 0 <= t < |s.tasks| && s.tasks[t].SetDisk? && s.tasks[t].key == key
  }

  ghost predicate Agree(s: Shared, key: string) {
    Find(s.memory, key).Some? && Find(s.disk, key).Some? ==> Find(s.memory, key) == Find(s.disk, key)
  }

  // What a thread has still to write is what memory holds for the key, if it holds anything.
  ghost predicate Ahead(s: Shared, t: nat)
    requires t < |s.tasks| && s.tasks[t].SetDisk?
  {
    Find(s.memory, s.tasks[t].key).Some? ==> Find(s.memory, s.tasks[t].key) == Some(s.tasks[t].value)
  }

  // The tiers agree on each key that nobody is writing, and nobody will write an older value.
  ghost predicate Coherent(s: Shared) {
    && DistinctKeys(s.memory) && DistinctKeys(s.disk)
    && (forall t :: 0 <= t < |s.tasks| && s.tasks[t].SetDisk? ==> Ahead(s, t))
    && (forall key :: Writing(s, key) || Agree(s, key))
  }

  // What a list holds for other keys after a call: what it held, or nothing.
  ghost predicate Shrinks(after: seq<Item>, before: seq<Item>, key: string) {
    Find(after, key).Some? ==> Find(after, key) == Find(before, key)
  }

  lemma FoundIn(items: seq<Item>, after: seq<Item>, key: string)
    requires DistinctKeys(items) && DistinctKeys(after)
    requires Find(after, key).Some? ==> Item(key, Find(after, key).value) in items
    ensures Shrinks(after, items, key)
  {
    if Find(after, key).Some? {
      FindUnique(items, Item(key, Find(after, key).value));
    }
  }

  lemma SetShrinks(items: seq<Item>, maxSize: int, key: string, value: Bytes, writeOk: bool, other: string)
    requires DistinctKeys(items)
    ensures var after := AfterSet(items, maxSize, key, value, writeOk);
            && DistinctKeys(after)
            && (other != key ==> Shrinks(after, items, other))
            && (Find(after, key) == if writeOk && Admitted(items, maxSize, key, |value|) then Some(value) else None)
  {
    var after := AfterSet(items, maxSize, key, value, writeOk);
    CallsKeepKeysDistinct(items, maxSize, key, value, writeOk);
    KeptFacts(items, maxSize, key, |value|);
    FindIsMembership(after, other);
    FindIsMembership(Kept(items, maxSize, key, |value|), key);
    if other != key {
      FoundIn(items, after, other);
    }
  }

  lemma WithoutShrinks(items: seq<Item>, key: string, other: string)
    requires DistinctKeys(items)
    ensures DistinctKeys(Without(items, key)) && Shrinks(Without(items, key), items, other)
    ensures Find(Without(items, key), key) == None
  {
    WithoutDistinct(items, key);
    WithoutMembers(items, key);
    FindIsMembership(Without(items, key), other);
    FindIsMembership(Without(items, key), key);
    FoundIn(items, Without(items, key), other);
  }

  lemma GetShrinks(items: seq<Item>, key: string, other: string)
    requires DistinctKeys(items)
    ensures DistinctKeys(AfterGet(items, key)) && Shrinks(AfterGet(items, key), items, other)
  {
    CallsKeepKeysDistinct(items, 0, key, [], false);
    FindIsMembership(items, key);
    WithoutMembers(items, key);
    FindIsMembership(AfterGet(items, key), other);
    FoundIn(items, AfterGet(items, key), other);
  }

  // --- Steps ---

  // A step that writes nothing new keeps coherence.
  lemma ShrinkingKeepsCoherent(s: Shared, after: Shared, t: nat, task: Task)
    requires Coherent(s) && t < |s.tasks| && !s.tasks[t].SetDisk? && !task.SetDisk?
    requires after.tasks == s.tasks[t := task] && DistinctKeys(after.memory) && DistinctKeys(after.disk)
    requires forall key :: Shrinks(after.memory, s.memory, key) && Shrinks(after.disk, s.disk, key)
    ensures Coherent(after)
  {
    forall key: string
      ensures Writing(after, key) || Agree(after, key)
    {
      assert Shrinks(after.memory, s.memory, key) && Shrinks(after.disk, s.disk, key);
      if Writing(s, key) {
        var u :| 0 <= u < |s.tasks| && s.tasks[u].SetDisk? && s.tasks[u].key == key;
        assert after.tasks[u] == s.tasks[u];
      }
    }
    forall u | 0 <= u < |after.tasks| && after.tasks[u].SetDisk?
      ensures Ahead(after, u)
    {
      assert after.tasks[u] == s.tasks[u] && Ahead(s, u);
      assert Shrinks(after.memory, s.memory, s.tasks[u].key);
    }
  }

  // Memory takes the value of a Set, or it does not fit.
  predicate Enters(s: Shared, choice: Choice)
    requires choice.StartSet?
  {
    Admitted(s.memory, s.memoryMax, choice.key, |choice.value|)
  }

  // Nobody is about to write another value for the key, or memory does not take this one.
  ghost predicate SafeToSet(s: Shared, choice: Choice)
    requires choice.StartSet?
  {
    Enters(s, choice) ==>
      forall u :: 0 <= u < |s.tasks| && s.tasks[u].SetDisk? && s.tasks[u].key == choice.key ==>
        s.tasks[u].value == choice.value
  }

  lemma SetStarts(s: Shared, t: nat, choice: Choice)
    requires Coherent(s) && t < |s.tasks| && s.tasks[t].Idle? && choice.StartSet?
    ensures Coherent(Start(s, t, choice)) <==> SafeToSet(s, choice)
  {
    var key, value := choice.key, choice.value;
    var after := Start(s, t, choice);
    assert after.tasks[t] == SetDisk(key, value, choice.writeOk);
    forall other: string
      ensures Writing(after, other) || Agree(after, other)
    {
      SetShrinks(s.memory, s.memoryMax, key, value, true, other);
      if other != key && Writing(s, other) {
        var u :| 0 <= u < |s.tasks| && s.tasks[u].SetDisk? && s.tasks[u].key == other;
        assert after.tasks[u] == s.tasks[u];
      }
    }
    forall u | 0 <= u < |s.tasks| && u != t && s.tasks[u].SetDisk?
      ensures Ahead(after, u) <==> (s.tasks[u].key == key && Enters(s, choice) ==> s.tasks[u].value == value)
      ensures after.tasks[u] == s.tasks[u]
    {
      assert Ahead(s, u);
      SetShrinks(s.memory, s.memoryMax, key, value, true, s.tasks[u].key);
    }
    SetShrinks(s.memory, s.memoryMax, key, value, true, key);
  }

  lemma SetFinishes(s: Shared, t: nat)
    requires Coherent(s) && t < |s.tasks| && s.tasks[t].SetDisk?
    ensures Coherent(Finish(s, t))
  {
    var key := s.tasks[t].key;
    var after := Finish(s, t);
    assert Ahead(s, t);
    forall other: string
      ensures Writing(after, other) || Agree(after, other)
    {
      SetShrinks(s.disk, s.diskMax, key, s.tasks[t].value, s.tasks[t].writeOk, other);
      if other != key && Writing(s, other) {
        var u :| 0 <= u < |s.tasks| && s.tasks[u].SetDisk? && s.tasks[u].key == other;
        assert after.tasks[u] == s.tasks[u];
      }
    }
    SetShrinks(s.disk, s.diskMax, key, s.tasks[t].value, s.tasks[t].writeOk, key);
    forall u | 0 <= u < |after.tasks| && after.tasks[u].SetDisk?
      ensures Ahead(after, u)
    {
      assert after.tasks[u] == s.tasks[u] && Ahead(s, u);
    }
  }

  lemma OtherStarts(s: Shared, t: nat, choice: Choice)
    requires Coherent(s) && t < |s.tasks| && s.tasks[t].Idle? && !choice.StartSet? && !choice.Advance?
    ensures Coherent(Start(s, t, choice))
  {
    var after := Start(s, t, choice);
    forall key: string
      ensures DistinctKeys(after.memory) && Shrinks(after.memory, s.memory, key) && Shrinks(after.disk, s.disk, key)
    {
      match choice {
        case StartGet(k) => GetShrinks(s.memory, k, key);
        case StartDelete(k) => WithoutShrinks(s.memory, k, key);
        case StartClear =>
      }
    }
    assert Shrinks(after.memory, s.memory, "");
    ShrinkingKeepsCoherent(s, after, t, after.tasks[t]);
  }

  lemma OtherFinishes(s: Shared, t: nat)
    requires Coherent(s) && t < |s.tasks| && !s.tasks[t].SetDisk?
    ensures Coherent(Finish(s, t))
  {
    var after := Finish(s, t);
    assert s.tasks[t := s.tasks[t]] == s.tasks;
    forall key: string
      ensures DistinctKeys(after.disk) && Shrinks(after.memory, s.memory, key) && Shrinks(after.disk, s.disk, key)
    {
      match s.tasks[t] {
        case GetDisk(k) => GetShrinks(s.disk, k, key);
        case DeleteDisk(k) => WithoutShrinks(s.disk, k, key);
        case _ =>
      }
    }
    assert Shrinks(after.disk, s.disk, "");
    ShrinkingKeepsCoherent(s, after, t, after.tasks[t]);
  }

  predicate Sets(s: Shared, move: Move) {
    move.thread < |s.tasks| && s.tasks[move.thread].Idle? && move.choice.StartSet?
  }

  /** A step keeps the tiers coherent unless it starts a Set, and the start of a Set does if and
      only if nobody is about to write another value for its key or memory does not take its own. */
  lemma CoherentStep(s: Shared, move: Move)
    requires Coherent(s)
    ensures Coherent(Step(s, move)) <==> (Sets(s, move) ==> SafeToSet(s, move.choice))
  {
    var t := move.thread;
    if t < |s.tasks| {
      if move.choice.Advance? {
        if s.tasks[t].SetDisk? {
          SetFinishes(s, t);
        } else {
          OtherFinishes(s, t);
        }
      } else if s.tasks[t].Idle? {
        if move.choice.StartSet? {
          SetStarts(s, t, move.choice);
        } else {
          OtherStarts(s, t, move.choice);
        }
      }
    }
  }

  // --- Schedules ---

  ghost predicate AlwaysCoherent(s: Shared, schedule: seq<Move>)
    decreases |schedule|
  {
    Coherent(s) && (schedule == [] || AlwaysCoherent(Step(s, schedule[0]), schedule[1..]))
  }

  ghost predicate SetsAreSafe(s: Shared, schedule: seq<Move>)
    decreases |schedule|
  {
    schedule == [] ||
    (&& (Sets(s, schedule[0]) ==> SafeToSet(s, schedule[0].choice))
     && SetsAreSafe(Step(s, schedule[0]), schedule[1..]))
  }

  ghost predicate AllIdle(s: Shared) {
    forall t :: 0 <= t < |s.tasks| ==> s.tasks[t].Idle?
  }

  /** The tiers are coherent throughout a schedule if and only if every Set in it starts safely. */
  lemma {:induction false} CoherentIffSetsAreSafe(s: Shared, schedule: seq<Move>)
    requires Coherent(s)
    ensures AlwaysCoherent(s, schedule) <==> SetsAreSafe(s, schedule)
    ensures SetsAreSafe(s, schedule) ==> Coherent(Exec(s, schedule))
    decreases |schedule|
  {
    if schedule != [] {
      CoherentStep(s, schedule[0]);
      if Coherent(Step(s, schedule[0])) {
        CoherentIffSetsAreSafe(Step(s, schedule[0]), schedule[1..]);
      }
    }
  }

  lemma FreshIsCoherent(memoryMax: int, diskMax: int, threads: nat)
    ensures Coherent(Fresh(memoryMax, diskMax, threads))
  {
  }

  /** So from an empty cache, if every Set starts safely, the tiers
      agree on every shared key whenever all threads are idle. */
  lemma TiersAgreeWhenIdle(memoryMax: int, diskMax: int, threads: nat, schedule: seq<Move>, key: string)
    requires SetsAreSafe(Fresh(memoryMax, diskMax, threads), schedule)
    requires AllIdle(Exec(Fresh(memoryMax, diskMax, threads), schedule))
    ensures Agree(Exec(Fresh(memoryMax, diskMax, threads), schedule), key)
  {
    FreshIsCoherent(memoryMax, diskMax, threads);
    CoherentIffSetsAreSafe(Fresh(memoryMax, diskMax, threads), schedule);
  }

  // --- Overlapping Sets ---

  lemma TwoMoves(s: Shared, a: Move, b: Move)
    ensures Exec(s, [a, b]) == Step(Step(s, a), b)
  {
    assert [a, b][1..] == [b] && [b][1..] == [];
    assert Exec(Step(s, a), [b]) == Exec(Step(Step(s, a), b), []);
  }

  /** The condition is needed: when memory takes a Set's value while another thread is about to
      write a different one that the disk takes, letting the new Set finish first and the other
      one last leaves the tiers at odds over the key, with both threads idle. */
  lemma UnsafeSetLeavesTiersAtOdds(s: Shared, t: nat, u: nat, choice: Choice)
    requires Coherent(s) && t < |s.tasks| && u < |s.tasks| && s.tasks[t].Idle? && choice.StartSet?
    requires s.tasks[u].SetDisk? && s.tasks[u].key == choice.key && s.tasks[u].value != choice.value
    requires Enters(s, choice) && s.tasks[u].writeOk
    requires var disk := AfterSet(s.disk, s.diskMax, choice.key, choice.value, choice.writeOk);
             Admitted(disk, s.diskMax, choice.key, |s.tasks[u].value|)
    ensures var after := Exec(Step(s, Move(t, choice)), [Move(t, Advance), Move(u, Advance)]);
            && |after.tasks| == |s.tasks|
            && after.tasks[t].Idle? && after.tasks[u].Idle? && !Agree(after, choice.key)
  {
    var key, value := choice.key, choice.value;
    var started := Step(s, Move(t, choice));
    assert started.tasks[t] == SetDisk(key, value, choice.writeOk) && started.tasks[u] == s.tasks[u];
    TwoMoves(started, Move(t, Advance), Move(u, Advance));
    var first := Step(started, Move(t, Advance));
    assert first.tasks[u] == s.tasks[u];
    SetShrinks(s.memory, s.memoryMax, key, value, true, key);
    SetShrinks(s.disk, s.diskMax, key, value, choice.writeOk, key);
    SetShrinks(first.disk, s.diskMax, key, s.tasks[u].value, true, key);
  }
}
