/**
 When a shared LRUCache has a file of the recorded size for every key it maps: the steps that
 write and erase files take no lock, and each of them is safe under a condition of its own.
 */
module LruFiles {
  import opened Prelude
  import opened LruThreads
  import opened LruEviction

  // Every mapped key is stored at the size its element records.
  ghost predicate FilesMatch(s: Shared) {
    forall key :: key in s.index ==> key in s.store && |s.store[key]| == s.index[key].size
  }

  // What the step of a thread needs, so as to leave a matching file for every mapped key.
  predicate SafeForFiles(s: Shared, move: Move) {
    move.thread < |s.tasks| && move.choice.Advance? ==>
      match s.tasks[move.thread]
      case SetErase(k, _) => k !in s.index
      case SetEvictErase(_, _, victim) => victim !in s.index
      case DeleteErase(k) => k !in s.index
      case SetWrite(k, v) => move.choice.writeOk && k in s.index ==> |v| == s.index[k].size
      case SetPublish(k, v, written) => written && s.holder.None? ==> k in s.store && |s.store[k]| == |v|
      case _ => true
  }

  lemma FilesWhileMakingRoom(s: Shared, t: nat, writeOk: bool)
    requires t < |s.tasks| && MakesRoom(s.tasks[t]) && FilesMatch(s)
    ensures FilesMatch(NextMakingRoom(s, t)) <==> SafeForFiles(s, Move(t, Advance(writeOk)))
  {
    var after := NextMakingRoom(s, t);
    match s.tasks[t] {
      case SetErase(k, _) => ErasingFiles(s, after, k);
      case SetEvictErase(_, _, victim) => ErasingFiles(s, after, victim);
      case _ => FewerMapped(s, after);
    }
  }

  lemma ErasingFiles(s: Shared, after: Shared, key: string)
    requires FilesMatch(s) && after.index == s.index && after.store == s.store - {key}
    ensures FilesMatch(after) <==> key !in s.index
  {
  }

  lemma FewerMapped(s: Shared, after: Shared)
    requires FilesMatch(s) && after.store == s.store
    requires forall key :: key in after.index ==> key in s.index && after.index[key] == s.index[key]
    ensures FilesMatch(after)
  {
  }

  lemma FilesWhileStoring(s: Shared, t: nat, writeOk: bool)
    requires t < |s.tasks| && Stores(s.tasks[t]) && FilesMatch(s)
    ensures FilesMatch(NextStoring(s, t, writeOk)) <==> SafeForFiles(s, Move(t, Advance(writeOk)))
  {
    var key, value, after := s.tasks[t].key, s.tasks[t].value, NextStoring(s, t, writeOk);
    if s.tasks[t].SetWrite? && writeOk {
      assert after.store == s.store[key := value] && after.index == s.index;
      assert key in s.index ==> after.store[key] == value;
    } else if s.tasks[t].SetPublish? && s.tasks[t].written && s.holder.None? {
      assert after.store == s.store && after.index == s.index[key := Node(s.nextId, key, |value|)];
      assert key in after.index;
    } else {
      FewerMapped(s, after);
    }
  }

  lemma FilesWhileReadingOrDeleting(s: Shared, t: nat, writeOk: bool)
    requires t < |s.tasks| && !MakesRoom(s.tasks[t]) && !Stores(s.tasks[t]) && FilesMatch(s)
    ensures FilesMatch(NextReadingOrDeleting(s, t)) <==> SafeForFiles(s, Move(t, Advance(writeOk)))
  {
    var after := NextReadingOrDeleting(s, t);
    match s.tasks[t] {
      case DeleteErase(k) => ErasingFiles(s, after, k);
      case _ => FewerMapped(s, after);
    }
  }

  /** With a matching file for every mapped key, a step leaves one for every mapped key if and only
      if: an erased key is not mapped again by then, a key written to is not mapped at another
      size, and a key published still has the file its thread wrote, or one of that size. */
  lemma FilesStep(s: Shared, move: Move)
    requires FilesMatch(s)
    ensures FilesMatch(Step(s, move)) <==> SafeForFiles(s, move)
  {
    var t := move.thread;
    if t < |s.tasks| {
      if move.choice.Advance? {
        if MakesRoom(s.tasks[t]) {
          FilesWhileMakingRoom(s, t, move.choice.writeOk);
        } else if Stores(s.tasks[t]) {
          FilesWhileStoring(s, t, move.choice.writeOk);
        } else {
          FilesWhileReadingOrDeleting(s, t, move.choice.writeOk);
        }
      } else {
        FewerMapped(s, Step(s, move));
      }
    }
  }

  ghost predicate FilesAlwaysMatch(s: Shared, schedule: seq<Move>)
    decreases |schedule|
  {
    FilesMatch(s) && (schedule == [] || FilesAlwaysMatch(Step(s, schedule[0]), schedule[1..]))
  }

  ghost predicate AlwaysSafeForFiles(s: Shared, schedule: seq<Move>)
    decreases |schedule|
  {
    schedule == [] || (SafeForFiles(s, schedule[0]) && AlwaysSafeForFiles(Step(s, schedule[0]), schedule[1..]))
  }

  /** Every mapped key has a matching file throughout a schedule if and only if every step in it is
      safe in that sense. */
  lemma {:induction false} FilesMatchIffStepsAreSafe(s: Shared, schedule: seq<Move>)
    requires FilesMatch(s)
    ensures FilesAlwaysMatch(s, schedule) <==> AlwaysSafeForFiles(s, schedule)
    decreases |schedule|
  {
    if schedule != [] {
      FilesStep(s, schedule[0]);
      if FilesMatch(Step(s, schedule[0])) {
        FilesMatchIffStepsAreSafe(Step(s, schedule[0]), schedule[1..]);
      }
    }
  }

  lemma RunToErase() returns (schedule: seq<Move>)
    ensures Exec(Fresh(1, 2), schedule) == Fresh(1, 2).(tasks := [DeleteErase("k"), Idle])
  {
    var start, go := Fresh(1, 2), Move(0, Advance(true));
    assert start.tasks == [Idle, Idle];
    var unlinking := Goto(start, 0, DeleteUnlink("k"));
    schedule := Extend(start, [], start, Move(0, StartDelete("k")));
    schedule := Extend(start, schedule, unlinking, go);
    assert Step(unlinking, go).tasks == [DeleteErase("k"), Idle];
  }

  /** A step can be unsafe: a Delete that erases the file after another thread has set the key
      again leaves the key listed and mapped without its file, all threads being idle. */
  lemma LateEraseLosesFile() returns (schedule: seq<Move>)
    ensures Exec(Fresh(1, 2), schedule)
         == Shared([Node(0, "k", 1)], map["k" := Node(0, "k", 1)], 1, 1, map[], None, 1, [Idle, Idle])
  {
    var start, v, go := Fresh(1, 2), [0], Move(0, Advance(true));
    var s := start.(tasks := [DeleteErase("k"), Idle]);
    schedule := RunToErase();
    schedule := RunToLock(start, schedule, s, 1, "k", v);
    var locking := s.(tasks := [DeleteErase("k"), SetLock("k", v)]);
    assert Goto(s, 1, SetLock("k", v)) == locking;
    schedule := RunInsertion(start, schedule, locking, 1, "k", v);
    var inserted := Inserted(locking, 1, "k", v);
    assert inserted == Shared([Node(0, "k", 1)], map["k" := Node(0, "k", 1)], 1, 1, map["k" := v], None, 1,
        [DeleteErase("k"), Idle]);
    schedule := Extend(start, schedule, inserted, go);
    assert Step(inserted, go).tasks == [Idle, Idle];
  }
}
