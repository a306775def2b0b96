/**
 When the eviction loop of a shared LRUCache ends. It deletes by key, so it makes progress
 exactly when the oldest element's key is still mapped; whether the loop ends is settled by
 list, map and counter at its start. Two overlapping Sets of one key can leave an unmapped
 element behind, on which a later eviction spins while holding the lock.
 */
module LruEviction {
  import opened Prelude
  import opened LruThreads

  // Bytes that must still go before t's value fits.
  function Excess(s: Shared, t: nat): int
    requires t < |s.tasks| && (s.tasks[t].SetEvict? || s.tasks[t].SetEvictErase?)
  {
    s.currentSize + |s.tasks[t].value| - s.maxSize
  }

  ghost predicate NeedsRoom(s: Shared, t: nat)
    requires t < |s.tasks| && (s.tasks[t].SetEvict? || s.tasks[t].SetEvictErase?)
  {
    Excess(s, t) > 0 && s.list != []
  }

  ghost predicate OldestIsMapped(s: Shared) {
    s.list != [] && s.list[|s.list| - 1].key in s.index
  }

  lemma UnlinkMapped(s: Shared, key: string)
    requires ListIsSound(s) && key in s.index
    ensures |Unlink(s, key).list| == |s.list| - 1
  {
    RemoveFacts(s.list, s.index[key]);
  }

  lemma EraseStep(s: Shared, t: nat, writeOk: bool)
    requires t < |s.tasks| && s.tasks[t].SetEvictErase?
    ensures Next(s, t, writeOk)
         == Goto(s.(store := s.store - {s.tasks[t].victim}), t, SetEvict(s.tasks[t].key, s.tasks[t].value))
  {
    assert Next(s, t, writeOk) == NextMakingRoom(s, t);
  }

  // A round that finds the oldest key unmapped changes nothing but the store.
  lemma RoundWithoutProgress(s: Shared, t: nat)
    requires t < |s.tasks| && s.tasks[t].SetEvict? && NeedsRoom(s, t) && !OldestIsMapped(s)
    ensures Next(s, t, true).list == s.list && |Next(s, t, true).tasks| == |s.tasks|
    ensures var again := Next(Next(s, t, true), t, true);
            again.list == s.list && again.index == s.index && again.currentSize == s.currentSize &&
                again.tasks == s.tasks
  {
    EvictStep(s, t, true);
    var after := Next(s, t, true);
    EraseStep(after, t, true);
    assert Next(after, t, true).tasks == s.tasks;
  }

  /** One round of the loop shortens the list if and only if the oldest element's key is mapped. */
  lemma RoundProgress(s: Shared, t: nat)
    requires Inv(s) && t < |s.tasks| && s.tasks[t].SetEvict? && NeedsRoom(s, t)
    ensures |Next(s, t, true).list| < |s.list| <==> OldestIsMapped(s)
    ensures |Next(s, t, true).tasks| == |s.tasks|
    ensures !OldestIsMapped(s) ==>
      var again := Next(Next(s, t, true), t, true);
      again.list == s.list && again.index == s.index && again.currentSize == s.currentSize && again.tasks == s.tasks
  {
    EvictStep(s, t, true);
    if OldestIsMapped(s) {
      UnlinkMapped(s, s.list[|s.list| - 1].key);
    } else {
      RoundWithoutProgress(s, t);
    }
  }

  /** While t holds the lock no step of another thread changes the list, the map, the counter
      or t's own place. */
  lemma HolderOwnsList(s: Shared, t: nat, move: Move)
    requires t < |s.tasks| && s.holder == Some(t) && LockIsExclusive(s) && move.thread != t
    ensures var after := Step(s, move);
            && after.list == s.list && after.index == s.index && after.currentSize == s.currentSize
            && after.maxSize == s.maxSize && after.holder == s.holder
            && |after.tasks| == |s.tasks| && after.tasks[t] == s.tasks[t]
    ensures LockIsExclusive(Step(s, move))
  {
    var u := move.thread;
    if u < |s.tasks| {
      assert s.tasks[u].SetEvict? || s.tasks[u].SetEvictErase? <==> s.holder == Some(u);
      if move.choice.Advance? {
        LockStaysExclusive(s, u, move.choice.writeOk);
        if MakesRoom(s.tasks[u]) {
          assert NextMakingRoom(s, u).list == s.list;
        } else if Stores(s.tasks[u]) {
          assert NextStoring(s, u, move.choice.writeOk).list == s.list;
        } else {
          assert NextReadingOrDeleting(s, u).list == s.list;
        }
      }
    }
  }

  // t is in the loop, needs room, and the oldest element's key is not mapped.
  ghost predicate Stuck(s: Shared, t: nat) {
    && t < |s.tasks| && s.holder == Some(t) && LockIsExclusive(s)
    && (s.tasks[t].SetEvict? || s.tasks[t].SetEvictErase?)
    && NeedsRoom(s, t) && !OldestIsMapped(s)
  }

  /** A stuck eviction never ends: under every schedule the thread keeps the lock and the list
      never changes again. */
  lemma {:induction false} StuckForever(s: Shared, t: nat, schedule: seq<Move>)
    requires Stuck(s, t)
    ensures Stuck(Exec(s, schedule), t)
    ensures Exec(s, schedule).list == s.list && Exec(s, schedule).holder == Some(t)
    decreases |schedule|
  {
    if schedule != [] {
      StuckStep(s, t, schedule[0]);
      StuckForever(Step(s, schedule[0]), t, schedule[1..]);
    }
  }

  lemma StuckStep(s: Shared, t: nat, move: Move)
    requires Stuck(s, t)
    ensures Stuck(Step(s, move), t) && Step(s, move).list == s.list
  {
    if move.thread != t {
      HolderOwnsList(s, t, move);
    } else if move.choice.Advance? {
      LockStaysExclusive(s, t, move.choice.writeOk);
      assert Next(s, t, move.choice.writeOk) == NextMakingRoom(s, t);
    }
  }

  // --- When the loop ends ---

  /** Evicting from the back frees excess bytes: nothing is left to free or to evict, or the back
      key is mapped and evicting what it maps to leaves less to free. Evicting an element other
      than the back one unmaps the back key, so that must be enough by itself. */
  predicate Frees(list: seq<Node>, index: map<string, Node>, excess: int) {
    excess <= 0 || list == [] ||
    (var back := list[|list| - 1];
     back.key in index &&
     (if index[back.key] == back then Frees(list[..|list| - 1], index - {back.key}, excess - back.size)
      else index[back.key].size >= excess))
  }

  // t is somewhere in the loop of a Set of value under key.
  ghost predicate Evicting(s: Shared, t: nat, key: string, value: Bytes) {
    && Inv(s) && t < |s.tasks| && s.holder == Some(t)
    && (s.tasks[t] == SetEvict(key, value)
        || (s.tasks[t].SetEvictErase? && s.tasks[t].key == key && s.tasks[t].value == value))
  }

  ghost predicate CanEnd(s: Shared, t: nat)
    requires t < |s.tasks| && (s.tasks[t].SetEvict? || s.tasks[t].SetEvictErase?)
  {
    Frees(s.list, s.index, Excess(s, t))
  }

  lemma {:induction false} RemoveBack(list: seq<Node>)
    requires list != [] && forall i, j :: 0 <= i < j < |list| ==> list[i].id != list[j].id
    ensures Remove(list, list[|list| - 1]) == list[..|list| - 1]
  {
    if |list| > 1 {
      RemoveBack(list[1..]);
      assert list[..|list| - 1] == [list[0]] + list[1..][..|list| - 2];
    }
  }

  lemma {:induction false} RemoveInFront(list: seq<Node>, node: Node)
    requires list != [] && node != list[|list| - 1]
    ensures Remove(list, node) != [] && Remove(list, node)[|Remove(list, node)| - 1] == list[|list| - 1]
  {
    if list[0] != node && |list| > 1 {
      RemoveInFront(list[1..], node);
    }
  }

  // One eviction does not change whether evicting frees enough.
  lemma EvictionKeepsFrees(list: seq<Node>, index: map<string, Node>, excess: int)
    requires list != [] && excess > 0 && list[|list| - 1].key in index
    requires forall i, j :: 0 <= i < j < |list| ==> list[i].id != list[j].id
    ensures var key := list[|list| - 1].key;
            Frees(Remove(list, index[key]), index - {key}, excess - index[key].size) <==> Frees(list, index, excess)
  {
    var back := list[|list| - 1];
    if index[back.key] == back {
      RemoveBack(list);
    } else {
      RemoveInFront(list, index[back.key]);
      UnmappedBack(Remove(list, index[back.key]), index - {back.key}, excess - index[back.key].size);
    }
  }

  lemma UnmappedBack(list: seq<Node>, index: map<string, Node>, excess: int)
    requires list != [] && list[|list| - 1].key !in index
    ensures Frees(list, index, excess) <==> excess <= 0
  {
  }

  // Steps t still needs at most.
  function Fuel(s: Shared, t: nat): nat
    requires t < |s.tasks|
  {
    2 * |s.list| + if s.tasks[t].SetEvict? then 1 else 2
  }

  lemma EvictKeepsCanEnd(s: Shared, t: nat, writeOk: bool)
    requires ListIsSound(s) && t < |s.tasks| && s.tasks[t].SetEvict? && NeedsRoom(s, t) && OldestIsMapped(s)
    ensures var after := Next(s, t, writeOk);
            && |after.tasks| == |s.tasks| && after.tasks[t].SetEvictErase? && (CanEnd(after, t) <==> CanEnd(s, t))
            && Fuel(after, t) < Fuel(s, t)
  {
    EvictStep(s, t, writeOk);
    UnlinkKeepsCanEnd(s, t);
    UnlinkMapped(s, s.list[|s.list| - 1].key);
  }

  lemma UnlinkKeepsCanEnd(s: Shared, t: nat)
    requires ListIsSound(s) && t < |s.tasks| && s.tasks[t].SetEvict? && NeedsRoom(s, t) && OldestIsMapped(s)
    ensures var oldest := s.list[|s.list| - 1].key;
            var after := Goto(Unlink(s, oldest), t, SetEvictErase(s.tasks[t].key, s.tasks[t].value, oldest));
            CanEnd(after, t) <==> CanEnd(s, t)
  {
    var oldest := s.list[|s.list| - 1].key;
    var after := Goto(Unlink(s, oldest), t, SetEvictErase(s.tasks[t].key, s.tasks[t].value, oldest));
    var node, excess := s.index[oldest], Excess(s, t);
    assert Excess(after, t) == excess - node.size && excess > 0;
    assert CanEnd(after, t) == Frees(Remove(s.list, node), s.index - {oldest}, excess - node.size);
    EvictionKeepsFrees(s.list, s.index, excess);
  }

  // A step of the loop that is not stuck leaves it, or brings it closer to one of its two ends.
  lemma LoopStep(s: Shared, t: nat, key: string, value: Bytes, writeOk: bool)
    requires Evicting(s, t, key, value) && !Stuck(s, t)
    ensures var after := Next(s, t, writeOk);
            if s.tasks[t].SetEvict? && !NeedsRoom(s, t)
            then |after.tasks| == |s.tasks| && after.tasks[t] == SetReserve(key, value) && CanEnd(s, t)
            else Evicting(after, t, key, value) && (CanEnd(after, t) <==> CanEnd(s, t)) && Fuel(after, t) < Fuel(s, t)
  {
    AdvanceKeepsInv(s, t, writeOk);
    if s.tasks[t].SetEvictErase? {
      EraseStep(s, t, writeOk);
    } else if NeedsRoom(s, t) {
      EvictStep(s, t, writeOk);
      EvictKeepsCanEnd(s, t, writeOk);
    } else {
      assert Next(s, t, writeOk) == NextMakingRoom(s, t);
    }
  }

  lemma StuckCannotEnd(s: Shared, t: nat)
    requires Stuck(s, t)
    ensures !CanEnd(s, t)
  {
  }

  // Moves in which t advances.
  function Advances(schedule: seq<Move>, t: nat): nat {
    if schedule == [] then 0 else
      (if schedule[0].thread == t && schedule[0].choice.Advance? then 1 else 0) + Advances(schedule[1..], t)
  }

  // At some point of the schedule t has left the loop.
  predicate Leaves(s: Shared, t: nat, schedule: seq<Move>, key: string, value: Bytes)
    decreases |schedule|
  {
    (t < |s.tasks| && s.tasks[t] == SetReserve(key, value)) ||
    (schedule != [] && Leaves(Step(s, schedule[0]), t, schedule[1..], key, value))
  }

  lemma {:induction false} StuckNeverLeaves(s: Shared, t: nat, schedule: seq<Move>, key: string, value: Bytes)
    requires Stuck(s, t)
    ensures !Leaves(s, t, schedule, key, value)
    decreases |schedule|
  {
    if schedule != [] {
      StuckStep(s, t, schedule[0]);
      StuckNeverLeaves(Step(s, schedule[0]), t, schedule[1..], key, value);
    }
  }

  // A move that is not a step of t leaves t where it is.
  lemma LoopUndisturbed(s: Shared, t: nat, key: string, value: Bytes, move: Move)
    requires Evicting(s, t, key, value) && !(move.thread == t && move.choice.Advance?)
    ensures Evicting(Step(s, move), t, key, value)
    ensures CanEnd(Step(s, move), t) <==> CanEnd(s, t)
    ensures Fuel(Step(s, move), t) == Fuel(s, t)
  {
    StepKeepsInv(s, move);
    if move.thread != t {
      HolderOwnsList(s, t, move);
    }
  }

  lemma {:induction false} LoopRun(s: Shared, t: nat, schedule: seq<Move>, key: string, value: Bytes)
    requires Evicting(s, t, key, value)
    ensures Leaves(s, t, schedule, key, value) ==> CanEnd(s, t)
    ensures !CanEnd(s, t) ==> Evicting(Exec(s, schedule), t, key, value)
    ensures Advances(schedule, t) >= Fuel(s, t) ==>
      if CanEnd(s, t) then Leaves(s, t, schedule, key, value) else Stuck(Exec(s, schedule), t)
    decreases |schedule|
  {
    if Stuck(s, t) {
      StuckCannotEnd(s, t);
      StuckNeverLeaves(s, t, schedule, key, value);
      StuckForever(s, t, schedule);
      StillEvicting(s, t, schedule, key, value);
    } else if schedule != [] {
      var move := schedule[0];
      var next := Step(s, move);
      if move.thread == t && move.choice.Advance? {
        LoopStep(s, t, key, value, move.choice.writeOk);
      } else {
        LoopUndisturbed(s, t, key, value, move);
      }
      if Evicting(next, t, key, value) {
        LoopRun(next, t, schedule[1..], key, value);
      } else {
        assert Leaves(next, t, schedule[1..], key, value);
      }
    }
  }

  // A stuck eviction stays the eviction for the same value.
  lemma {:induction false} StillEvicting(s: Shared, t: nat, schedule: seq<Move>, key: string, value: Bytes)
    requires Evicting(s, t, key, value) && Stuck(s, t)
    ensures Evicting(Exec(s, schedule), t, key, value)
    decreases |schedule|
  {
    if schedule != [] {
      var move := schedule[0];
      StuckStep(s, t, move);
      if move.thread == t && move.choice.Advance? {
        StuckStepKeepsValue(s, t, key, value, move.choice.writeOk);
      } else {
        LoopUndisturbed(s, t, key, value, move);
      }
      StillEvicting(Step(s, move), t, schedule[1..], key, value);
    }
  }

  lemma StuckStepKeepsValue(s: Shared, t: nat, key: string, value: Bytes, writeOk: bool)
    requires Evicting(s, t, key, value) && Stuck(s, t)
    ensures Evicting(Next(s, t, writeOk), t, key, value)
  {
    AdvanceKeepsInv(s, t, writeOk);
    if s.tasks[t].SetEvict? {
      EvictStep(s, t, writeOk);
    } else {
      EraseStep(s, t, writeOk);
    }
  }

  /** Under every schedule that lets t take two steps an element and one more, whatever the other
      threads do meanwhile: the loop ends if and only if evicting from the back frees enough, and
      otherwise it is stuck for good. */
  lemma EvictionEndsOrSticks(s: Shared, t: nat, schedule: seq<Move>)
    requires Inv(s) && t < |s.tasks| && s.tasks[t].SetEvict?
    requires Advances(schedule, t) >= 2 * |s.list| + 1
    ensures Leaves(s, t, schedule, s.tasks[t].key, s.tasks[t].value) <==> Frees(s.list, s.index, Excess(s, t))
    ensures !Frees(s.list, s.index, Excess(s, t)) ==> Stuck(Exec(s, schedule), t)
  {
    LoopRun(s, t, schedule, s.tasks[t].key, s.tasks[t].value);
  }

  /** Where evicting from the back cannot free enough, no schedule of any length ends the loop,
      and the thread keeps the lock throughout. */
  lemma EvictionNeverEnds(s: Shared, t: nat, schedule: seq<Move>)
    requires Inv(s) && t < |s.tasks| && s.tasks[t].SetEvict? && !Frees(s.list, s.index, Excess(s, t))
    ensures !Leaves(s, t, schedule, s.tasks[t].key, s.tasks[t].value)
    ensures Exec(s, schedule).holder == Some(t)
  {
    LoopRun(s, t, schedule, s.tasks[t].key, s.tasks[t].value);
  }

  /** In particular the loop ends if every listed element is the one its key maps to, as it is
      in a cache used by one thread at a time. */
  lemma {:induction false} MappedListFrees(list: seq<Node>, index: map<string, Node>, excess: int)
    requires forall i, j :: 0 <= i < j < |list| ==> list[i].id != list[j].id
    requires forall i :: 0 <= i < |list| ==> list[i].key in index && index[list[i].key] == list[i]
    ensures Frees(list, index, excess)
    decreases |list|
  {
    if list != [] && excess > 0 {
      var back := list[|list| - 1];
      MappedListFrees(list[..|list| - 1], index - {back.key}, excess - back.size);
    }
  }

  lemma {:induction false} ExecOneMore(s: Shared, schedule: seq<Move>, move: Move)
    ensures Exec(s, schedule + [move]) == Step(Exec(s, schedule), move)
    decreases |schedule|
  {
    if schedule == [] {
      assert schedule + [move] == [move];
    } else {
      assert (schedule + [move])[1..] == schedule[1..] + [move];
      ExecOneMore(Step(s, schedule[0]), schedule[1..], move);
    }
  }

  // One more move after a schedule whose outcome is known.
  lemma Extend(start: Shared, schedule: seq<Move>, s: Shared, move: Move) returns (longer: seq<Move>)
    requires Exec(start, schedule) == s
    ensures Exec(start, longer) == Step(s, move)
  {
    ExecOneMore(start, schedule, move);
    longer := schedule + [move];
  }

  function Inserted(s: Shared, t: nat, key: string, value: Bytes): Shared
    requires t < |s.tasks|
  {
    var node := Node(s.nextId, key, |value|);
    Goto(s.(list := [node] + s.list, index := s.index[key := node], nextId := s.nextId + 1,
            currentSize := s.currentSize + |value|, store := s.store[key := value]), t, Idle)
  }

  // With room to spare the eviction loop ends at once.
  lemma RunToReserve(start: Shared, schedule: seq<Move>, s: Shared, t: nat, key: string, value: Bytes)
    returns (longer: seq<Move>)
    requires Exec(start, schedule) == s && t < |s.tasks| && s.tasks[t] == SetLock(key, value)
    requires s.holder.None? && 0 <= s.maxSize && s.currentSize + |value| <= s.maxSize
    ensures Exec(start, longer) == Goto(s, t, SetReserve(key, value))
  {
    var go := Move(t, Advance(true));
    longer := Extend(start, schedule, s, go);
    var s1 := Goto(s.(holder := Some(t)), t, SetEvict(key, value));
    assert Step(s, go) == s1;
    longer := Extend(start, longer, s1, go);
    EvictExit(s1, t, true);
    assert s1.tasks[t := SetReserve(key, value)] == s.tasks[t := SetReserve(key, value)];
  }

  // From SetLock on, with room to spare and nobody interfering, a Set inserts its entry.
  lemma RunInsertion(start: Shared, schedule: seq<Move>, s: Shared, t: nat, key: string, value: Bytes)
    returns (longer: seq<Move>)
    requires Exec(start, schedule) == s && t < |s.tasks| && s.tasks[t] == SetLock(key, value)
    requires s.holder.None? && 0 <= s.maxSize && s.currentSize + |value| <= s.maxSize
    ensures Exec(start, longer) == Inserted(s, t, key, value)
  {
    var go := Move(t, Advance(true));
    longer := RunToReserve(start, schedule, s, t, key, value);
    var s2 := Goto(s, t, SetReserve(key, value));
    longer := Extend(start, longer, s2, go);
    var s3 := Goto(s.(currentSize := s.currentSize + |value|), t, SetWrite(key, value));
    assert Step(s2, go) == s3 by {
      assert s2.tasks[t := SetWrite(key, value)] == s3.tasks;
    }
    longer := Extend(start, longer, s3, go);
    var s4 := Goto(s3.(store := s.store[key := value]), t, SetPublish(key, value, true));
    assert Step(s3, go) == s4;
    longer := Extend(start, longer, s4, go);
    assert Step(s4, go) == Inserted(s, t, key, value) by {
      assert s4.tasks[t := Idle] == s.tasks[t := Idle];
    }
  }

  // A Set of a key with no stored value gets as far as the eviction lock.
  lemma RunToLock(start: Shared, schedule: seq<Move>, s: Shared, t: nat, key: string, value: Bytes)
    returns (longer: seq<Move>)
    requires Exec(start, schedule) == s && t < |s.tasks| && s.tasks[t] == Idle && key !in s.store
    ensures Exec(start, longer) == Goto(s, t, SetLock(key, value))
  {
    longer := Extend(start, schedule, s, Move(t, StartSet(key, value)));
    var s1 := Goto(s, t, SetHas(key, value));
    longer := Extend(start, longer, s1, Move(t, Advance(true)));
    assert s1.tasks[t := SetLock(key, value)] == s.tasks[t := SetLock(key, value)];
  }

  /** Two threads set one key at once in a cache of two bytes. Both insert, and the list keeps
      an element the map has lost: all threads are idle, yet the counter reads two bytes for
      one byte stored. */
  lemma OverlappingSetsLeaveAnOrphan() returns (schedule: seq<Move>)
    ensures Exec(Fresh(2, 2), schedule)
         == Shared([Node(1, "k", 1), Node(0, "k", 1)], map["k" := Node(1, "k", 1)], 2, 2, map["k" := [0]], None, 2,
             [Idle, Idle])
  {
    var start := Fresh(2, 2);
    var v: Bytes := [0];
    assert start.tasks == [Idle, Idle];
    schedule := RunToLock(start, [], start, 0, "k", v);
    var s1 := Goto(start, 0, SetLock("k", v));
    schedule := RunToLock(start, schedule, s1, 1, "k", v);
    var s2 := Goto(s1, 1, SetLock("k", v));
    schedule := RunInsertion(start, schedule, s2, 0, "k", v);
    var s3 := Inserted(s2, 0, "k", v);
    assert s3 == Shared([Node(0, "k", 1)], map["k" := Node(0, "k", 1)], 1, 2, map["k" := v], None, 1,
        [Idle, SetLock("k", v)]);
    schedule := RunInsertion(start, schedule, s3, 1, "k", v);
    var s4 := Inserted(s3, 1, "k", v);
    assert s4.tasks == [Idle, Idle];
    assert s4.list == [Node(1, "k", 1), Node(0, "k", 1)];
    assert s4.index == map["k" := Node(1, "k", 1)];
    assert s4.store == map["k" := v];
  }

  /** The eviction loop of a shared cache need not end: after those two Sets, a Set of a
      two-byte value evicts the mapped element, then meets the unmapped one and, by
      StuckForever, holds the lock for good. */
  lemma EvictionCanSpin() returns (schedule: seq<Move>)
    ensures Stuck(Exec(Fresh(2, 2), schedule), 0)
  {
    var start := Fresh(2, 2);
    var w: Bytes := [0, 0];
    schedule := OverlappingSetsLeaveAnOrphan();
    var s := Exec(start, schedule);
    schedule := RunToLock(start, schedule, s, 0, "j", w);
    var s1 := Goto(s, 0, SetLock("j", w));
    schedule := Extend(start, schedule, s1, Move(0, Advance(true)));
    var s2 := Goto(s.(holder := Some(0)), 0, SetEvict("j", w));
    assert Step(s1, Move(0, Advance(true))) == s2 by {
      assert s1.tasks[0 := SetEvict("j", w)] == s2.tasks;
    }
    schedule := Extend(start, schedule, s2, Move(0, Advance(true)));
    StuckAfterOneEviction(s2, w);
  }

  // In the orphan's cache the first round of an eviction is the last that shortens the list.
  lemma StuckAfterOneEviction(s: Shared, w: Bytes)
    requires s.list == [Node(1, "k", 1), Node(0, "k", 1)] && s.index == map["k" := Node(1, "k", 1)]
    requires s.currentSize == 2 && s.maxSize == 2 && s.holder == Some(0)
    requires |w| == 2 && s.tasks == [SetEvict("j", w), Idle]
    ensures Stuck(Step(s, Move(0, Advance(true))), 0)
  {
    var after := Next(s, 0, true);
    assert after.tasks == [SetEvictErase("j", w, "k"), Idle];
    assert after.list == [Node(0, "k", 1)];
    assert after.index == map[] && after.currentSize == 1;
  }
}
