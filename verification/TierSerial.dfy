/**
 The two-tier cache shared by threads, when every call ends before the next one starts: it is
 the cache used by one caller.
 */
module TierSerial {
  import opened Prelude
  import opened RecencyList
  import opened TierThreads
  import I = Invalidator

  // The operation a thread starts.
  function OpOf(choice: Choice): I.Op
    requires !choice.Advance?
  {
    match choice
    case StartSet(k, v, ok) => I.SetOp(k, Some(v), ok)
    case StartGet(k) => I.GetOp(k, true)
    case StartDelete(k) => I.DeleteOp(k)
    case StartClear => I.ClearOp
  }

  // Each call with the thread that makes it.
  function Serial(calls: seq<Move>): seq<Move> {
    if calls == [] then [] else
      var call := calls[|calls| - 1];
      Serial(calls[..|calls| - 1]) + [call, Move(call.thread, Advance)]
  }

  function Ops(calls: seq<Move>): seq<I.Op>
    requires forall i :: 0 <= i < |calls| ==> !calls[i].choice.Advance?
  {
    if calls == [] then [] else Ops(calls[..|calls| - 1]) + [OpOf(calls[|calls| - 1].choice)]
  }

  lemma {:induction false} ExecAppend(s: Shared, a: seq<Move>, b: seq<Move>)
    ensures Exec(s, a + b) == Exec(Exec(s, a), b)
    decreases |a|
  {
    if a == [] {
      assert a + b == b;
    } else {
      assert (a + b)[1..] == a[1..] + b;
      ExecAppend(Step(s, a[0]), a[1..], b);
    }
  }

  lemma CallAlone(s: Shared, t: nat, choice: Choice, c: I.Config, tiers: I.Tiers)
    requires t < |s.tasks| && AllIdle(s) && !choice.Advance?
    requires c.memoryMax == s.memoryMax && c.diskMax == s.diskMax && tiers.memory == s.memory && tiers.disk == s.disk
    ensures var after := Exec(s, [Move(t, choice), Move(t, Advance)]);
            && after == s.(memory := I.Step(tiers, c, OpOf(choice)).memory, disk := I.Step(tiers, c, OpOf(choice)).disk)
  {
    TwoMoves(s, Move(t, choice), Move(t, Advance));
    BothParts(s, t, choice, c, tiers);
  }

  // The memory part, then the disk part.
  lemma BothParts(s: Shared, t: nat, choice: Choice, c: I.Config, tiers: I.Tiers)
    requires t < |s.tasks| && s.tasks[t].Idle? && !choice.Advance?
    requires c.memoryMax == s.memoryMax && c.diskMax == s.diskMax && tiers.memory == s.memory && tiers.disk == s.disk
    ensures t < |Start(s, t, choice).tasks|
    ensures Finish(Start(s, t, choice), t)
         == s.(memory := I.Step(tiers, c, OpOf(choice)).memory, disk := I.Step(tiers, c, OpOf(choice)).disk)
  {
    var started := Start(s, t, choice);
    assert started.tasks[t := Idle] == s.tasks;
    match choice {
      case StartSet(k, v, ok) => assert started.tasks[t] == SetDisk(k, v, ok);
      case StartGet(k) => assert started.tasks[t] == GetDisk(k);
      case StartDelete(k) => assert started.tasks[t] == DeleteDisk(k);
      case StartClear => assert started.tasks[t] == ClearDisk;
    }
  }

  /** Threads whose calls do not overlap leave in both tiers what the sequential cache leaves after
      the same operations. */
  lemma {:induction false} SerialIsSequential(memoryMax: int, diskMax: int, interval: int, threads: nat,
                                              calls: seq<Move>)
    requires forall i :: 0 <= i < |calls| ==> !calls[i].choice.Advance? && calls[i].thread < threads
    ensures var after := Exec(Fresh(memoryMax, diskMax, threads), Serial(calls));
            var tiers := I.Run(I.Config(memoryMax, diskMax, interval), Ops(calls));
            && after == Fresh(memoryMax, diskMax, threads).(memory := tiers.memory, disk := tiers.disk)
  {
    if calls != [] {
      var s, c := Fresh(memoryMax, diskMax, threads), I.Config(memoryMax, diskMax, interval);
      var earlier, call := calls[..|calls| - 1], calls[|calls| - 1];
      SerialIsSequential(memoryMax, diskMax, interval, threads, earlier);
      ExecAppend(s, Serial(earlier), [call, Move(call.thread, Advance)]);
      CallAlone(Exec(s, Serial(earlier)), call.thread, call.choice, c, I.Run(c, Ops(earlier)));
      assert Ops(calls)[..|Ops(calls)| - 1] == Ops(earlier);
    }
  }
}
