/**
 What the two-tier cache does with each of its tiers over whole runs: either tier is an LRU of
 its own under the calls that the operations make of it, a Get included.
 */
module TierOrder {
  import opened Prelude
  import opened RecencyList
  import opened LruHistory
  import opened Invalidator

  // The two tiers.
  datatype Level = Memory | Disk

  function TierOf(t: Tiers, level: Level): seq<Item> {
    match level case Memory => t.memory case Disk => t.disk
  }

  function Capacity(c: Config, level: Level): int {
    match level case Memory => c.memoryMax case Disk => c.diskMax
  }

  // The calls an operation makes of a tier; a write to memory never fails.
  function CallsOf(op: Op, level: Level): seq<Call> {
    match op
    case SetOp(_, None, _) => []
    case SetOp(key, Some(value), writeOk) => [SetCall(key, value, level == Memory || writeOk)]
    case GetOp(key, _) => [GetCall(key)]
    case DeleteOp(key) => [DeleteCall(key)]
    case ClearOp => [DeleteAllCall]
    case HasOp(_) => []
    case SaveOp(_) => []
  }

  function TierCalls(ops: seq<Op>, level: Level): seq<Call> {
    if ops == [] then [] else TierCalls(ops[..|ops| - 1], level) + CallsOf(ops[|ops| - 1], level)
  }

  // The operation publishes key in the tier, or looks it up while it is resident there.
  predicate Uses(items: seq<Item>, maxSize: int, op: Op, level: Level, key: string) {
    match op
    case SetOp(k, Some(value), writeOk) =>
      k == key && (level == Memory || writeOk) && Admitted(items, maxSize, key, |value|)
    case GetOp(k, _) => k == key && HasKey(items, key)
    case _ => false
  }

  // Position of the last operation that used key in the tier; -1 if none did.
  function LastUse(c: Config, ops: seq<Op>, level: Level, key: string): (n: int)
    ensures -1 <= n < |ops|
  {
    if ops == [] then -1
    else
      var earlier := ops[..|ops| - 1];
      if Uses(TierOf(Run(c, earlier), level), Capacity(c, level), ops[|ops| - 1], level, key) then |earlier|
      else LastUse(c, earlier, level, key)
  }

  lemma StepIsCalls(t: Tiers, c: Config, op: Op, level: Level)
    ensures TierOf(Step(t, c, op), level) == HeldFrom(TierOf(t, level), Capacity(c, level), CallsOf(op, level))
  {
    var calls := CallsOf(op, level);
    if calls != [] {
      HeldAfterOne(TierOf(t, level), Capacity(c, level), calls[0]);
    }
  }

  lemma {:induction false} HeldFromAppend(items: seq<Item>, maxSize: int, calls: seq<Call>, last: Call)
    ensures HeldFrom(items, maxSize, calls + [last]) == After(HeldFrom(items, maxSize, calls), maxSize, last)
  {
    assert (calls + [last])[..|calls|] == calls;
  }

  /** Each tier is at every moment what an LRU of its capacity holds after the calls made of it. */
  lemma {:induction false} TiersAreLrus(c: Config, ops: seq<Op>, level: Level)
    ensures TierOf(Run(c, ops), level) == Held(Capacity(c, level), TierCalls(ops, level))
  {
    if ops != [] {
      var earlier, op := ops[..|ops| - 1], ops[|ops| - 1];
      var maxSize, calls := Capacity(c, level), CallsOf(op, level);
      var before := TierCalls(earlier, level);
      TiersAreLrus(c, earlier, level);
      StepIsCalls(Run(c, earlier), c, op, level);
      if calls == [] {
        assert before + calls == before;
      } else {
        HeldFromAppend([], maxSize, before, calls[0]);
        HeldAfterOne(Held(maxSize, before), maxSize, calls[0]);
      }
    }
  }

  lemma UsesIsTouches(items: seq<Item>, maxSize: int, op: Op, level: Level, key: string)
    ensures Uses(items, maxSize, op, level, key)
        <==> CallsOf(op, level) != [] && Touches(items, maxSize, CallsOf(op, level)[0], key)
  {
    FindIsMembership(items, key);
  }

  lemma CallKeepsUseOrder(items: seq<Item>, maxSize: int, op: Op, level: Level, call: Call, touch: string -> int,
                          touch': string -> int, now: nat)
    requires CallsOf(op, level) == [call] && DistinctKeys(items) && FreshestFirst(items, touch)
    requires forall i :: 0 <= i < |items| ==> touch(items[i].key) < now
    requires forall key :: touch'(key) == if Uses(items, maxSize, op, level, key) then now as int else touch(key)
    ensures FreshestFirst(After(items, maxSize, call), touch') && DistinctKeys(After(items, maxSize, call))
  {
    forall key
      ensures touch'(key) == if Touches(items, maxSize, call, key) then now as int else touch(key)
    {
      UsesIsTouches(items, maxSize, op, level, key);
    }
    CallKeepsOrder(items, maxSize, call, touch, touch', now);
  }

  lemma NoCallKeepsUseOrder(items: seq<Item>, maxSize: int, op: Op, level: Level, touch: string -> int,
                            touch': string -> int)
    requires CallsOf(op, level) == [] && FreshestFirst(items, touch)
    requires forall key :: !Uses(items, maxSize, op, level, key) ==> touch'(key) == touch(key)
    ensures FreshestFirst(items, touch')
  {
    assert forall key :: !Uses(items, maxSize, op, level, key);
    OrderDependsOnResidents(items, touch, touch');
  }

  lemma StepKeepsUseOrder(t: Tiers, c: Config, op: Op, level: Level, touch: string -> int, touch': string -> int,
                          now: nat)
    requires var items := TierOf(t, level);
             && DistinctKeys(items) && FreshestFirst(items, touch)
             && (forall i :: 0 <= i < |items| ==> touch(items[i].key) < now)
             && forall key ::
                  touch'(key) == if Uses(items, Capacity(c, level), op, level, key) then now as int else touch(key)
    ensures FreshestFirst(TierOf(Step(t, c, op), level), touch') && DistinctKeys(TierOf(Step(t, c, op), level))
  {
    var items, maxSize, calls := TierOf(t, level), Capacity(c, level), CallsOf(op, level);
    StepIsCalls(t, c, op, level);
    if calls == [] {
      NoCallKeepsUseOrder(items, maxSize, op, level, touch, touch');
    } else {
      HeldAfterOne(items, maxSize, calls[0]);
      CallKeepsUseOrder(items, maxSize, op, level, calls[0], touch, touch', now);
    }
  }

  /** Over every run of tier operations, either tier runs strictly by the last operation that
      published the key there or looked it up while it was resident there. */
  lemma {:induction false} TiersRunByLastUse(c: Config, ops: seq<Op>, level: Level)
    ensures FreshestFirst(TierOf(Run(c, ops), level), key => LastUse(c, ops, level, key))
    ensures DistinctKeys(TierOf(Run(c, ops), level))
  {
    if ops != [] {
      var earlier := ops[..|ops| - 1];
      TiersRunByLastUse(c, earlier, level);
      StepKeepsUseOrder(Run(c, earlier), c, ops[|ops| - 1], level, key => LastUse(c, earlier, level, key),
                        key => LastUse(c, ops, level, key), |earlier|);
    }
  }

  /** A key resident in a tier is first there after a Get of it, with its value, the others behind
      it in their order; an absent key changes nothing. */
  lemma GetBringsToFront(t: Tiers, c: Config, key: string, readOk: bool, level: Level)
    requires DistinctKeys(TierOf(t, level))
    ensures var items, after := TierOf(t, level), TierOf(Step(t, c, GetOp(key, readOk)), level);
            if HasKey(items, key)
            then after != [] && after[0].key == key && after[0] in items && after[1..] == Without(items, key)
            else after == items
  {
    FindIsMembership(TierOf(t, level), key);
  }

  /** So the next Set that has to evict takes the key just read last: it goes only once every
      other entry has gone. */
  lemma JustReadIsEvictedLast(c: Config, ops: seq<Op>, read: string, readOk: bool, key: string, size: nat, level: Level)
    requires HasKey(TierOf(Run(c, ops), level), read) && key != read
    ensures var items := TierOf(Run(c, ops + [GetOp(read, readOk)]), level);
            var kept := Kept(items, Capacity(c, level), key, size);
            kept == [] || kept[0].key == read
  {
    var longer := ops + [GetOp(read, readOk)];
    var items := TierOf(Run(c, longer), level);
    assert longer[..|ops|] == ops;
    TiersRunByLastUse(c, ops, level);
    GetBringsToFront(Run(c, ops), c, read, readOk, level);
    TiersRunByLastUse(c, longer, level);
    KeptFacts(items, Capacity(c, level), key, size);
    assert Without(items, key)[0] == items[0];
  }
}
