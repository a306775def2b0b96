/**
 When the two-tier cache saves its index: over every run, the saves ordered and the index file
 follow from the operations alone.
 */
module TierSaves {
  import opened Prelude
  import opened Invalidator

  // Operations between two saves; an interval of 1 or less saves after every one.
  function Interval(c: Config): nat
    ensures Interval(c) > 0
  {
    if c.saveInterval > 1 then c.saveInterval else 1
  }

  // The Sets of an encodable value and the Deletes.
  function Changes(ops: seq<Op>): nat {
    if ops == [] then 0 else
      var op := ops[|ops| - 1];
      Changes(ops[..|ops| - 1]) + (if (op.SetOp? && op.encoded.Some?) || op.DeleteOp? then 1 else 0)
  }

  // The saves that ran because one had been ordered.
  function SavesRun(c: Config, ops: seq<Op>): nat {
    if ops == [] then 0 else
      var earlier := ops[..|ops| - 1];
      SavesRun(c, earlier) + (if ops[|ops| - 1].SaveOp? && Run(c, earlier).pendingSaves > 0 then 1 else 0)
  }

  // Whether one ran since the last Clear.
  predicate SavedSinceClear(c: Config, ops: seq<Op>) {
    ops != [] &&
    var earlier, op := ops[..|ops| - 1], ops[|ops| - 1];
    !op.ClearOp? && ((op.SaveOp? && Run(c, earlier).pendingSaves > 0) || SavedSinceClear(c, earlier))
  }

  /** After every run the counter is below the interval, and the changes are the counter and one
      interval for every save ordered, run or still pending; there is an index file if and only if
      an ordered save ran since the last Clear. */
  lemma {:induction false} SavesAreCounted(c: Config, ops: seq<Op>)
    ensures 0 <= Run(c, ops).operationCounter < Interval(c)
    ensures Changes(ops) == Interval(c) * (Run(c, ops).pendingSaves + SavesRun(c, ops)) + Run(c, ops).operationCounter
    ensures Run(c, ops).index.Some? <==> SavedSinceClear(c, ops)
  {
    if ops != [] {
      var earlier := ops[..|ops| - 1];
      var saves := Run(c, earlier).pendingSaves + SavesRun(c, earlier);
      var saves' := Run(c, ops).pendingSaves + SavesRun(c, ops);
      SavesAreCounted(c, earlier);
      assert saves' == saves || saves' == saves + 1;
      assert Interval(c) * (saves + 1) == Interval(c) * saves + Interval(c);
    }
  }
}
