/**
 Whole runs of the two-tier cache from an empty start: it never serves a stale value, and
 with equal-sized values the memory tier stays inside the disk tier.
 */
module TierProperties {
  import opened Prelude
  import opened RecencyList
  import opened LruCache
  import opened Invalidator
  import opened LruHistory

  // The value of the latest Set of key that no later Delete of key or Clear undoes.
  function Latest(ops: seq<Op>, key: string): Option<Bytes> {
    if ops == [] then None
    else
      var earlier := Latest(ops[..|ops| - 1], key);
      match ops[|ops| - 1]
      case SetOp(k, encoded, _) => if k == key && encoded.Some? then encoded else earlier
      case DeleteOp(k) => if k == key then None else earlier
      case ClearOp => None
      case _ => earlier
  }

  ghost predicate Current(items: seq<Item>, ops: seq<Op>) {
    && DistinctKeys(items)
    && forall item :: item in items ==> Latest(ops, item.key) == Some(item.value)
  }

  lemma CurrentAfterSet(items: seq<Item>, maxSize: int, ops: seq<Op>, key: string, value: Bytes, writeOk: bool,
                        diskOk: bool)
    requires Current(items, ops)
    ensures Current(AfterSet(items, maxSize, key, value, writeOk), ops + [SetOp(key, Some(value), diskOk)])
  {
    var longer := ops + [SetOp(key, Some(value), diskOk)];
    assert longer[..|longer| - 1] == ops;
    CallsKeepKeysDistinct(items, maxSize, key, value, writeOk);
    KeptFacts(items, maxSize, key, |value|);
  }

  lemma CurrentAfterGet(items: seq<Item>, ops: seq<Op>, key: string, readOk: bool)
    requires Current(items, ops)
    ensures Current(AfterGet(items, key), ops + [GetOp(key, readOk)])
  {
    var longer := ops + [GetOp(key, readOk)];
    assert longer[..|longer| - 1] == ops;
    CallsKeepKeysDistinct(items, 0, key, [], false);
    FindIsMembership(items, key);
    WithoutMembers(items, key);
  }

  lemma CurrentAfterDelete(items: seq<Item>, ops: seq<Op>, key: string)
    requires Current(items, ops)
    ensures Current(Without(items, key), ops + [DeleteOp(key)])
  {
    var longer := ops + [DeleteOp(key)];
    assert longer[..|longer| - 1] == ops;
    WithoutDistinct(items, key);
    WithoutMembers(items, key);
  }

  lemma CurrentAfterStep(t: Tiers, c: Config, ops: seq<Op>, op: Op)
    requires Current(t.memory, ops) && Current(t.disk, ops)
    ensures Current(Step(t, c, op).memory, ops + [op]) && Current(Step(t, c, op).disk, ops + [op])
  {
    assert (ops + [op])[..|ops|] == ops;
    match op {
      case SetOp(key, encoded, writeOk) =>
        if encoded.Some? {
          CurrentAfterSet(t.memory, c.memoryMax, ops, key, encoded.value, true, writeOk);
          CurrentAfterSet(t.disk, c.diskMax, ops, key, encoded.value, writeOk, writeOk);
        }
      case GetOp(key, readOk) =>
        CurrentAfterGet(t.memory, ops, key, readOk);
        CurrentAfterGet(t.disk, ops, key, readOk);
      case HasOp(key) =>
      case DeleteOp(key) =>
        CurrentAfterDelete(t.memory, ops, key);
        CurrentAfterDelete(t.disk, ops, key);
      case ClearOp =>
      case SaveOp(_) =>
    }
  }

  /** From any tiers all of whose entries are the latest after a past, every further run keeps
      them the latest of past and run together, whatever the evictions and failed disk writes. */
  lemma {:induction false} EntriesStayLatest(start: Tiers, c: Config, past: seq<Op>, ops: seq<Op>)
    requires Current(start.memory, past) && Current(start.disk, past)
    ensures Current(RunFrom(start, c, ops).memory, past + ops) && Current(RunFrom(start, c, ops).disk, past + ops)
  {
    if ops == [] {
      assert past + ops == past;
    } else {
      var earlier, op := ops[..|ops| - 1], ops[|ops| - 1];
      EntriesStayLatest(start, c, past, earlier);
      CurrentAfterStep(RunFrom(start, c, earlier), c, past + earlier, op);
      assert past + ops == (past + earlier) + [op];
    }
  }

  /** After any run, whatever the evictions and the failed disk writes, every entry of either
      tier is the latest value set under its key. */
  lemma EveryEntryIsLatest(c: Config, ops: seq<Op>)
    ensures Current(Run(c, ops).memory, ops) && Current(Run(c, ops).disk, ops)
  {
    EntriesStayLatest(Empty(), c, [], ops);
    assert [] + ops == ops;
  }

  // What Get and Has may say of tiers whose entries are the latest after the operations.
  ghost predicate AnswersAreLatest(t: Tiers, ops: seq<Op>, key: string, readOk: bool) {
    && (AnswerOf(t, key, readOk).Found? ==> Latest(ops, key) == Some(AnswerOf(t, key, readOk).value))
    && (Find(t.memory, key).Some? && Find(t.disk, key).Some? ==> Find(t.memory, key) == Find(t.disk, key))
    && (AnswerOf(t, key, true).Found? <==> HasKey(t.memory, key) || HasKey(t.disk, key))
    && (AnswerOf(t, key, readOk).ReadFailed? <==> HasKey(t.disk, key) && !readOk)
    && (AnswerOf(t, key, readOk).NotFound? <==> !HasKey(t.memory, key) && !HasKey(t.disk, key))
    && (Latest(ops, key).None? ==> !HasKey(t.memory, key) && !HasKey(t.disk, key))
  }

  lemma CurrentTiersAnswerLatest(t: Tiers, ops: seq<Op>, key: string, readOk: bool)
    requires Current(t.memory, ops) && Current(t.disk, ops)
    ensures AnswersAreLatest(t, ops, key, readOk)
  {
    FindIsMembership(t.memory, key);
    FindIsMembership(t.disk, key);
  }

  /** Get answers with the latest value or with nothing, never with a stale value; the tiers
      agree on shared keys; Has is true exactly when a successful read finds the value. */
  lemma NeverStale(c: Config, ops: seq<Op>, key: string, readOk: bool)
    ensures AnswersAreLatest(Run(c, ops), ops, key, readOk)
  {
    EveryEntryIsLatest(c, ops);
    CurrentTiersAnswerLatest(Run(c, ops), ops, key, readOk);
  }

  /** Nor across a restart: after one over an index in step with the files, a run answers with
      the latest value of all operations before and after it. */
  lemma NeverStaleAcrossRestart(c: Config, before: seq<Op>, c': Config, after: seq<Op>, key: string, readOk: bool)
    ensures AnswersAreLatest(RunFrom(Restarted(Run(c, before)), c', after), before + after, key, readOk)
  {
    EveryEntryIsLatest(c, before);
    EntriesStayLatest(Restarted(Run(c, before)), c', before, after);
    CurrentTiersAnswerLatest(RunFrom(Restarted(Run(c, before)), c', after), before + after, key, readOk);
  }

  // What a Set leaves under its key in one tier.
  lemma SetThenFind(items: seq<Item>, maxSize: int, key: string, value: Bytes, writeOk: bool)
    requires DistinctKeys(items)
    ensures Find(AfterSet(items, maxSize, key, value, writeOk), key)
         == if writeOk && |value| <= maxSize then Some(value) else None
  {
    AdmittedIff(items, maxSize, key, |value|);
    KeptFacts(items, maxSize, key, |value|);
    FindIsMembership(Kept(items, maxSize, key, |value|), key);
  }

  /** A value just set is read back if and only if it fits in memory, or fits on disk and was
      written there; a read that fails on the disk's copy is an error, never the memory's copy. */
  lemma SetThenGet(t: Tiers, c: Config, key: string, value: Bytes, writeOk: bool, readOk: bool)
    requires DistinctKeys(t.memory) && DistinctKeys(t.disk)
    ensures AnswerOf(Step(t, c, SetOp(key, Some(value), writeOk)), key, readOk)
         == if writeOk && |value| <= c.diskMax then (if readOk then Found(value) else ReadFailed)
            else if |value| <= c.memoryMax then Found(value) else NotFound
  {
    SetThenFind(t.memory, c.memoryMax, key, value, true);
    SetThenFind(t.disk, c.diskMax, key, value, writeOk);
  }

  // --- Equal-sized values ---

  // a is obtained from b by leaving entries out.
  predicate Subsequence(a: seq<Item>, b: seq<Item>) {
    a == [] || (b != [] && (if a[0] == b[0] then Subsequence(a[1..], b[1..]) else Subsequence(a, b[1..])))
  }

  function Take(items: seq<Item>, n: nat): seq<Item> {
    if |items| <= n then items else items[..n]
  }

  // Entries of size bytes that a capacity has room for.
  function Slots(maxSize: int, size: nat): nat
    requires size > 0
  {
    if maxSize < size then 0 else 1 + Slots(maxSize - size, size)
  }

  ghost predicate AllOfSize(items: seq<Item>, size: nat) {
    forall item :: item in items ==> |item.value| == size
  }

  lemma {:induction false} SubsequenceTake(a: seq<Item>, b: seq<Item>, m: nat, n: nat)
    requires Subsequence(a, b) && |b| - |a| <= n - m && m <= n
    ensures Subsequence(Take(a, m), Take(b, n))
  {
    if a != [] && m > 0 {
      SubsequenceIsShorter(a, b);
      var ta, tb := Take(a, m), Take(b, n);
      if a[0] == b[0] {
        SubsequenceTake(a[1..], b[1..], m - 1, n - 1);
        assert ta[1..] == Take(a[1..], m - 1) && tb[1..] == Take(b[1..], n - 1);
      } else {
        SubsequenceIsShorter(a, b[1..]);
        SubsequenceTake(a, b[1..], m, n - 1);
        assert tb[1..] == Take(b[1..], n - 1);
      }
    }
  }

  lemma {:induction false} SubsequenceIsShorter(a: seq<Item>, b: seq<Item>)
    requires Subsequence(a, b)
    ensures |a| <= |b|
  {
    if a != [] {
      if a[0] == b[0] {
        SubsequenceIsShorter(a[1..], b[1..]);
      } else {
        SubsequenceIsShorter(a, b[1..]);
      }
    }
  }

  lemma {:induction false} SubsequenceMembers(a: seq<Item>, b: seq<Item>)
    requires Subsequence(a, b)
    ensures forall x :: x in a ==> x in b
  {
    if a != [] {
      SubsequenceMembers(if a[0] == b[0] then a[1..] else a, b[1..]);
      assert a == [a[0]] + a[1..] && b == [b[0]] + b[1..];
    }
  }

  lemma {:induction false} SubsequenceSkip(a: seq<Item>, x: Item, b: seq<Item>)
    requires Subsequence(a, b) && x !in a
    ensures Subsequence(a, [x] + b)
  {
    assert ([x] + b)[1..] == b;
    assert a == [] || a[0] in a;
  }

  // Dropping one key from both keeps the relation and does not widen the gap.
  lemma {:induction false} SubsequenceWithout(a: seq<Item>, b: seq<Item>, key: string)
    requires Subsequence(a, b)
    ensures Subsequence(Without(a, key), Without(b, key))
    ensures |Without(b, key)| - |Without(a, key)| <= |b| - |a|
  {
    if a == [] {
      WithoutMembers(b, key);
    } else if a[0] == b[0] {
      SubsequenceWithout(a[1..], b[1..], key);
      if a[0].key != key {
        assert Without(a, key)[1..] == Without(a[1..], key);
        assert Without(b, key)[1..] == Without(b[1..], key);
      }
    } else {
      SubsequenceWithout(a, b[1..], key);
      if b[0].key != key {
        assert Without(b, key)[1..] == Without(b[1..], key);
        if Without(a, key) != [] && Without(a, key)[0] == b[0] {
          DropFirstOfSubsequence(Without(a, key), Without(b[1..], key));
        }
      }
    }
  }

  lemma {:induction false} DropFirstOfSubsequence(a: seq<Item>, b: seq<Item>)
    requires Subsequence(a, b) && a != []
    ensures Subsequence(a[1..], b)
  {
    if a[0] == b[0] {
      if a[1..] != [] {
        if a[1] == b[0] {
          DropFirstOfSubsequence(a[1..], b[1..]);
        }
      }
    } else {
      DropFirstOfSubsequence(a, b[1..]);
      if a[1..] != [] && a[1] == b[0] {
        DropFirstOfSubsequence(a[1..], b[1..]);
      }
    }
  }

  lemma {:induction false} FitEqualSizes(items: seq<Item>, room: int, size: nat)
    requires size > 0 && AllOfSize(items, size)
    ensures Fit(items, room) == Take(items, Slots(room, size))
  {
    if items != [] {
      assert items[0] in items;
      if room >= size {
        FitEqualSizes(items[1..], room - size, size);
        assert Take(items, Slots(room, size)) == [items[0]] + Take(items[1..], Slots(room - size, size));
      }
    }
  }

  // With equal sizes a Set is: put the entry in front, keep as many entries as there are slots.
  lemma SetEqualSizes(items: seq<Item>, maxSize: int, key: string, value: Bytes)
    requires |value| > 0 && AllOfSize(items, |value|) && |items| <= Slots(maxSize, |value|)
    ensures AfterSet(items, maxSize, key, value, true)
         == Take([Item(key, value)] + Without(items, key), Slots(maxSize, |value|))
  {
    var size := |value|;
    var others := Without(items, key);
    WithoutMembers(items, key);
    FitEqualSizes(others, maxSize - size, size);
    FitIsLongestPrefix(others, maxSize - size);
    if maxSize >= size {
      assert AfterSet(items, maxSize, key, value, true) == [Item(key, value)]
          + Take(others, Slots(maxSize - size, size));
    }
  }

  // Every stored value has size bytes and every disk write succeeds.
  ghost predicate Uniform(ops: seq<Op>, size: nat) {
    forall i :: 0 <= i < |ops| && ops[i].SetOp? && ops[i].encoded.Some? ==>
      |ops[i].encoded.value| == size && ops[i].writeOk
  }

  ghost predicate Nested(memory: seq<Item>, disk: seq<Item>, c: Config, size: nat)
    requires size > 0
  {
    && AllOfSize(memory, size) && AllOfSize(disk, size)
    && DistinctKeys(memory) && DistinctKeys(disk)
    && Subsequence(memory, disk)
    && |memory| <= Slots(c.memoryMax, size) && |disk| <= Slots(c.diskMax, size)
    && |disk| - |memory| <= Slots(c.diskMax, size) - Slots(c.memoryMax, size)
  }

  lemma {:induction false} SlotsAreMonotone(a: int, b: int, size: nat)
    requires size > 0 && a <= b
    ensures Slots(a, size) <= Slots(b, size)
    decreases b
  {
    if a >= size {
      SlotsAreMonotone(a - size, b - size, size);
    }
  }

  lemma NestedAfterSet(memory: seq<Item>, disk: seq<Item>, c: Config, key: string, value: Bytes)
    requires |value| > 0 && c.memoryMax <= c.diskMax && Nested(memory, disk, c, |value|)
    ensures Nested(AfterSet(memory, c.memoryMax, key, value, true), AfterSet(disk, c.diskMax, key, value, true), c,
        |value|)
  {
    var m, n := Slots(c.memoryMax, |value|), Slots(c.diskMax, |value|);
    var a, b := [Item(key, value)] + Without(memory, key), [Item(key, value)] + Without(disk, key);
    SlotsAreMonotone(c.memoryMax, c.diskMax, |value|);
    SetEqualSizes(memory, c.memoryMax, key, value);
    SetEqualSizes(disk, c.diskMax, key, value);
    SubsequenceWithout(memory, disk, key);
    assert a[1..] == Without(memory, key) && b[1..] == Without(disk, key);
    SubsequenceTake(a, b, m, n);
    WithoutMembers(memory, key);
    WithoutMembers(disk, key);
    CallsKeepKeysDistinct(memory, c.memoryMax, key, value, true);
    CallsKeepKeysDistinct(disk, c.diskMax, key, value, true);
    assert AllOfSize(a, |value|) && AllOfSize(b, |value|);
  }

  lemma NestedAfterGet(memory: seq<Item>, disk: seq<Item>, c: Config, size: nat, key: string)
    requires size > 0 && Nested(memory, disk, c, size)
    ensures Nested(AfterGet(memory, key), AfterGet(disk, key), c, size)
  {
    SubsequenceWithout(memory, disk, key);
    SubsequenceMembers(memory, disk);
    FindIsMembership(memory, key);
    FindIsMembership(disk, key);
    CallsKeepKeysDistinct(memory, 0, key, [], false);
    CallsKeepKeysDistinct(disk, 0, key, [], false);
    WithoutMembers(memory, key);
    WithoutMembers(disk, key);
    TouchedLength(memory, key);
    TouchedLength(disk, key);
    if Find(memory, key).Some? {
      var item := Item(key, Find(memory, key).value);
      FindUnique(disk, item);
      assert AfterGet(memory, key)[1..] == Without(memory, key) && AfterGet(disk, key)[1..] == Without(disk, key);
    } else if Find(disk, key).Some? {
      WithoutAbsent(memory, key);
      SubsequenceSkip(memory, Item(key, Find(disk, key).value), Without(disk, key));
    }
  }

  lemma TouchedLength(items: seq<Item>, key: string)
    requires DistinctKeys(items)
    ensures |AfterGet(items, key)| == |items|
  {
    FindIsMembership(items, key);
    if HasKey(items, key) {
      var i :| 0 <= i < |items| && items[i].key == key;
      WithoutAt(items, i);
    }
  }

  lemma NestedAfterDelete(memory: seq<Item>, disk: seq<Item>, c: Config, size: nat, key: string)
    requires size > 0 && Nested(memory, disk, c, size)
    ensures Nested(Without(memory, key), Without(disk, key), c, size)
  {
    SubsequenceWithout(memory, disk, key);
    WithoutDistinct(memory, key);
    WithoutDistinct(disk, key);
    WithoutMembers(memory, key);
    WithoutMembers(disk, key);
  }

  /** With values of one positive size, no failed disk write and a memory capacity not above the
      disk's, the memory recency list is at all times a subsequence of the disk's, and the
      disk-only entries never outnumber the extra disk slots. */
  lemma {:induction false} MemoryStaysInsideDisk(c: Config, ops: seq<Op>, size: nat)
    requires size > 0 && c.memoryMax <= c.diskMax && Uniform(ops, size)
    ensures Nested(Run(c, ops).memory, Run(c, ops).disk, c, size)
  {
    if ops == [] {
      SlotsAreMonotone(c.memoryMax, c.diskMax, size);
    } else {
      var t := Run(c, ops[..|ops| - 1]);
      MemoryStaysInsideDisk(c, ops[..|ops| - 1], size);
      NestedStep(t, c, ops[|ops| - 1], size);
    }
  }

  lemma NestedStep(t: Tiers, c: Config, op: Op, size: nat)
    requires size > 0 && c.memoryMax <= c.diskMax && Uniform([op], size) && Nested(t.memory, t.disk, c, size)
    ensures Nested(Step(t, c, op).memory, Step(t, c, op).disk, c, size)
  {
    assert [op][0] == op;
    match op {
      case SetOp(key, encoded, _) =>
        if encoded.Some? {
          NestedAfterSet(t.memory, t.disk, c, key, encoded.value);
        }
      case GetOp(key, _) => NestedAfterGet(t.memory, t.disk, c, size, key);
      case HasOp(_) =>
      case DeleteOp(key) => NestedAfterDelete(t.memory, t.disk, c, size, key);
      case ClearOp => SlotsAreMonotone(c.memoryMax, c.diskMax, size);
      case SaveOp(_) =>
    }
  }

  /** So no key is ever held in memory only. */
  lemma NothingIsMemoryOnly(c: Config, ops: seq<Op>, size: nat, key: string)
    requires size > 0 && c.memoryMax <= c.diskMax && Uniform(ops, size)
    ensures HasKey(Run(c, ops).memory, key) ==> HasKey(Run(c, ops).disk, key)
  {
    MemoryStaysInsideDisk(c, ops, size);
    var memory, disk := Run(c, ops).memory, Run(c, ops).disk;
    if HasKey(memory, key) {
      SubsequenceMembers(memory, disk);
      var i :| 0 <= i < |memory| && memory[i].key == key;
      assert memory[i] in memory;
      var j :| 0 <= j < |disk| && disk[j] == memory[i];
    }
  }

  // --- The index file ---

  /** An existing index file is never rewritten: until a Clear it keeps the snapshot of the
      first save, whatever happens to the disk tier. */
  lemma {:induction false} IndexKeepsFirstSnapshot(c: Config, ops: seq<Op>, more: seq<Op>)
    requires Run(c, ops).index.Some? && forall i :: 0 <= i < |more| ==> !more[i].ClearOp?
    ensures Run(c, ops + more).index == Run(c, ops).index
  {
    if more == [] {
      assert ops + more == ops;
    } else {
      IndexKeepsFirstSnapshot(c, ops, more[..|more| - 1]);
      var all := ops + more;
      assert all[..|all| - 1] == ops + more[..|more| - 1];
    }
  }

  // What the save op would put in the index after ops.
  function Snapshot(c: Config, ops: seq<Op>, op: Op): seq<Item>
    requires op.SaveOp?
  {
    Seen(Run(c, ops).disk, op.view)
  }

  /** Only a save creates the index file, and it records the entries it finds listed. */
  lemma FirstSnapshotIsExact(c: Config, ops: seq<Op>, op: Op)
    requires Run(c, ops).index.None? && Run(c, ops + [op]).index.Some?
    ensures op.SaveOp? && Run(c, ops + [op]).index == Some(Metadata(Snapshot(c, ops, op)))
  {
    assert (ops + [op])[..|ops|] == ops;
  }

  // The disk tier a restart builds: the index's order, the files' values.
  function Rebuilt(metadatas: seq<CacheMetadata>, files: map<string, Bytes>): seq<Item> {
    if metadatas == [] then [] else
      var key := metadatas[0].key;
      [Item(key, if key in files then files[key] else [])] + Rebuilt(metadatas[1..], files)
  }

  lemma {:induction false} RestartRestores(items: seq<Item>)
    requires DistinctKeys(items)
    ensures Rebuilt(Metadata(items), Files(items)) == items
  {
    if items != [] {
      var rest := items[1..];
      RestartRestores(rest);
      assert Metadata(items)[1..] == Metadata(rest);
      forall i | 0 <= i < |Metadata(rest)|
        ensures Metadata(rest)[i].key != items[0].key
      {
        MetadataAt(rest, i);
        assert rest[i] == items[i + 1];
      }
      RebuiltIgnores(Metadata(rest), Files(rest), items[0]);
    }
  }

  lemma {:induction false} RebuiltIgnores(metadatas: seq<CacheMetadata>, files: map<string, Bytes>, item: Item)
    requires forall i :: 0 <= i < |metadatas| ==> metadatas[i].key != item.key
    ensures Rebuilt(metadatas, files[item.key := item.value]) == Rebuilt(metadatas, files)
  {
    if metadatas != [] {
      RebuiltIgnores(metadatas[1..], files, item);
    }
  }

  lemma {:induction false} RebuiltOrder(metadatas: seq<CacheMetadata>, files: map<string, Bytes>, i: nat)
    ensures |Rebuilt(metadatas, files)| == |metadatas|
    ensures i < |metadatas| ==> Rebuilt(metadatas, files)[i].key == metadatas[i].key
  {
    if metadatas != [] {
      RebuiltOrder(metadatas[1..], files, if i == 0 then 0 else i - 1);
    }
  }

  predicate Listed(metadatas: seq<CacheMetadata>, key: string) {
    exists i :: 0 <= i < |metadatas| && metadatas[i].key == key
  }

  predicate SameKeyOrder(a: seq<Item>, b: seq<Item>) {
    |a| == |b| && forall i :: 0 <= i < |a| ==> a[i].key == b[i].key
  }

  lemma ListedKeys(items: seq<Item>, key: string)
    ensures Listed(Metadata(items), key) <==> HasKey(items, key)
  {
    MetadataAt(items, 0);
    if Listed(Metadata(items), key) {
      var i :| 0 <= i < |items| && Metadata(items)[i].key == key;
      MetadataAt(items, i);
    }
    if HasKey(items, key) {
      var i :| 0 <= i < |items| && items[i].key == key;
      MetadataAt(items, i);
    }
  }

  // Rebuilding looks at the keys of the metadata only.
  lemma {:induction false} RebuiltByKey(a: seq<CacheMetadata>, b: seq<CacheMetadata>, files: map<string, Bytes>)
    requires |a| == |b| && forall i :: 0 <= i < |a| ==> a[i].key == b[i].key
    ensures Rebuilt(a, files) == Rebuilt(b, files)
  {
    if a != [] {
      RebuiltByKey(a[1..], b[1..], files);
    }
  }

  // Over the files of disk, an index taken of first rebuilds disk just when the keys stand in the same order.
  lemma RebuiltFromOlder(first: seq<Item>, disk: seq<Item>)
    requires DistinctKeys(disk)
    ensures Rebuilt(Metadata(first), Files(disk)) == disk <==> SameKeyOrder(first, disk)
  {
    var firstIndex, currentIndex := Metadata(first), Metadata(disk);
    forall i: nat
      ensures |firstIndex| == |first| && |currentIndex| == |disk|
      ensures i < |first| ==> firstIndex[i].key == first[i].key
      ensures i < |disk| ==> currentIndex[i].key == disk[i].key
      ensures |Rebuilt(firstIndex, Files(disk))| == |firstIndex|
      ensures i < |firstIndex| ==> Rebuilt(firstIndex, Files(disk))[i].key == firstIndex[i].key
    {
      MetadataAt(first, i);
      MetadataAt(disk, i);
      RebuiltOrder(firstIndex, Files(disk), i);
    }
    if SameKeyOrder(first, disk) {
      RebuiltByKey(firstIndex, currentIndex, Files(disk));
      RestartRestores(disk);
    }
  }

  /** What a restart makes of a run: any time after the save that creates the index, and
      before a Clear, index and files are in step if and only if keys and sizes on disk are those
      the save found listed; the entries come back in order if and only if the keys stand
      as they did then; and a key on disk, whose file is there in any case, is listed again
      if and only if it was listed then. */
  lemma RestartAfterFirstSave(c: Config, ops: seq<Op>, op: Op, more: seq<Op>, key: string)
    requires Run(c, ops).index.None? && Run(c, ops + [op]).index.Some?
    requires forall i :: 0 <= i < |more| ==> !more[i].ClearOp?
    ensures op.SaveOp?
    ensures var first, t := Snapshot(c, ops, op), Run(c, ops + [op] + more);
            && t.index.Some?
            && (t.index.value == Metadata(t.disk) <==> Metadata(first) == Metadata(t.disk))
            && (Rebuilt(t.index.value, Files(t.disk)) == t.disk <==> SameKeyOrder(first, t.disk))
            && (HasKey(t.disk, key) ==> key in Files(t.disk) && (Listed(t.index.value, key) <==> HasKey(first, key)))
  {
    FirstSnapshotIsExact(c, ops, op);
    var first, t := Snapshot(c, ops, op), Run(c, ops + [op] + more);
    IndexKeepsFirstSnapshot(c, ops + [op], more);
    EveryEntryIsLatest(c, ops + [op] + more);
    RebuiltFromOlder(first, t.disk);
    ListedKeys(first, key);
    FilesHaveTheKeys(t.disk, key);
  }

  /** While keys and sizes on disk are those the save found that created the index, a restart over
      the unchanged files is not noticed: the rebuilt disk tier has the same entries in the same
      order and the same byte total, so every later sequence of calls leaves the same entries and
      gets the same replies. */
  lemma RestartIsUnnoticed(c: Config, ops: seq<Op>, op: Op, more: seq<Op>, calls: seq<Call>)
    requires Run(c, ops).index.None? && Run(c, ops + [op]).index.Some?
    requires forall i :: 0 <= i < |more| ==> !more[i].ClearOp?
    requires op.SaveOp? && Metadata(Snapshot(c, ops, op)) == Metadata(Run(c, ops + [op] + more).disk)
    ensures var t := Run(c, ops + [op] + more);
            && t.index.Some?
            && var rebuilt := Rebuilt(t.index.value, Files(t.disk));
            && SumOfSizes(t.index.value) == Total(t.disk)
            && HeldFrom(rebuilt, c.diskMax, calls) == HeldFrom(t.disk, c.diskMax, calls)
            && Replies(rebuilt, c.diskMax, calls) == Replies(t.disk, c.diskMax, calls)
  {
    var t := Run(c, ops + [op] + more);
    RestartAfterFirstSave(c, ops, op, more, "");
    EveryEntryIsLatest(c, ops + [op] + more);
    RestartRestores(t.disk);
    SumOfSizesIsTotal(t.disk);
  }

  /** Saving after every operation does not keep the index current: a second Set leaves the
      index of the first, so that after a restart the second key's file is there but not listed. */
  lemma IndexGoesStale()
    ensures var t := Run(Config(0, 10, 1), [SetOp("a", Some([0]), true), SaveOp(Between), SetOp("b", Some([1]), true),
        SaveOp(Between)]);
            && t.disk == [Item("b", [1]), Item("a", [0])]
            && t.index == Some([CacheMetadata("a", 1)])
            && "b" in Files(t.disk) && !Listed(t.index.value, "b")
  {
    var c, a, b := Config(0, 10, 1), Item("a", [0]), Item("b", [1]);
    var ordered := FirstSet(c, a);
    MetadataAt([a], 0);
    assert Metadata([a]) == [CacheMetadata("a", 1)];
    var indexed := AfterSave(ordered, Between);
    assert indexed == Tiers([], [a], 0, 0, Some([CacheMetadata("a", 1)]));
    var stale := SecondSet(c, a, b, indexed);
    RunFour(c, SetOp("a", Some([0]), true), SaveOp(Between), SetOp("b", Some([1]), true), SaveOp(Between));
    FilesHaveTheKeys([b, a], "b");
    assert [b, a][0].key == "b";
  }

  lemma FirstSet(c: Config, a: Item) returns (t: Tiers)
    requires c == Config(0, 10, 1) && |a.value| == 1
    ensures t == Step(Empty(), c, SetOp(a.key, Some(a.value), true)) == Tiers([], [a], 0, 1, None)
  {
    assert Without([], a.key) == [] && Fit([], 9) == [];
    t := Tiers([], [a], 0, 1, None);
  }

  lemma SecondSet(c: Config, a: Item, b: Item, t: Tiers) returns (after: Tiers)
    requires c == Config(0, 10, 1) && |a.value| == 1 && |b.value| == 1 && a.key != b.key
    requires t.memory == [] && t.disk == [a] && t.operationCounter == 0 && t.pendingSaves == 0
    ensures after == Step(t, c, SetOp(b.key, Some(b.value), true)) == t.(disk := [b, a], pendingSaves := 1)
  {
    assert [a][1..] == [] && Total([a]) == |a.value| + Total([]);
    assert Without([a], b.key) == [a] && Fit([a], 9) == [a];
    after := t.(disk := [b, a], pendingSaves := 1);
  }

  lemma RunFour(c: Config, o1: Op, o2: Op, o3: Op, o4: Op)
    ensures Run(c, [o1, o2, o3, o4]) == Step(Step(Step(Step(Empty(), c, o1), c, o2), c, o3), c, o4)
  {
    var one, two, three, four := [o1], [o1, o2], [o1, o2, o3], [o1, o2, o3, o4];
    assert one[..0] == [] && two[..1] == one && three[..2] == two && four[..3] == three;
    assert Run(c, one) == Step(Run(c, []), c, o1);
    assert Run(c, two) == Step(Run(c, one), c, o2);
    assert Run(c, three) == Step(Run(c, two), c, o3);
  }
}
