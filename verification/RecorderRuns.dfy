/**
 Whole runs of the tape recorder: each tape and URL is a first-in first-out queue, and a
 recorded browsing session replays hop by hop.
 */
module RecorderRuns {
  import opened Prelude
  import opened Archives
  import opened Recorder

  datatype Op = LogOp(pair: Pair) | RequestOp(tapeId: string, url: string) | ClearTapeOp(tapeId: string)

  function Step(t: Tapes, op: Op): Tapes {
    match op
    case LogOp(pair) => AfterLog(t, pair)
    case RequestOp(tapeId, url) => AfterRequest(t, tapeId, url)
    case ClearTapeOp(tapeId) => AfterClearTape(t, tapeId)
  }

  function Run(t: Tapes, ops: seq<Op>): Tapes {
    if ops == [] then t else Step(Run(t, ops[..|ops| - 1]), ops[|ops| - 1])
  }

  // The abstract machine of one tape and URL; record is what a log appends.
  function QueueStep(q: seq<Record>, op: Op, tapeId: string, url: string, record: Record): seq<Record> {
    match op
    case LogOp(pair) => if InClass(pair, tapeId, url) then q + [record] else q
    case RequestOp(tape, u) => if tape == tapeId && u == url && q != [] then q[1..] else q
    case ClearTapeOp(tape) => if tape == tapeId then [] else q
  }

  lemma StepKeepsSound(t: Tapes, op: Op)
    requires Sound(t)
    ensures Sound(Step(t, op))
    ensures t.nextId <= Step(t, op).nextId
  {
    match op {
      case LogOp(_) =>
      case RequestOp(tapeId, url) => QueueMembers(t.records, t.consumed, tapeId, url);
      case ClearTapeOp(tapeId) => ClearKeepsSound(t, tapeId);
    }
  }

  lemma RequestEffect(t: Tapes, tape: string, u: string, tapeId: string, url: string)
    requires Sound(t)
    ensures Pending(AfterRequest(t, tape, u), tapeId, url)
         == if tape == tapeId && u == url && Pending(t, tapeId, url) != [] then Pending(t, tapeId, url)[1..]
            else Pending(t, tapeId, url)
  {
    var q := Pending(t, tape, u);
    if q != [] {
      ConsumeFirst(t.records, t.consumed, tapeId, url, q[0]);
      QueueMembers(t.records, t.consumed, tapeId, url);
      QueueMembers(t.records, t.consumed, tape, u);
      assert q[0] in q;
    }
  }

  lemma LogEffect(t: Tapes, pair: Pair, tapeId: string, url: string)
    requires Sound(t)
    ensures Pending(AfterLog(t, pair), tapeId, url)
         == Pending(t, tapeId, url) + (if InClass(pair, tapeId, url) then [Record(t.nextId, pair)] else [])
  {
    var record := Record(t.nextId, pair);
    QueueAppend(t.records, [record], t.consumed, tapeId, url);
    assert [record][1..] == [];
    assert record !in t.consumed;
  }

  /** Every operation acts on every tape and URL as on a queue of its own: a log appends to its
      class, a request takes the head of its class and is answered with it, clearing a tape
      empties that tape's queues, and all other queues stay as they are. */
  lemma RefinesQueues(t: Tapes, op: Op, tapeId: string, url: string)
    requires Sound(t)
    ensures (op.LogOp? ==> Step(t, op).records[|t.records|] == Record(t.nextId, op.pair))
    ensures Pending(Step(t, op), tapeId, url)
         == QueueStep(Pending(t, tapeId, url), op, tapeId, url,
             Record(t.nextId, if op.LogOp? then op.pair else NoPair()))
    ensures op == RequestOp(tapeId, url) ==>
      Reply(t, tapeId, url) == if Pending(t, tapeId, url) == [] then None else Some(Pending(t, tapeId, url)[0])
  {
    match op {
      case LogOp(pair) => LogEffect(t, pair, tapeId, url);
      case RequestOp(tape, u) => RequestEffect(t, tape, u, tapeId, url);
      case ClearTapeOp(tape) => QueueOfOtherTapes(t.records, t.consumed, tape, tapeId, url);
    }
  }

  function NoPair(): Pair {
    Pair("", ArchivedRequest("", "", map[], []), ArchivedResponse(0, map[], []))
  }

  // The records replayed to the requests of a tape and URL during the operations.
  function Served(t: Tapes, ops: seq<Op>, tapeId: string, url: string): seq<Record> {
    if ops == [] then [] else
      var earlier := ops[..|ops| - 1];
      var reply := Reply(Run(t, earlier), tapeId, url);
      Served(t, earlier, tapeId, url)
      + (if ops[|ops| - 1] == RequestOp(tapeId, url) && reply.Some? then [reply.value] else [])
  }

  // The records logged for a tape and URL during the operations.
  function Logged(t: Tapes, ops: seq<Op>, tapeId: string, url: string): seq<Record> {
    if ops == [] then [] else
      var earlier := ops[..|ops| - 1];
      var op := ops[|ops| - 1];
      Logged(t, earlier, tapeId, url)
      + (if op.LogOp? && InClass(op.pair, tapeId, url) then [Record(Run(t, earlier).nextId, op.pair)] else [])
  }

  /** First in, first out: over any operations that do not clear the tape, what was replayed
      followed by what is still queued is what was queued followed by what was logged. So the
      i-th answered request gets the i-th record of its class. */
  lemma {:induction false} FirstInFirstOut(t: Tapes, ops: seq<Op>, tapeId: string, url: string)
    requires Sound(t) && forall i :: 0 <= i < |ops| ==> ops[i] != ClearTapeOp(tapeId)
    ensures Sound(Run(t, ops))
    ensures Served(t, ops, tapeId, url) + Pending(Run(t, ops), tapeId, url)
         == Pending(t, tapeId, url) + Logged(t, ops, tapeId, url)
  {
    if ops != [] {
      var earlier, op := ops[..|ops| - 1], ops[|ops| - 1];
      FirstInFirstOut(t, earlier, tapeId, url);
      var before := Run(t, earlier);
      StepKeepsSound(before, op);
      RefinesQueues(before, op, tapeId, url);
      var served, q := Served(t, earlier, tapeId, url), Pending(before, tapeId, url);
      var start, logged := Pending(t, tapeId, url), Logged(t, earlier, tapeId, url);
      var record := Record(before.nextId, if op.LogOp? then op.pair else NoPair());
      assert served + [] == served && logged + [] == logged;
      if op == RequestOp(tapeId, url) && q != [] {
        assert q == [q[0]] + q[1..];
        Assoc(served, [q[0]], q[1..]);
      } else if op.LogOp? && InClass(op.pair, tapeId, url) {
        Assoc(served, q, [record]);
        Assoc(start, logged, [record]);
      } else {
        assert QueueStep(q, op, tapeId, url, record) == q;
      }
    }
  }

  // Every record replayed during the operations, over all tapes and URLs.
  function AllServed(t: Tapes, ops: seq<Op>): seq<Record> {
    if ops == [] then [] else
      var earlier := ops[..|ops| - 1];
      var op := ops[|ops| - 1];
      var reply := if op.RequestOp? then Reply(Run(t, earlier), op.tapeId, op.url) else None;
      AllServed(t, earlier) + (if reply.Some? then [reply.value] else [])
  }

  /** No record is replayed twice, even when tapes are cleared and logged again in between. */
  lemma {:induction false} NoRecordIsServedTwice(t: Tapes, ops: seq<Op>)
    requires Sound(t)
    ensures Sound(Run(t, ops))
    ensures var served := AllServed(t, ops);
            && (forall i, j :: 0 <= i < j < |served| ==> served[i] != served[j])
            && (forall r :: r in served ==> r.id < Run(t, ops).nextId)
            && (forall r :: r in served && r in Run(t, ops).records ==> r in Run(t, ops).consumed)
  {
    if ops != [] {
      var earlier, op := ops[..|ops| - 1], ops[|ops| - 1];
      NoRecordIsServedTwice(t, earlier);
      var before := Run(t, earlier);
      StepKeepsSound(before, op);
      match op {
        case LogOp(pair) =>
        case RequestOp(tapeId, url) => QueueMembers(before.records, before.consumed, tapeId, url);
        case ClearTapeOp(tapeId) =>
          OtherTapesFacts(before.records, tapeId);
          OtherTapesFacts(before.consumed, tapeId);
      }
    }
  }

  // --- Replaying a whole recording ---

  function Requests(pairs: seq<Pair>): (ops: seq<Op>)
    ensures |ops| == |pairs|
    ensures forall i :: 0 <= i < |pairs| ==> ops[i] == RequestOp(pairs[i].tapeId, pairs[i].request.url)
  {
    seq(|pairs|, i requires 0 <= i < |pairs| => RequestOp(pairs[i].tapeId, pairs[i].request.url))
  }

  // With the first i records consumed, the next request in recording order gets record i.
  lemma {:induction false} QueueAfterPrefix(records: seq<Record>, consumed: seq<Record>, i: nat)
    requires i < |records| && forall a, b :: 0 <= a < b < |records| ==> records[a].id != records[b].id
    requires forall r :: r in records ==> (r in consumed <==> r in records[..i])
    ensures var q := Queue(records, consumed, records[i].pair.tapeId, records[i].pair.request.url);
            q != [] && q[0] == records[i]
  {
    var tapeId, url := records[i].pair.tapeId, records[i].pair.request.url;
    assert records == records[..i] + records[i..];
    QueueAppend(records[..i], records[i..], consumed, tapeId, url);
    QueueOfConsumed(records[..i], consumed, tapeId, url);
    assert records[i] !in records[..i];
  }

  lemma {:induction false} QueueOfConsumed(records: seq<Record>, consumed: seq<Record>, tapeId: string, url: string)
    requires forall k :: 0 <= k < |records| ==> records[k] in consumed
    ensures Queue(records, consumed, tapeId, url) == []
  {
    if records != [] {
      QueueOfConsumed(records[1..], consumed, tapeId, url);
    }
  }

  lemma RunOneMore(t: Tapes, ops: seq<Op>, i: nat)
    requires i < |ops|
    ensures Run(t, ops[..i + 1]) == Step(Run(t, ops[..i]), ops[i])
  {
    assert ops[..i + 1][..i] == ops[..i];
  }

  // The recorder with its first i records replayed.
  function Replayed(t: Tapes, i: nat): Tapes
    requires i <= |t.records|
  {
    t.(consumed := t.records[..i])
  }

  lemma ReplayNext(t: Tapes, i: nat)
    requires i < |t.records| && forall a, b :: 0 <= a < b < |t.records| ==> t.records[a].id != t.records[b].id
    ensures var pair := t.records[i].pair;
            && Reply(Replayed(t, i), pair.tapeId, pair.request.url) == Some(t.records[i])
            && AfterRequest(Replayed(t, i), pair.tapeId, pair.request.url) == Replayed(t, i + 1)
  {
    QueueAfterPrefix(t.records, t.records[..i], i);
    assert t.records[..i + 1] == t.records[..i] + [t.records[i]];
  }

  lemma {:induction false} ReplayedPrefix(t: Tapes, i: nat)
    requires Sound(t) && t.consumed == [] && i <= |t.records|
    ensures Run(t, Requests(Pairs(t.records))[..i]) == Replayed(t, i)
  {
    if i == 0 {
      assert t.records[..0] == [];
    } else {
      ReplayedPrefix(t, i - 1);
      RunOneMore(t, Requests(Pairs(t.records)), i - 1);
      ReplayNext(t, i - 1);
    }
  }

  lemma ReplayInOrder(t: Tapes, pairs: seq<Pair>, i: nat)
    requires i < |pairs| <= t.nextId && t.records == Numbered(pairs, t.nextId - |pairs|) && t.consumed == []
    ensures Run(t, Requests(pairs)[..i]) == Replayed(t, i)
    ensures Reply(Run(t, Requests(pairs)[..i]), pairs[i].tapeId, pairs[i].request.url) == Some(t.records[i])
  {
    assert Pairs(t.records) == pairs;
    ReplayedPrefix(t, i);
    ReplayNext(t, i);
  }

  // A browsing session: responses, each with its redirect history, and the tapes they are recorded on.
  datatype Visit = Visit(tapeId: string, response: HttpResponse)

  function SessionPairs(visits: seq<Visit>): seq<Pair> {
    if visits == [] then [] else
      var last := visits[|visits| - 1];
      SessionPairs(visits[..|visits| - 1]) + HopPairs(History(last.response), last.tapeId)
  }

  // A recorder in write mode after the visits: each response leaves what RecordResponse says.
  function Recorded(t: Tapes, visits: seq<Visit>): Tapes {
    if visits == [] then t else
      var last := visits[|visits| - 1];
      AfterLogs(Recorded(t, visits[..|visits| - 1]), HopPairs(History(last.response), last.tapeId))
  }

  lemma {:induction false} LogsJoin(t: Tapes, a: seq<Pair>, b: seq<Pair>)
    ensures AfterLogs(AfterLogs(t, a), b) == AfterLogs(t, a + b)
  {
    if b == [] {
      assert a + b == a;
    } else {
      LogsJoin(t, a, b[..|b| - 1]);
      assert (a + b)[..|a + b| - 1] == a + b[..|b| - 1];
    }
  }

  lemma {:induction false} RecordedIsLogged(t: Tapes, visits: seq<Visit>)
    ensures Recorded(t, visits) == AfterLogs(t, SessionPairs(visits))
  {
    if visits != [] {
      var last := visits[|visits| - 1];
      RecordedIsLogged(t, visits[..|visits| - 1]);
      LogsJoin(t, SessionPairs(visits[..|visits| - 1]), HopPairs(History(last.response), last.tapeId));
    }
  }

  datatype TapedHop = TapedHop(tapeId: string, hop: HttpResponse)

  // The hops that can be archived: both bodies readable.
  function ReadableHops(hops: seq<HttpResponse>, tapeId: string): seq<TapedHop> {
    if hops == [] then [] else
      var last := hops[|hops| - 1];
      ReadableHops(hops[..|hops| - 1], tapeId)
      + (if last.body.Some? && last.request.body.Some? then [TapedHop(tapeId, last)] else [])
  }

  // The readable hops of the whole session, oldest first within each chain.
  function SessionHops(visits: seq<Visit>): seq<TapedHop> {
    if visits == [] then [] else
      var last := visits[|visits| - 1];
      SessionHops(visits[..|visits| - 1]) + ReadableHops(History(last.response), last.tapeId)
  }

  ghost predicate Archived(pair: Pair, taped: TapedHop) {
    var hop := taped.hop;
    && pair.tapeId == taped.tapeId
    && hop.body == Some(pair.response.body) && pair.response.status == hop.status &&
        pair.response.headers == hop.headers
    && hop.request.body == Some(pair.request.body) && pair.request.headers == hop.request.headers
    && pair.request.url == hop.request.url && pair.request.verb == hop.request.verb
  }

  ghost predicate AllArchived(pairs: seq<Pair>, hops: seq<TapedHop>) {
    |pairs| == |hops| && forall i :: 0 <= i < |hops| ==> Archived(pairs[i], hops[i])
  }

  lemma {:induction false} HopPairsMatch(hops: seq<HttpResponse>, tapeId: string)
    ensures AllArchived(HopPairs(hops, tapeId), ReadableHops(hops, tapeId))
  {
    if hops != [] {
      HopPairsMatch(hops[..|hops| - 1], tapeId);
    }
  }

  lemma {:induction false} SessionPairsMatch(visits: seq<Visit>)
    ensures AllArchived(SessionPairs(visits), SessionHops(visits))
  {
    if visits != [] {
      var earlier, last := visits[..|visits| - 1], visits[|visits| - 1];
      SessionPairsMatch(earlier);
      HopPairsMatch(History(last.response), last.tapeId);
      ArchivedTogether(SessionPairs(earlier), SessionHops(earlier),
                       HopPairs(History(last.response), last.tapeId),
                       ReadableHops(History(last.response), last.tapeId));
    }
  }

  lemma ArchivedTogether(pairs: seq<Pair>, hops: seq<TapedHop>, morePairs: seq<Pair>, moreHops: seq<TapedHop>)
    requires AllArchived(pairs, hops) && AllArchived(morePairs, moreHops)
    ensures AllArchived(pairs + morePairs, hops + moreHops)
  {
    forall i | |hops| <= i < |hops + moreHops|
      ensures Archived((pairs + morePairs)[i], (hops + moreHops)[i])
    {
      assert Archived(morePairs[i - |hops|], moreHops[i - |hops|]);
    }
  }

  lemma {:induction false} LogsAppend(t: Tapes, pairs: seq<Pair>)
    ensures AfterLogs(t, pairs).records == t.records + Numbered(pairs, t.nextId)
    ensures AfterLogs(t, pairs).consumed == t.consumed && AfterLogs(t, pairs).nextId == t.nextId + |pairs|
  {
    if pairs == [] {
      assert t.records + [] == t.records;
    } else {
      LogsAppend(t, pairs[..|pairs| - 1]);
      assert Numbered(pairs, t.nextId)
          == Numbered(pairs[..|pairs| - 1], t.nextId) + [Record(t.nextId + |pairs| - 1, pairs[|pairs| - 1])];
    }
  }

  lemma ExportedSession(visits: seq<Visit>)
    ensures Exported(Recorded(Tapes([], [], 0), visits), "") == SessionPairs(visits)
  {
    var pairs := SessionPairs(visits);
    RecordedIsLogged(Tapes([], [], 0), visits);
    LogsAppend(Tapes([], [], 0), pairs);
    assert Pairs([] + Numbered(pairs, 0)) == pairs;
  }

  // The requests that ask for the hops, in order.
  function HopRequests(hops: seq<TapedHop>): (ops: seq<Op>)
    ensures |ops| == |hops|
    ensures forall i :: 0 <= i < |hops| ==> ops[i] == RequestOp(hops[i].tapeId, hops[i].hop.request.url)
  {
    seq(|hops|, i requires 0 <= i < |hops| => RequestOp(hops[i].tapeId, hops[i].hop.request.url))
  }

  // A recorder loaded with the export of a recorded session.
  function LoadedSession(visits: seq<Visit>, format: Format, target: Tapes): Tapes {
    AfterLoad(target, format.decode(format.encode(Exported(Recorded(Tapes([], [], 0), visits), ""))))
  }

  lemma LoadedIsPairs(visits: seq<Visit>, format: Format, target: Tapes)
    requires Lossless(format)
    ensures LoadedSession(visits, format, target) == AfterLoad(target, Contents(SessionPairs(visits)))
  {
    ExportedSession(visits);
  }

  lemma LoadedReplies(pairs: seq<Pair>, hops: seq<TapedHop>, target: Tapes, i: nat)
    requires AllArchived(pairs, hops) && i < |hops|
    ensures var reply := Reply(Run(AfterLoad(target, Contents(pairs)), HopRequests(hops)[..i]), hops[i].tapeId,
        hops[i].hop.request.url);
            reply.Some? && Archived(reply.value.pair, hops[i])
  {
    assert HopRequests(hops) == Requests(pairs);
    assert Archived(pairs[i], hops[i]);
    ReplayInOrder(AfterLoad(target, Contents(pairs)), pairs, i);
  }

  lemma SessionReplies(visits: seq<Visit>, format: Format, target: Tapes, i: nat)
    requires Lossless(format) && i < |SessionHops(visits)|
    ensures var hops := SessionHops(visits);
            var reply := Reply(Run(LoadedSession(visits, format, target), HopRequests(hops)[..i]), hops[i].tapeId,
                hops[i].hop.request.url);
            reply.Some? && Archived(reply.value.pair, hops[i])
  {
    LoadedIsPairs(visits, format, target);
    SessionPairsMatch(visits);
    LoadedReplies(SessionPairs(visits), SessionHops(visits), target, i);
  }

  /** Record any session of redirect chains, export all of it, load it into any recorder and
      request the recorded URLs on their tapes in order: the i-th request is answered with the
      i-th readable hop, oldest first within its chain. Whatever the iteration order of its
      header map, the response rebuilt from the answer has the hop's status, body and length,
      and its headers if and only if their keys are canonical and have values. */
  lemma RecordedSessionReplays(visits: seq<Visit>, format: Format, target: Tapes, i: nat,
                               response: ReplayedResponse, canonical: string -> string)
    requires Lossless(format) && i < |SessionHops(visits)|
    requires forall k: string :: canonical(canonical(k)) == canonical(k)
    ensures var hops := SessionHops(visits);
            var hop := hops[i].hop;
            var reply := Reply(Run(LoadedSession(visits, format, target), HopRequests(hops)[..i]), hops[i].tapeId,
                hop.request.url);
            && reply.Some?
            && (Replays(response, reply.value.pair.response, canonical) ==>
                 && response.status == hop.status && Some(response.body) == hop.body &&
                     response.contentLength == |response.body|
                 && (response.headers == hop.headers <==> CanonicalHeaders(hop.headers, canonical)))
  {
    var hops := SessionHops(visits);
    SessionReplies(visits, format, target, i);
    var reply := Reply(Run(LoadedSession(visits, format, target), HopRequests(hops)[..i]), hops[i].tapeId,
        hops[i].hop.request.url);
    if Replays(response, reply.value.pair.response, canonical) {
      ReplayedHeaders(response, reply.value.pair.response, canonical);
    }
  }

  // --- Exporting one tape ---

  lemma {:induction false} LoadedQueue(pairs: seq<Pair>, first: nat, tape: string, url: string)
    ensures Pairs(Queue(Numbered(pairs, first), [], tape, url)) == ClassPairs(pairs, tape, url)
  {
    if pairs != [] {
      var records := Numbered(pairs, first);
      LoadedQueue(pairs[1..], first + 1, tape, url);
      assert records[1..] == Numbered(pairs[1..], first + 1);
      var rest := Queue(records[1..], [], tape, url);
      assert Pairs([records[0]] + rest) == [pairs[0]] + Pairs(rest);
      assert [] + rest == rest;
    }
  }

  /** Exporting a tape and loading the payload into any recorder leaves exactly the tape's and the
      untagged queues, each with all its recorded pairs in order, whatever had been replayed. */
  lemma ExportedTapeReplays(t: Tapes, tapeId: string, format: Format, target: Tapes, tape: string, url: string)
    requires Lossless(format)
    ensures var loaded := AfterLoad(target, format.decode(format.encode(Exported(t, tapeId))));
            Pairs(Pending(loaded, tape, url))
            == if tapeId == "" || tape == tapeId || tape == "" then ClassPairs(Pairs(t.records), tape, url) else []
  {
    LoadedQueue(Exported(t, tapeId), target.nextId, tape, url);
    ExportedClass(t, tapeId, tape, url);
  }
}
