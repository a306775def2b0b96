/**
 The tape recorder (groove/proxy/recorder.go). Replay scans the records for the first one of
 the request's tape and URL that is not consumed; it is proved to behave as one first-in
 first-out queue for each tape and URL.
 */
module Recorder {
  import opened Prelude
  import opened Archives

  // What a record says; records are told apart by address, for which id stands.
  datatype Pair = Pair(tapeId: string, request: ArchivedRequest, response: ArchivedResponse)

  datatype Record = Record(id: nat, pair: Pair)

  datatype Tapes = Tapes(records: seq<Record>, consumed: seq<Record>, nextId: nat)

  ghost predicate Sound(t: Tapes) {
    && (forall i :: 0 <= i < |t.records| ==> t.records[i].id < t.nextId)
    && (forall i, j :: 0 <= i < j < |t.records| ==> t.records[i].id != t.records[j].id)
    && (forall r :: r in t.consumed ==> r.id < t.nextId)
  }

  predicate InClass(pair: Pair, tapeId: string, url: string) {
    pair.tapeId == tapeId && pair.request.url == url
  }

  // The queue of a tape and URL: its records that are not consumed, in recording order.
  function Queue(records: seq<Record>, consumed: seq<Record>, tapeId: string, url: string): seq<Record> {
    if records == [] then [] else
      (if InClass(records[0].pair, tapeId, url) && records[0] !in consumed then [records[0]] else [])
      + Queue(records[1..], consumed, tapeId, url)
  }

  function Pending(t: Tapes, tapeId: string, url: string): seq<Record> {
    Queue(t.records, t.consumed, tapeId, url)
  }

  function AfterLog(t: Tapes, pair: Pair): Tapes {
    Tapes(t.records + [Record(t.nextId, pair)], t.consumed, t.nextId + 1)
  }

  function AfterLogs(t: Tapes, pairs: seq<Pair>): Tapes {
    if pairs == [] then t else AfterLog(AfterLogs(t, pairs[..|pairs| - 1]), pairs[|pairs| - 1])
  }

  function AfterRequest(t: Tapes, tapeId: string, url: string): Tapes {
    var pending := Pending(t, tapeId, url);
    if pending == [] then t else t.(consumed := t.consumed + [pending[0]])
  }

  function Reply(t: Tapes, tapeId: string, url: string): Option<Record> {
    var pending := Pending(t, tapeId, url);
    if pending == [] then None else Some(pending[0])
  }

  function OtherTapes(records: seq<Record>, tapeId: string): seq<Record> {
    Filter(records, (r: Record) => r.pair.tapeId != tapeId)
  }

  function AfterClearTape(t: Tapes, tapeId: string): Tapes {
    t.(records := OtherTapes(t.records, tapeId), consumed := OtherTapes(t.consumed, tapeId))
  }

  // --- Effects on the queues ---

  lemma {:induction false} QueueAppend(a: seq<Record>, b: seq<Record>, consumed: seq<Record>, tapeId: string,
                                       url: string)
    ensures Queue(a + b, consumed, tapeId, url) == Queue(a, consumed, tapeId, url) + Queue(b, consumed, tapeId, url)
  {
    if a == [] {
      assert a + b == b;
    } else {
      QueueAppend(a[1..], b, consumed, tapeId, url);
      assert (a + b)[0] == a[0] && (a + b)[1..] == a[1..] + b;
      var head := if InClass(a[0].pair, tapeId, url) && a[0] !in consumed then [a[0]] else [];
      Assoc(head, Queue(a[1..], consumed, tapeId, url), Queue(b, consumed, tapeId, url));
    }
  }

  lemma {:induction false} QueueMembers(records: seq<Record>, consumed: seq<Record>, tapeId: string, url: string)
    ensures forall r :: r in Queue(records, consumed, tapeId, url) <==>
      r in records && r !in consumed && r.pair.tapeId == tapeId && r.pair.request.url == url
  {
    if records != [] {
      QueueMembers(records[1..], consumed, tapeId, url);
      assert records == [records[0]] + records[1..];
    }
  }

  // A record that a request for the tape and URL may be answered with.
  predicate Matches(record: Record, consumed: seq<Record>, tapeId: string, url: string) {
    record.pair.tapeId == tapeId && record.pair.request.url == url && record !in consumed
  }

  /** The head of a queue is the first record, in recording order, of its tape and URL that is not
      consumed; the queue is empty exactly when there is none. */
  lemma {:induction false} HeadIsFirstMatch(records: seq<Record>, consumed: seq<Record>, tapeId: string, url: string)
    returns (n: nat)
    ensures n <= |records| && forall i :: 0 <= i < n ==> !Matches(records[i], consumed, tapeId, url)
    ensures n < |records| ==>
      && records[n].pair.tapeId == tapeId && records[n].pair.request.url == url && records[n] !in consumed
      && Queue(records, consumed, tapeId, url) != [] && Queue(records, consumed, tapeId, url)[0] == records[n]
    ensures n == |records| ==> Queue(records, consumed, tapeId, url) == []
  {
    n := 0;
    if records != [] && !Matches(records[0], consumed, tapeId, url) {
      var m := HeadIsFirstMatch(records[1..], consumed, tapeId, url);
      n := m + 1;
      forall i | 0 <= i < n
        ensures !Matches(records[i], consumed, tapeId, url)
      {
        assert i > 0 ==> records[i] == records[1..][i - 1];
      }
    }
  }

  // Consuming a record takes it out of the one queue it heads.
  lemma {:induction false} ConsumeFirst(records: seq<Record>, consumed: seq<Record>, tapeId: string, url: string,
                                        x: Record)
    requires forall i, j :: 0 <= i < j < |records| ==> records[i].id != records[j].id
    ensures x !in Queue(records, consumed, tapeId, url) ==>
      Queue(records, consumed + [x], tapeId, url) == Queue(records, consumed, tapeId, url)
    ensures var q := Queue(records, consumed, tapeId, url);
      q != [] && q[0] == x ==> Queue(records, consumed + [x], tapeId, url) == q[1..]
  {
    if records != [] {
      var head, tail := records[0], records[1..];
      ConsumeFirst(tail, consumed, tapeId, url, x);
      QueueMembers(tail, consumed, tapeId, url);
      assert head !in tail by {
        forall i | 0 <= i < |tail|
          ensures tail[i] != head
        {
          assert records[0].id != records[i + 1].id;
        }
      }
      if InClass(head.pair, tapeId, url) && head !in consumed {
        assert Queue(records, consumed, tapeId, url) == [head] + Queue(tail, consumed, tapeId, url);
      }
    }
  }

  lemma {:induction false} QueueOfOtherTapes(records: seq<Record>, consumed: seq<Record>, cleared: string,
                                             tapeId: string, url: string)
    ensures Queue(OtherTapes(records, cleared), OtherTapes(consumed, cleared), tapeId, url)
         == if tapeId == cleared then [] else Queue(records, consumed, tapeId, url)
  {
    FilterMembers(consumed, (r: Record) => r.pair.tapeId != cleared);
    if records != [] {
      QueueOfOtherTapes(records[1..], consumed, cleared, tapeId, url);
      var tail := OtherTapes(records[1..], cleared);
      if records[0].pair.tapeId != cleared {
        assert OtherTapes(records, cleared)[1..] == tail;
      } else {
        assert OtherTapes(records, cleared) == tail;
      }
    }
  }

  lemma {:induction false} OtherTapesFacts(records: seq<Record>, tapeId: string)
    ensures forall r :: r in OtherTapes(records, tapeId) <==> r in records && r.pair.tapeId != tapeId
    ensures (forall i, j :: 0 <= i < j < |records| ==> records[i].id != records[j].id) ==>
      forall i, j :: 0 <= i < j < |OtherTapes(records, tapeId)| ==>
          OtherTapes(records, tapeId)[i].id != OtherTapes(records, tapeId)[j].id
  {
    FilterMembers(records, (r: Record) => r.pair.tapeId != tapeId);
    if records != [] {
      var rest := OtherTapes(records[1..], tapeId);
      OtherTapesFacts(records[1..], tapeId);
      if forall i, j :: 0 <= i < j < |records| ==> records[i].id != records[j].id {
        forall i | 0 <= i < |rest|
          ensures rest[i].id != records[0].id
        {
          assert rest[i] in records[1..];
          var j :| 0 <= j < |records[1..]| && records[1..][j] == rest[i];
          assert records[j + 1] == rest[i];
        }
      }
    }
  }

  lemma OtherTapesMembers(records: seq<Record>, tapeId: string)
    ensures forall r :: r in OtherTapes(records, tapeId) <==> r in records && r.pair.tapeId != tapeId
  {
    FilterMembers(records, (r: Record) => r.pair.tapeId != tapeId);
  }

  lemma ClearKeepsSound(t: Tapes, tapeId: string)
    requires Sound(t)
    ensures Sound(AfterClearTape(t, tapeId))
  {
    OtherTapesFacts(t.records, tapeId);
    OtherTapesFacts(t.consumed, tapeId);
    var kept := OtherTapes(t.records, tapeId);
    forall i | 0 <= i < |kept|
      ensures kept[i].id < t.nextId
    {
      assert kept[i] in t.records;
    }
  }

  // --- The recorder ---

  datatype Mode = Off | Read | Write

  // What decoding an upload gives; a stream that is not gzip is rejected before anything is wiped.
  datatype Decoded = NotGzip | Contents(pairs: seq<Pair>)

  // The export format: JSON under gzip.
  datatype Format = Format(encode: seq<Pair> -> Bytes, decode: Bytes -> Decoded)

  ghost predicate Lossless(format: Format) {
    forall pairs: seq<Pair> :: format.decode(format.encode(pairs)) == Contents(pairs)
  }

  function Pairs(records: seq<Record>): (pairs: seq<Pair>)
    ensures |pairs| == |records|
    ensures forall i :: 0 <= i < |records| ==> pairs[i] == records[i].pair
  {
    seq(|records|, i requires 0 <= i < |records| => records[i].pair)
  }

  // Freshly loaded records: one new address each.
  function Numbered(pairs: seq<Pair>, first: nat): (records: seq<Record>)
    ensures |records| == |pairs|
    ensures forall i :: 0 <= i < |pairs| ==> records[i] == Record(first + i, pairs[i])
  {
    seq(|pairs|, i requires 0 <= i < |pairs| => Record(first + i, pairs[i]))
  }

  function AfterLoad(t: Tapes, decoded: Decoded): Tapes {
    match decoded
    case NotGzip => t
    case Contents(pairs) => Tapes(Numbered(pairs, t.nextId), [], t.nextId + |pairs|)
  }

  // The records of the tape and the untagged ones.
  function OnTape(records: seq<Record>, tapeId: string): seq<Record> {
    Filter(records, (r: Record) => r.pair.tapeId == tapeId || r.pair.tapeId == "")
  }

  function Exported(t: Tapes, tapeId: string): seq<Pair> {
    Pairs(if tapeId == "" then t.records else OnTape(t.records, tapeId))
  }

  // An export under tapeId takes the tape in.
  predicate Covers(tapeId: string, tape: string) {
    tapeId == "" || tape == tapeId || tape == ""
  }

  // The pairs of a tape and URL, in order.
  function ClassPairs(pairs: seq<Pair>, tapeId: string, url: string): seq<Pair> {
    if pairs == [] then [] else
      (if InClass(pairs[0], tapeId, url) then [pairs[0]] else []) + ClassPairs(pairs[1..], tapeId, url)
  }

  lemma {:induction false} FilteredClass(records: seq<Record>, tapeId: string, tape: string, url: string)
    ensures ClassPairs(Pairs(OnTape(records, tapeId)), tape, url)
         == if tape == tapeId || tape == "" then ClassPairs(Pairs(records), tape, url) else []
  {
    if records != [] {
      var first, tail := records[0], records[1..];
      FilteredClass(tail, tapeId, tape, url);
      ClassFirst(first, tail, tape, url);
      assert records == [first] + tail;
      if first.pair.tapeId == tapeId || first.pair.tapeId == "" {
        ClassFirst(first, OnTape(tail, tapeId), tape, url);
        assert OnTape(records, tapeId) == [first] + OnTape(tail, tapeId);
      } else {
        assert OnTape(records, tapeId) == OnTape(tail, tapeId);
      }
    }
  }

  lemma ClassFirst(record: Record, rest: seq<Record>, tape: string, url: string)
    ensures ClassPairs(Pairs([record] + rest), tape, url)
         == (if InClass(record.pair, tape, url) then [record.pair] else []) + ClassPairs(Pairs(rest), tape, url)
  {
    assert Pairs([record] + rest)[1..] == Pairs(rest);
  }

  lemma ExportedClass(t: Tapes, tapeId: string, tape: string, url: string)
    ensures ClassPairs(Exported(t, tapeId), tape, url)
         == if Covers(tapeId, tape) then ClassPairs(Pairs(t.records), tape, url) else []
  {
    if tapeId != "" {
      FilteredClass(t.records, tapeId, tape, url);
    }
  }

  // What LogPair records: nothing if either body cannot be read.
  function HopPair(hop: HttpResponse, tapeId: string): seq<Pair> {
    if ArchiveRequest(hop.request).Some? && ArchiveResponse(hop).Some?
    then [Pair(tapeId, ArchiveRequest(hop.request).value, ArchiveResponse(hop).value)] else []
  }

  function HopPairs(hops: seq<HttpResponse>, tapeId: string): seq<Pair> {
    if hops == [] then [] else HopPairs(hops[..|hops| - 1], tapeId) + HopPair(hops[|hops| - 1], tapeId)
  }

  class Recorder {
    var mode: Mode
    var records: seq<Record>
    var consumedRecords: seq<Record>
    var nextId: nat

    ghost predicate Valid()
      reads this
    {
      Sound(State())
    }

    function State(): Tapes
      reads this
    {
      Tapes(records, consumedRecords, nextId)
    }

    constructor ()
      ensures Valid() && State() == Tapes([], [], 0) && mode == Off
    {
      mode, records, consumedRecords, nextId := Off, [], [], 0;
    }

    method LogPair(request: HttpRequest, tapeId: string, response: HttpResponse)
      requires Valid()
      modifies this
      ensures Valid() && mode == old(mode)
      ensures State() == AfterLogs(old(State()), HopPair(response.(request := request), tapeId))
    {
      var archivedRequest, archivedResponse := ArchiveRequest(request), ArchiveResponse(response);
      if archivedRequest.Some? && archivedResponse.Some? {
        var pair := Pair(tapeId, archivedRequest.value, archivedResponse.value);
        assert [pair][..0] == [];
        assert AfterLogs(State(), []) == State();
        records := records + [Record(nextId, pair)];
        nextId := nextId + 1;
      }
    }

    /** What the payload decodes to holds, for each tape and URL the export covers, all its
        recorded pairs in recording order, consumed or not, and nothing for any other. */
    method ExportData(tapeId: string, format: Format) returns (payload: Bytes)
      ensures payload == format.encode(Exported(State(), tapeId))
      ensures Lossless(format) ==>
        && format.decode(payload).Contents?
        && forall tape, url :: ClassPairs(format.decode(payload).pairs, tape, url)
                == if tapeId == "" || tape == tapeId || tape == "" then ClassPairs(Pairs(records), tape, url) else []
    {
      var recordsToExport := records;
      if |tapeId| != 0 {
        recordsToExport := FilterSlice(records, (r: Record) => r.pair.tapeId == tapeId || r.pair.tapeId == "");
      }
      payload := format.encode(Pairs(recordsToExport));
      forall tape, url
        ensures ClassPairs(Exported(State(), tapeId), tape, url)
             == if Covers(tapeId, tape) then ClassPairs(Pairs(records), tape, url) else []
      {
        ExportedClass(State(), tapeId, tape, url);
      }
    }

    method LoadData(payload: Bytes, format: Format) returns (failed: bool)
      requires Valid()
      modifies this
      ensures Valid() && mode == old(mode)
      ensures failed <==> format.decode(payload).NotGzip?
      ensures State() == AfterLoad(old(State()), format.decode(payload))
      ensures failed ==> State() == old(State())
      ensures !failed ==>
        && Pairs(records) == format.decode(payload).pairs && consumedRecords == []
        && forall r :: r in records ==> old(nextId) <= r.id
    {
      var decoded := format.decode(payload);
      if decoded.NotGzip? {
        return true;
      }
      Clear();
      records := Numbered(decoded.pairs, nextId);
      nextId := nextId + |decoded.pairs|;
      failed := false;
    }

    method Clear()
      requires Valid()
      modifies this
      ensures Valid() && mode == old(mode)
      ensures State() == Tapes([], [], old(nextId))
    {
      records, consumedRecords := [], [];
    }

    method ClearTapeID(tapeId: string)
      requires Valid()
      modifies this
      ensures Valid() && mode == old(mode)
      ensures State() == AfterClearTape(old(State()), tapeId)
      ensures forall r :: r in records <==> r in old(records) && r.pair.tapeId != tapeId
      ensures forall r :: r in consumedRecords <==> r in old(consumedRecords) && r.pair.tapeId != tapeId
    {
      ClearKeepsSound(State(), tapeId);
      OtherTapesMembers(records, tapeId);
      OtherTapesMembers(consumedRecords, tapeId);
      var otherTape := (r: Record) => r.pair.tapeId != tapeId;
      records := FilterSlice(records, otherTape);
      consumedRecords := FilterSlice(consumedRecords, otherTape);
    }

    /** The scanning loop: the response is rebuilt from the head of the request's queue, which it
        leaves; an empty queue gives none. iterate is how Go happens to iterate over a header map. */
    method FindMatchingResponse(url: string, tapeId: string, iterate: Headers -> seq<string>,
                                canonical: string -> string)
      returns (found: Option<ReplayedResponse>)
      requires Valid()
      requires forall headers: Headers :: IterationOrder(iterate(headers), headers)
      requires forall k: string :: canonical(canonical(k)) == canonical(k)
      modifies this`consumedRecords
      ensures Valid()
      ensures State() == AfterRequest(old(State()), tapeId, url)
      ensures var reply := Reply(old(State()), tapeId, url);
              && (found.Some? <==> reply.Some?)
              && (found.Some? ==> Replays(found.value, reply.value.pair.response, canonical))
    {
      for i := 0 to |records|
        invariant consumedRecords == old(consumedRecords)
        invariant Queue(records, consumedRecords, tapeId, url) == Queue(records[i..], consumedRecords, tapeId, url)
      {
        var record := records[i];
        assert records[i..][1..] == records[i + 1..];
        if record.pair.tapeId != tapeId {
          continue;
        }
        if record.pair.request.url == url {
          if record in consumedRecords {
            continue;
          }
          consumedRecords := consumedRecords + [record];
          var archived := record.pair.response;
          var response := ReplayResponse(archived, iterate(archived.headers), canonical);
          return Some(response);
        }
      }
      found := None;
    }

    // The response middleware: in write mode, record every hop of the redirect history.
    method RecordResponse(response: HttpResponse, tapeId: string)
      requires Valid()
      modifies this
      ensures Valid() && mode == old(mode)
      ensures State() == if mode == Write then AfterLogs(old(State()), HopPairs(History(response), tapeId))
          else old(State())
    {
      if mode != Write {
        return;
      }
      var requestHistory, responseHistory := GetRedirectHistory(response);
      for i := 0 to |requestHistory|
        invariant Valid() && mode == old(mode)
        invariant State() == AfterLogs(old(State()), HopPairs(responseHistory[..i], tapeId))
      {
        ghost var before := State();
        LogPair(requestHistory[i], tapeId, responseHistory[i]);
        assert responseHistory[i].(request := requestHistory[i]) == responseHistory[i];
        LogOneMore(old(State()), responseHistory, i, tapeId);
      }
      assert responseHistory[..|responseHistory|] == responseHistory;
    }
  }

  lemma LogOneMore(t: Tapes, hops: seq<HttpResponse>, i: nat, tapeId: string)
    requires i < |hops|
    ensures AfterLogs(t, HopPairs(hops[..i + 1], tapeId))
         == AfterLogs(AfterLogs(t, HopPairs(hops[..i], tapeId)), HopPair(hops[i], tapeId))
  {
    var longer := hops[..i + 1];
    assert longer[..|longer| - 1] == hops[..i];
    var earlier, one := HopPairs(hops[..i], tapeId), HopPair(hops[i], tapeId);
    if one == [] {
      assert earlier + one == earlier;
    } else {
      assert one[..0] == [];
      assert (earlier + one)[..|earlier + one| - 1] == earlier;
    }
  }
}
