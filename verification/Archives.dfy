/**
 Live and archived requests and responses (groove/proxy/archives.go) and the redirect history
 of a response (groove/proxy/utilities.go).
 */
module Archives {
  import opened Prelude

  type Headers = map<string, seq<string>>

  /** A live message; a body of None cannot be read. A request made to follow a redirect carries
      the response that redirected it. */
  datatype HttpRequest = HttpRequest(url: string, verb: string, headers: Headers, body: Option<Bytes>,
                                     redirectedBy: Option<HttpResponse>)

  datatype HttpResponse = HttpResponse(status: int, headers: Headers, body: Option<Bytes>, request: HttpRequest)

  datatype ArchivedRequest = ArchivedRequest(url: string, verb: string, headers: Headers, body: Bytes)

  datatype ArchivedResponse = ArchivedResponse(status: int, headers: Headers, body: Bytes)

  function ArchiveRequest(request: HttpRequest): Option<ArchivedRequest> {
    if request.body.None? then None
    else Some(ArchivedRequest(request.url, request.verb, request.headers, request.body.value))
  }

  function ArchiveResponse(response: HttpResponse): Option<ArchivedResponse> {
    if response.body.None? then None
    else Some(ArchivedResponse(response.status, response.headers, response.body.value))
  }

  // --- Rebuilding headers ---

  // order lists the keys of headers once each: one way a Go map may be iterated.
  ghost predicate IterationOrder(order: seq<string>, headers: Headers) {
    && (forall i :: 0 <= i < |order| ==> order[i] in headers)
    && (forall k :: k in headers ==> k in order)
    && (forall i, j :: 0 <= i < j < |order| ==> order[i] != order[j])
  }

  // The values that the keys canonicalised to key bring, in iteration order.
  function Collected(headers: Headers, order: seq<string>, canonical: string -> string, key: string): seq<string> {
    if order == [] then [] else
      var last := order[|order| - 1];
      Collected(headers, order[..|order| - 1], canonical, key)
      + (if canonical(last) == key && last in headers then headers[last] else [])
  }

  // Header.Add: appends under the canonical form of key.
  function AddHeader(header: Headers, canonical: string -> string, key: string, value: string): Headers {
    var k := canonical(key);
    header[k := (if k in header then header[k] else []) + [value]]
  }

  ghost predicate Holds(header: Headers, headers: Headers, order: seq<string>, canonical: string -> string) {
    forall key ::
      && (key in header <==> Collected(headers, order, canonical, key) != [])
      && (key in header ==> header[key] == Collected(headers, order, canonical, key))
  }

  function ValuesUnder(header: Headers, key: string): seq<string> {
    if key in header then header[key] else []
  }

  // The inner loop of archivedResponseToResponse.
  method AddValues(before: Headers, canonical: string -> string, key: string, values: seq<string>)
    returns (header: Headers)
    ensures forall k :: k != canonical(key) ==>
      (k in header <==> k in before) && (k in before ==> header[k] == before[k])
    ensures canonical(key) in header <==> canonical(key) in before || values != []
    ensures ValuesUnder(header, canonical(key)) == ValuesUnder(before, canonical(key)) + values
  {
    header := before;
    for j := 0 to |values|
      invariant forall k :: k != canonical(key) ==>
        (k in header <==> k in before) && (k in before ==> header[k] == before[k])
      invariant canonical(key) in header <==> canonical(key) in before || j > 0
      invariant ValuesUnder(header, canonical(key)) == ValuesUnder(before, canonical(key)) + values[..j]
    {
      header := AddHeader(header, canonical, key, values[j]);
    }
    assert values[..|values|] == values;
  }

  // The outer loop.
  method RebuildHeaders(headers: Headers, order: seq<string>, canonical: string -> string) returns (header: Headers)
    requires IterationOrder(order, headers)
    ensures Holds(header, headers, order, canonical)
  {
    header := map[];
    for i := 0 to |order|
      invariant Holds(header, headers, order[..i], canonical)
    {
      var before := header;
      header := AddValues(before, canonical, order[i], headers[order[i]]);
      HoldsWithOneMore(before, header, headers, order, i, canonical);
    }
    assert order[..|order|] == order;
  }

  lemma HoldsWithOneMore(before: Headers, header: Headers, headers: Headers, order: seq<string>, i: nat,
                         canonical: string -> string)
    requires i < |order| && order[i] in headers && Holds(before, headers, order[..i], canonical)
    requires forall k :: k != canonical(order[i]) ==>
      (k in header <==> k in before) && (k in before ==> header[k] == before[k])
    requires canonical(order[i]) in header <==> canonical(order[i]) in before || headers[order[i]] != []
    requires ValuesUnder(header, canonical(order[i])) == ValuesUnder(before, canonical(order[i])) + headers[order[i]]
    ensures Holds(header, headers, order[..i + 1], canonical)
  {
    var longer := order[..i + 1];
    assert longer[..|longer| - 1] == order[..i];
    forall key: string
      ensures key in header <==> Collected(headers, longer, canonical, key) != []
      ensures key in header ==> header[key] == Collected(headers, longer, canonical, key)
    {
      assert Collected(headers, longer, canonical, key)
          == Collected(headers, order[..i], canonical, key)
             + (if canonical(order[i]) == key then headers[order[i]] else []);
    }
  }

  ghost predicate CanonicalHeaders(headers: Headers, canonical: string -> string) {
    forall k :: k in headers ==> canonical(k) == k && headers[k] != []
  }

  lemma {:induction false} CollectedFromCanonical(headers: Headers, order: seq<string>, canonical: string -> string,
                                                  key: string)
    requires CanonicalHeaders(headers, canonical)
    requires forall i :: 0 <= i < |order| ==> order[i] in headers
    requires forall i, j :: 0 <= i < j < |order| ==> order[i] != order[j]
    ensures Collected(headers, order, canonical, key) == if key in order then headers[key] else []
  {
    if order != [] {
      var earlier, last := order[..|order| - 1], order[|order| - 1];
      CollectedFromCanonical(headers, earlier, canonical, key);
      assert order == earlier + [last];
      assert last in order && last in headers && last !in earlier;
      assert key in order <==> key in earlier || key == last;
    }
  }

  lemma {:induction false} CollectedSource(headers: Headers, order: seq<string>, canonical: string -> string,
                                           key: string)
    requires Collected(headers, order, canonical, key) != []
    ensures exists k :: k in order && canonical(k) == key && k in headers
  {
    var earlier, last := order[..|order| - 1], order[|order| - 1];
    if Collected(headers, earlier, canonical, key) != [] {
      CollectedSource(headers, earlier, canonical, key);
      var k :| k in earlier && canonical(k) == key && k in headers;
      assert k in order;
    } else {
      assert last in order;
    }
  }

  /** Whatever the iteration order, rebuilt headers equal the archived ones if and only if every
      archived key is in canonical form and has a value. */
  lemma RebuiltHeadersAreOriginal(header: Headers, headers: Headers, order: seq<string>, canonical: string -> string)
    requires IterationOrder(order, headers) && Holds(header, headers, order, canonical)
    requires forall k: string :: canonical(canonical(k)) == canonical(k)
    ensures header == headers <==> CanonicalHeaders(headers, canonical)
  {
    if CanonicalHeaders(headers, canonical) {
      forall key: string
        ensures key in header <==> key in headers
        ensures key in header ==> header[key] == headers[key]
      {
        CollectedFromCanonical(headers, order, canonical, key);
      }
      assert header.Keys == headers.Keys;
    }
    if header == headers {
      forall key | key in headers
        ensures canonical(key) == key && headers[key] != []
      {
        assert Collected(headers, order, canonical, key) != [];
        CollectedSource(headers, order, canonical, key);
      }
    }
  }

  // A response as it is replayed.
  datatype ReplayedResponse = ReplayedResponse(status: int, headers: Headers, contentLength: nat, body: Bytes)

  // response is the archived one rebuilt, under some iteration order of its headers.
  ghost predicate Replays(response: ReplayedResponse, archived: ArchivedResponse, canonical: string -> string) {
    && response.status == archived.status && response.body == archived.body && response.contentLength == |archived.body|
    && exists order ::
         IterationOrder(order, archived.headers) && Holds(response.headers, archived.headers, order, canonical)
  }

  lemma ReplayedHeaders(response: ReplayedResponse, archived: ArchivedResponse, canonical: string -> string)
    requires Replays(response, archived, canonical) && forall k: string :: canonical(canonical(k)) == canonical(k)
    ensures response.headers == archived.headers <==> CanonicalHeaders(archived.headers, canonical)
  {
    var order :| IterationOrder(order, archived.headers) && Holds(response.headers, archived.headers, order, canonical);
    RebuiltHeadersAreOriginal(response.headers, archived.headers, order, canonical);
  }

  /** archivedResponseToResponse: status, body and length are the archived ones, and so are the
      headers when all their keys are canonical. order is the map's iteration order. */
  method ReplayResponse(archived: ArchivedResponse, order: seq<string>, canonical: string -> string)
    returns (response: ReplayedResponse)
    requires IterationOrder(order, archived.headers)
    requires forall k: string :: canonical(canonical(k)) == canonical(k)
    ensures response.status == archived.status && response.body == archived.body
    ensures response.contentLength == |archived.body|
    ensures Replays(response, archived, canonical)
    ensures response.headers == archived.headers <==> CanonicalHeaders(archived.headers, canonical)
  {
    var header := RebuildHeaders(archived.headers, order, canonical);
    RebuiltHeadersAreOriginal(header, archived.headers, order, canonical);
    response := ReplayedResponse(archived.status, header, |archived.body|, archived.body);
  }

  // --- Redirect history ---

  // The responses that led to this one, oldest first, this one last.
  function History(response: HttpResponse): seq<HttpResponse> {
    (match response.request.redirectedBy case None => [] case Some(earlier) => History(earlier)) + [response]
  }

  function Reversed<T>(s: seq<T>): (r: seq<T>)
    ensures |r| == |s|
    ensures forall i :: 0 <= i < |s| ==> r[i] == s[|s| - 1 - i]
  {
    seq(|s|, i requires 0 <= i < |s| => s[|s| - 1 - i])
  }

  // reverseSlice: two indices meet in the middle.
  method ReverseSlice<T>(s: array<T>)
    modifies s
    ensures s[..] == Reversed(old(s[..]))
  {
    var left, right := 0, s.Length - 1;
    while left < right
      invariant 0 <= left && right == s.Length - 1 - left && left <= right + 1
      invariant forall k :: 0 <= k < left || right < k < s.Length ==> s[k] == old(s[s.Length - 1 - k])
      invariant forall k :: left <= k <= right ==> s[k] == old(s[k])
    {
      s[left], s[right] := s[right], s[left];
      left, right := left + 1, right - 1;
    }
  }

  // Following one redirect back moves one response from the chain to the collected ones.
  lemma HistoryStep(response: HttpResponse, responses: seq<HttpResponse>)
    ensures History(response) + Reversed(responses)
         == (if response.request.redirectedBy.Some? then History(response.request.redirectedBy.value) else [])
            + Reversed(responses + [response])
  {
    assert Reversed(responses + [response]) == [response] + Reversed(responses);
    var earlier := if response.request.redirectedBy.Some? then History(response.request.redirectedBy.value) else [];
    Assoc(earlier, [response], Reversed(responses));
  }

  // The pointer-chasing loop: newest first.
  method CollectHops(response: HttpResponse) returns (requests: seq<HttpRequest>, responses: seq<HttpResponse>)
    ensures History(response) == Reversed(responses)
    ensures |requests| == |responses| && forall i :: 0 <= i < |responses| ==> requests[i] == responses[i].request
  {
    requests, responses := [], [];
    var current := Some(response);
    assert Reversed<HttpResponse>([]) == [];
    while current.Some?
      invariant |requests| == |responses| && forall i :: 0 <= i < |responses| ==> requests[i] == responses[i].request
      invariant History(response) == (if current.Some? then History(current.value) else []) + Reversed(responses)
      decreases current
    {
      var request := current.value.request;
      HistoryStep(current.value, responses);
      requests := requests + [request];
      responses := responses + [current.value];
      current := request.redirectedBy;
    }
  }

  method ReversedSlice<T>(s: seq<T>) returns (r: seq<T>)
    ensures r == Reversed(s)
  {
    var slice := new T[|s|](i requires 0 <= i < |s| => s[i]);
    assert slice[..] == s;
    ReverseSlice(slice);
    r := slice[..];
  }

  method GetRedirectHistory(response: HttpResponse)
    returns (requestHistory: seq<HttpRequest>, responseHistory: seq<HttpResponse>)
    ensures responseHistory == History(response)
    ensures |requestHistory| == |responseHistory|
    ensures forall i :: 0 <= i < |responseHistory| ==> requestHistory[i] == responseHistory[i].request
  {
    var requests, responses := CollectHops(response);
    requestHistory := ReversedSlice(requests);
    responseHistory := ReversedSlice(responses);
  }

  // The history is in order of issue: each later hop follows a redirect by the hop before it.
  lemma {:induction false} HistoryIsAChain(response: HttpResponse)
    ensures var h := History(response);
            && h != [] && h[|h| - 1] == response && h[0].request.redirectedBy.None?
            && forall i :: 0 < i < |h| ==> h[i].request.redirectedBy == Some(h[i - 1])
  {
    if response.request.redirectedBy.Some? {
      HistoryIsAChain(response.request.redirectedBy.value);
    }
  }
}
