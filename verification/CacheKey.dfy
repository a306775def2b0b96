/**
 Cache keys (groove/proxy/cache_key.go): the query parameters are flattened, sorted with Less
 and joined. Less is not lexicographic; when it orders, and when the sorted query depends on
 nothing but the parameters, is settled here. CacheKeyStrings.dfy is about the joined key.
 */
module CacheKey {
  import opened Prelude
  import opened Archives

  datatype FlatQuery = FlatQuery(key: string, value: string)

  // Go's string order, over the bytes of a string.
  predicate StringLess(a: string, b: string) {
    if b == [] then false
    else if a == [] then true
    else a[0] < b[0] || (a[0] == b[0] && StringLess(a[1..], b[1..]))
  }

  // Less as written: both key tests ask the same question.
  predicate Less(p: FlatQuery, q: FlatQuery) {
    if StringLess(p.key, q.key) then true
    else if StringLess(p.key, q.key) then false
    else StringLess(p.value, q.value)
  }

  // Ordered one way by key and the other way by value.
  predicate Opposed(p: FlatQuery, q: FlatQuery) {
    StringLess(p.key, q.key) && StringLess(q.value, p.value)
  }

  ghost predicate NoneOpposed(s: seq<FlatQuery>) {
    forall p, q :: p in s && q in s ==> !Opposed(p, q)
  }

  lemma {:induction false} StringOrder(a: string, b: string)
    ensures !(StringLess(a, b) && StringLess(b, a))
    ensures StringLess(a, b) || StringLess(b, a) <==> a != b
  {
    if a != [] && b != [] {
      StringOrder(a[1..], b[1..]);
      assert a == [a[0]] + a[1..] && b == [b[0]] + b[1..];
    }
  }

  lemma {:induction false} StringTransitive(a: string, b: string, c: string)
    requires StringLess(a, b) && StringLess(b, c)
    ensures StringLess(a, c)
  {
    if a != [] {
      if a[0] == b[0] == c[0] {
        StringTransitive(a[1..], b[1..], c[1..]);
      }
    }
  }

  ghost predicate StrictTotalOrder(s: seq<FlatQuery>) {
    && (forall p, q :: p in s && q in s ==> !(Less(p, q) && Less(q, p)))
    && (forall p, q :: p in s && q in s && p != q ==> Less(p, q) || Less(q, p))
    && (forall p, q, r :: p in s && q in s && r in s && Less(p, q) && Less(q, r) ==> Less(p, r))
  }

  lemma LessOnUnopposed(p: FlatQuery, q: FlatQuery)
    requires !Opposed(p, q) && !Opposed(q, p)
    ensures !(Less(p, q) && Less(q, p))
    ensures p != q ==> Less(p, q) || Less(q, p)
  {
    StringOrder(p.key, q.key);
    StringOrder(p.value, q.value);
  }

  lemma LessTransitive(p: FlatQuery, q: FlatQuery, r: FlatQuery)
    requires !Opposed(p, q) && !Opposed(q, p) && !Opposed(q, r) && !Opposed(r, q) && !Opposed(p, r) && !Opposed(r, p)
    requires Less(p, q) && Less(q, r)
    ensures Less(p, r)
  {
    StringOrder(p.key, q.key);
    StringOrder(p.value, q.value);
    StringOrder(q.key, r.key);
    StringOrder(q.value, r.value);
    if StringLess(p.key, q.key) && StringLess(q.key, r.key) {
      StringTransitive(p.key, q.key, r.key);
    }
    if StringLess(p.value, q.value) && StringLess(q.value, r.value) {
      StringTransitive(p.value, q.value, r.value);
    }
  }

  /** Less is a strict total order on the distinct pairs of a query if and only if no two of
      them are oppositely ordered by key and by value. */
  lemma LessOrdersUnopposed(s: seq<FlatQuery>)
    ensures StrictTotalOrder(s) <==> NoneOpposed(s)
  {
    if NoneOpposed(s) {
      forall p, q | p in s && q in s
        ensures !(Less(p, q) && Less(q, p)) && (p != q ==> Less(p, q) || Less(q, p))
      {
        LessOnUnopposed(p, q);
      }
      forall p, q, r | p in s && q in s && r in s && Less(p, q) && Less(q, r)
        ensures Less(p, r)
      {
        LessTransitive(p, q, r);
      }
    }
    if !NoneOpposed(s) {
      var p, q :| p in s && q in s && Opposed(p, q);
      StringOrder(p.key, q.key);
      assert Less(p, q) && Less(q, p);
    }
  }

  // --- Sorting ---

  // What any sort promises of its result: a permutation no neighbours of which are inverted.
  ghost predicate SortResult(input: seq<FlatQuery>, output: seq<FlatQuery>) {
    && multiset(output) == multiset(input)
    && NoInversion(output)
  }

  lemma SameMembers(a: seq<FlatQuery>, b: seq<FlatQuery>)
    requires multiset(a) == multiset(b)
    ensures forall p :: p in a <==> p in b
  {
    forall p: FlatQuery
      ensures p in a <==> p in multiset(a)
      ensures p in b <==> p in multiset(b)
    {
    }
  }

  lemma {:induction false} HeadIsLeast(s: seq<FlatQuery>, i: nat)
    requires NoneOpposed(s) && i < |s|
    requires forall j :: 0 < j < |s| ==> !Less(s[j], s[j - 1])
    ensures s[0] == s[i] || Less(s[0], s[i])
  {
    if i > 0 {
      HeadIsLeast(s, i - 1);
      LessOnUnopposed(s[i - 1], s[i]);
      if s[0] != s[i - 1] && s[i - 1] != s[i] {
        LessTransitive(s[0], s[i - 1], s[i]);
      }
    }
  }

  ghost predicate NoInversion(s: seq<FlatQuery>) {
    forall j :: 0 < j < |s| ==> !Less(s[j], s[j - 1])
  }

  lemma HeadsAgree(a: seq<FlatQuery>, b: seq<FlatQuery>)
    requires NoneOpposed(a) && NoneOpposed(b) && multiset(a) == multiset(b) && NoInversion(a) && NoInversion(b)
    requires a != [] && b != []
    ensures a[0] == b[0]
  {
    SameMembers(a, b);
    assert b[0] in a && a[0] in b;
    var i :| 0 <= i < |a| && a[i] == b[0];
    var j :| 0 <= j < |b| && b[j] == a[0];
    HeadIsLeast(a, i);
    HeadIsLeast(b, j);
    LessOnUnopposed(a[0], b[0]);
  }

  lemma TailFacts(s: seq<FlatQuery>)
    requires s != []
    ensures multiset(s[1..]) == multiset(s) - multiset{s[0]}
    ensures NoneOpposed(s) ==> NoneOpposed(s[1..])
    ensures NoInversion(s) ==> NoInversion(s[1..])
  {
    assert s == [s[0]] + s[1..];
    assert forall p :: p in s[1..] ==> p in s;
    forall j | 0 < j < |s[1..]|
      ensures s[1..][j] == s[j + 1] && s[1..][j - 1] == s[j]
    {
    }
    if NoInversion(s) {
      forall j | 0 < j < |s[1..]|
        ensures !Less(s[1..][j], s[1..][j - 1])
      {
        assert !Less(s[j + 1], s[j]);
      }
    }
  }

  /** With no opposed pairs there is only one sorted arrangement. */
  lemma {:induction false} SortIsUnique(a: seq<FlatQuery>, b: seq<FlatQuery>)
    requires NoneOpposed(a) && multiset(a) == multiset(b) && NoInversion(a) && NoInversion(b)
    ensures a == b
    decreases |a|
  {
    assert |multiset(a)| == |a| && |multiset(b)| == |b|;
    if a != [] {
      SameMembers(a, b);
      HeadsAgree(a, b);
      TailFacts(a);
      TailFacts(b);
      SortIsUnique(a[1..], b[1..]);
      assert a == [a[0]] + a[1..] && b == [b[0]] + b[1..];
    }
  }

  // --- Flattening ---

  function Block(key: string, values: seq<string>): seq<FlatQuery> {
    if values == [] then [] else [FlatQuery(key, values[0])] + Block(key, values[1..])
  }

  function KeyBlock(values: Headers, key: string): seq<FlatQuery> {
    if key in values then Block(key, values[key]) else []
  }

  // newQueryArray, with the map iterated in the given order.
  function Flatten(values: Headers, order: seq<string>): seq<FlatQuery> {
    if order == [] then [] else
      KeyBlock(values, order[0]) + Flatten(values, order[1..])
  }

  // The inner loop.
  method AppendValues(before: seq<FlatQuery>, key: string, keyValues: seq<string>) returns (queryArray: seq<FlatQuery>)
    ensures queryArray == before + Block(key, keyValues)
  {
    queryArray := before;
    for j := 0 to |keyValues|
      invariant queryArray + Block(key, keyValues[j..]) == before + Block(key, keyValues)
    {
      assert keyValues[j..][1..] == keyValues[j + 1..];
      Assoc(queryArray, [FlatQuery(key, keyValues[j])], Block(key, keyValues[j + 1..]));
      queryArray := queryArray + [FlatQuery(key, keyValues[j])];
    }
  }

  method NewQueryArray(values: Headers, order: seq<string>) returns (queryArray: seq<FlatQuery>)
    requires IterationOrder(order, values)
    ensures queryArray == Flatten(values, order)
  {
    queryArray := [];
    for i := 0 to |order|
      invariant queryArray + Flatten(values, order[i..]) == Flatten(values, order)
    {
      FlattenNext(values, order, i, queryArray);
      queryArray := AppendValues(queryArray, order[i], values[order[i]]);
    }
  }

  lemma FlattenNext(values: Headers, order: seq<string>, i: nat, done: seq<FlatQuery>)
    requires i < |order| && order[i] in values
    ensures done + Flatten(values, order[i..]) == (done + Block(order[i], values[order[i]]))
        + Flatten(values, order[i + 1..])
  {
    assert order[i..][1..] == order[i + 1..];
    Assoc(done, Block(order[i], values[order[i]]), Flatten(values, order[i + 1..]));
  }

  lemma SomeMember(s: seq<string>)
    requires s != []
    ensures exists x :: x in s
  {
    assert s[0] in s;
  }

  // A key's block has its values in their order.
  lemma {:induction false} BlockAt(key: string, values: seq<string>, i: nat)
    ensures |Block(key, values)| == |values|
    ensures i < |values| ==> Block(key, values)[i] == FlatQuery(key, values[i])
  {
    if values != [] {
      BlockAt(key, values[1..], if i == 0 then 0 else i - 1);
    }
  }

  lemma {:induction false} BlockCount(key: string, values: seq<string>, q: FlatQuery)
    ensures multiset(Block(key, values))[q] == if q.key == key then multiset(values)[q.value] else 0
  {
    if values != [] {
      BlockCount(key, values[1..], q);
      assert values == [values[0]] + values[1..];
    }
  }

  lemma FlattenFirst(values: Headers, order: seq<string>)
    requires order != []
    ensures multiset(Flatten(values, order)) == multiset(KeyBlock(values, order[0]))
        + multiset(Flatten(values, order[1..]))
  {
  }

  lemma FlattenCons(values: Headers, order: seq<string>, rest: seq<string>)
    requires order != [] && order[1..] == rest
    ensures multiset(Flatten(values, order)) == multiset(KeyBlock(values, order[0])) + multiset(Flatten(values, rest))
  {
    FlattenFirst(values, order);
  }

  lemma SumSwap(a: multiset<FlatQuery>, b: multiset<FlatQuery>, c: multiset<FlatQuery>)
    ensures a + (b + c) == b + (a + c)
  {
  }

  lemma {:induction false} FlattenDrop(values: Headers, order: seq<string>, j: nat)
    requires j < |order|
    ensures multiset(Flatten(values, order))
         == multiset(KeyBlock(values, order[j])) + multiset(Flatten(values, DropAt(order, j)))
  {
    var dropped := DropAt(order, j);
    if j == 0 {
      FlattenFirst(values, order);
      assert dropped == order[1..];
    } else {
      var rest := DropAt(order[1..], j - 1);
      assert dropped == [order[0]] + rest;
      FlattenDrop(values, order[1..], j - 1);
      FlattenCons(values, order, order[1..]);
      FlattenCons(values, dropped, rest);
      SumSwap(multiset(KeyBlock(values, order[0])), multiset(KeyBlock(values, order[j])),
          multiset(Flatten(values, rest)));
    }
  }

  // The same parameters, each key's values possibly in another order.
  ghost predicate SameParameters(a: Headers, b: Headers) {
    && a.Keys == b.Keys
    && forall k :: k in a ==> multiset(a[k]) == multiset(b[k])
  }

  lemma {:induction false} FlattenPermutes(a: Headers, b: Headers, order: seq<string>, order': seq<string>)
    requires SameParameters(a, b)
    requires forall i, j :: 0 <= i < j < |order| ==> order[i] != order[j]
    requires forall i, j :: 0 <= i < j < |order'| ==> order'[i] != order'[j]
    requires forall k :: k in order <==> k in order'
    ensures multiset(Flatten(a, order)) == multiset(Flatten(b, order'))
    decreases |order|
  {
    if order == [] {
      if order' != [] {
        SomeMember(order');
      }
    } else {
      var k := order[0];
      assert k in order';
      var j :| 0 <= j < |order'| && order'[j] == k;
      var rest := DropAt(order', j);
      FlattenDrop(b, order', j);
      forall x: string
        ensures x in order[1..] <==> x in rest
      {
        DropMembers(order', j, x);
        DropMembers(order, 0, x);
        assert DropAt(order, 0) == order[1..];
      }
      FlattenPermutes(a, b, order[1..], rest);
      BlockPermutes(a, b, k);
      FlattenFirst(a, order);
    }
  }

  lemma BlockPermutes(a: Headers, b: Headers, k: string)
    requires SameParameters(a, b)
    ensures multiset(KeyBlock(a, k)) == multiset(KeyBlock(b, k))
  {
    if k in a {
      forall q: FlatQuery
        ensures multiset(Block(k, a[k]))[q] == multiset(Block(k, b[k]))[q]
      {
        BlockCount(k, a[k], q);
        BlockCount(k, b[k], q);
      }
    }
  }

  lemma DropMembers(s: seq<string>, j: nat, x: string)
    requires j < |s| && forall i, k :: 0 <= i < k < |s| ==> s[i] != s[k]
    ensures x in DropAt(s, j) <==> x in s && x != s[j]
  {
    if x in s && x != s[j] {
      var i :| 0 <= i < |s| && s[i] == x;
      assert DropAt(s, j)[if i < j then i else i - 1] == x;
    }
  }

  // --- The key ---

  function PairText(query: FlatQuery): string {
    query.key + "=" + query.value + "&"
  }

  function Join(queries: seq<FlatQuery>): string {
    if queries == [] then "" else Join(queries[..|queries| - 1]) + PairText(queries[|queries| - 1])
  }

  // The joined text, one parameter at a time.
  lemma JoinAppend(queries: seq<FlatQuery>, key: string, value: string)
    ensures Join(queries + [FlatQuery(key, value)]) == Join(queries) + (key + "=" + value + "&")
  {
    assert (queries + [FlatQuery(key, value)])[..|queries|] == queries;
  }

  // What is encoded: method, host and path, sorted query.
  function KeyText(verb: string, urlBase: string, sorted: seq<FlatQuery>): string {
    verb + "-" + urlBase + "-" + Join(sorted)
  }

  // order is the iteration order of the query map, sort stands for sort.Sort, encode for the
  // base64 encoding (section 4 of RFC 4648).
  method GetCacheKey(verb: string, urlBase: string, query: Headers, order: seq<string>,
                     sort: seq<FlatQuery> -> seq<FlatQuery>, encode: string -> string)
    returns (key: string)
    requires IterationOrder(order, query)
    ensures key == encode(verb + "-" + urlBase + "-" + Join(sort(Flatten(query, order))))
  {
    var queryArray := NewQueryArray(query, order);
    var sorted := sort(queryArray);
    var str := verb + "-" + urlBase + "-";
    for i := 0 to |sorted|
      invariant str == verb + "-" + urlBase + "-" + Join(sorted[..i])
    {
      assert sorted[..i + 1][..i] == sorted[..i];
      Assoc(verb + "-" + urlBase + "-", Join(sorted[..i]), PairText(sorted[i]));
      str := str + (sorted[i].key + "=" + sorted[i].value + "&");
    }
    assert sorted[..|sorted|] == sorted;
    key := encode(str);
  }

  /** With no opposed pairs, the sorted query, and so the cache key, is the same for every order
      of the parameters, every iteration order of the map and every sorting algorithm. */
  lemma SortedQueryIsOrderIndependent(a: Headers, order: seq<string>, sorted: seq<FlatQuery>,
                                      b: Headers, order': seq<string>, sorted': seq<FlatQuery>)
    requires SameParameters(a, b) && IterationOrder(order, a) && IterationOrder(order', b)
    requires SortResult(Flatten(a, order), sorted) && SortResult(Flatten(b, order'), sorted')
    requires NoneOpposed(Flatten(a, order))
    ensures sorted == sorted'
  {
    assert forall k :: k in order <==> k in order';
    FlattenPermutes(a, b, order, order');
    SameMembers(sorted, Flatten(a, order));
    SortIsUnique(sorted, sorted');
  }
}
