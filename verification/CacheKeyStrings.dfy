/**
 What a cache key tells of its request. Keys and values are joined without escaping, so this
 depends on where the separators '=', '&' and '-' occur.
 */
module CacheKeyStrings {
  import opened Prelude
  import opened Archives
  import opened CacheKey
  import opened CacheKeySort

  // A pair whose key and value end where they seem to.
  predicate Clean(q: FlatQuery) {
    '=' !in q.key && '&' !in q.value
  }

  ghost predicate AllClean(queries: seq<FlatQuery>) {
    forall q :: q in queries ==> Clean(q)
  }

  lemma {:induction false} JoinFirst(queries: seq<FlatQuery>)
    requires queries != []
    ensures Join(queries) == PairText(queries[0]) + Join(queries[1..])
  {
    var front, last := queries[..|queries| - 1], queries[|queries| - 1];
    if |queries| == 1 {
      JoinOne(queries[0]);
    } else {
      JoinFirst(front);
      assert front[0] == queries[0];
      JoinLast(queries[1..], front[1..], last);
      Assoc(PairText(queries[0]), Join(front[1..]), PairText(last));
    }
  }

  lemma JoinOne(query: FlatQuery)
    ensures Join([query]) == PairText(query) + Join([])
  {
    assert [query][..0] == [];
  }

  lemma JoinLast(queries: seq<FlatQuery>, front: seq<FlatQuery>, last: FlatQuery)
    requires queries == front + [last]
    ensures Join(queries) == Join(front) + PairText(last)
  {
    assert queries[..|queries| - 1] == front;
  }

  // A text is cut in one way only at the first occurrence of a character.
  lemma {:induction false} FirstCut(x: string, y: string, c: char, r: string, s: string)
    requires c !in x && c !in y && x + ([c] + r) == y + ([c] + s)
    ensures x == y && r == s
  {
    var whole := x + ([c] + r);
    assert x == [] ==> whole[0] == c && whole[1..] == r;
    assert y == [] ==> whole[0] == c && whole[1..] == s;
    assert x != [] ==> whole[0] == x[0] && whole[1..] == x[1..] + ([c] + r) && x == [x[0]] + x[1..];
    assert y != [] ==> whole[0] == y[0] && whole[1..] == y[1..] + ([c] + s) && y == [y[0]] + y[1..];
    if x != [] && y != [] {
      FirstCut(x[1..], y[1..], c, r, s);
    }
  }

  lemma PairCut(q: FlatQuery, rest: string)
    ensures PairText(q) + rest == q.key + (['='] + (q.value + (['&'] + rest)))
  {
  }

  // No parameter's text begins with another's: there is one way to read the joined text.
  ghost predicate PrefixFree(queries: seq<FlatQuery>) {
    forall p, q :: p in queries && q in queries && PairText(p) <= PairText(q) ==> p == q
  }

  // In particular, parameters without stray separators.
  lemma CleanIsPrefixFree(queries: seq<FlatQuery>)
    requires AllClean(queries)
    ensures PrefixFree(queries)
  {
    forall p, q | p in queries && q in queries && PairText(p) <= PairText(q)
      ensures p == q
    {
      var rest := PairText(q)[|PairText(p)|..];
      assert PairText(p) + rest == PairText(q) + "";
      PairCut(p, rest);
      PairCut(q, "");
      FirstCut(p.key, q.key, '=', p.value + (['&'] + rest), q.value + (['&'] + ""));
      FirstCut(p.value, q.value, '&', rest, "");
    }
  }

  // Two texts that begin one string: one begins the other.
  lemma BothBegin(x: string, y: string, r: string, s: string)
    requires x + r == y + s
    ensures x <= y || y <= x
    ensures x == y ==> r == s
  {
    var whole := x + r;
    assert whole[..|x|] == x && whole[..|y|] == y && whole[|x|..] == r && (y + s)[|y|..] == s;
    if |x| <= |y| {
      assert y[..|x|] == whole[..|y|][..|x|] == whole[..|x|];
    } else {
      assert x[..|y|] == whole[..|x|][..|y|] == whole[..|y|];
    }
  }

  /** Parameters none of whose texts begins with another's can be read back from the joined text. */
  lemma {:induction false} JoinIsInjective(a: seq<FlatQuery>, b: seq<FlatQuery>)
    requires PrefixFree(a + b) && Join(a) == Join(b)
    ensures a == b
  {
    if a != [] {
      JoinFirst(a);
    }
    if b != [] {
      JoinFirst(b);
    }
    if a != [] && b != [] {
      assert a[0] in a + b && b[0] in a + b;
      BothBegin(PairText(a[0]), PairText(b[0]), Join(a[1..]), Join(b[1..]));
      TailsStayPrefixFree(a, b);
      JoinIsInjective(a[1..], b[1..]);
      assert a == [a[0]] + a[1..] && b == [b[0]] + b[1..];
    }
  }

  lemma TailsStayPrefixFree(a: seq<FlatQuery>, b: seq<FlatQuery>)
    requires PrefixFree(a + b) && a != [] && b != []
    ensures PrefixFree(a[1..] + b[1..])
  {
    assert forall p :: p in a[1..] + b[1..] ==> p in a + b;
  }

  // A method, host and path without the separator that follows them.
  predicate DashFree(verb: string, urlBase: string) {
    '-' !in verb && '-' !in urlBase
  }

  // Or a method without one, a host and path without '=', and keys with neither.
  ghost predicate DashedPath(verb: string, urlBase: string, queries: seq<FlatQuery>) {
    '-' !in verb && '=' !in urlBase && forall q :: q in queries ==> '-' !in q.key && '=' !in q.key
  }

  lemma KeyTextCut(verb: string, urlBase: string, a: seq<FlatQuery>)
    ensures KeyText(verb, urlBase, a) == verb + (['-'] + (urlBase + (['-'] + Join(a))))
  {
  }

  // A text is cut in one way only at the last occurrence of a character.
  lemma LastCut(x: string, y: string, c: char, r: string, s: string)
    requires c !in r && c !in s && x + ([c] + r) == y + ([c] + s)
    ensures x == y && r == s
  {
    var whole := x + ([c] + r);
    assert whole[|x|] == c && whole[|y|] == c;
    assert whole[|x| + 1..] == r && whole[|y| + 1..] == s;
    assert whole[..|x|] == x && whole[..|y|] == y;
  }

  // What stands between method and parameters, up to the first '='.
  lemma DashedCut(urlBase: string, a: seq<FlatQuery>)
    requires a != []
    ensures urlBase + (['-'] + Join(a)) == (urlBase + (['-'] + a[0].key))
        + (['='] + (a[0].value + (['&'] + Join(a[1..]))))
  {
    JoinFirst(a);
    PairCut(a[0], Join(a[1..]));
  }

  lemma JoinEndsInAmpersand(a: seq<FlatQuery>)
    ensures a == [] <==> Join(a) == ""
    ensures a != [] ==> Join(a)[|Join(a)| - 1] == '&' && '=' in Join(a)
  {
    if a != [] {
      JoinFirst(a);
      PairCut(a[0], Join(a[1..]));
      assert Join(a)[|a[0].key|] == '=';
      var front, last := a[..|a| - 1], a[|a| - 1];
      assert Join(a) == Join(front) + PairText(last);
    }
  }

  lemma NoEqualsInBase(urlBase: string)
    requires '=' !in urlBase
    ensures '=' !in urlBase + (['-'] + Join([]))
  {
  }

  lemma DashedBases(urlBase: string, a: seq<FlatQuery>, urlBase': string, b: seq<FlatQuery>)
    requires urlBase + (['-'] + Join(a)) == urlBase' + (['-'] + Join(b))
    requires DashedPath("", urlBase, a) && DashedPath("", urlBase', b)
    ensures urlBase == urlBase' && Join(a) == Join(b)
  {
    var whole := urlBase + (['-'] + Join(a));
    JoinEndsInAmpersand(a);
    JoinEndsInAmpersand(b);
    assert Join(a) != "" ==> '=' in whole;
    assert Join(b) != "" ==> '=' in urlBase' + (['-'] + Join(b));
    if a == [] || b == [] {
      NoEqualsInBase(if a == [] then urlBase else urlBase');
      LastCut(urlBase, urlBase', '-', "", "");
    } else {
      DashedBasesWithParameters(urlBase, a, urlBase', b);
    }
  }

  lemma DashedBasesWithParameters(urlBase: string, a: seq<FlatQuery>, urlBase': string, b: seq<FlatQuery>)
    requires a != [] && b != [] && urlBase + (['-'] + Join(a)) == urlBase' + (['-'] + Join(b))
    requires DashedPath("", urlBase, a) && DashedPath("", urlBase', b)
    ensures urlBase == urlBase' && Join(a) == Join(b)
  {
    DashedCut(urlBase, a);
    DashedCut(urlBase', b);
    assert a[0] in a && b[0] in b;
    KeysHideNothing(urlBase, a[0].key);
    KeysHideNothing(urlBase', b[0].key);
    FirstCut(urlBase + (['-'] + a[0].key), urlBase' + (['-'] + b[0].key), '=',
             a[0].value + (['&'] + Join(a[1..])), b[0].value + (['&'] + Join(b[1..])));
    LastCut(urlBase, urlBase', '-', a[0].key, b[0].key);
    Cancel(urlBase, Join(a), Join(b));
  }

  lemma KeysHideNothing(urlBase: string, key: string)
    requires '=' !in urlBase && '=' !in key
    ensures '=' !in urlBase + (['-'] + key)
  {
  }

  lemma Cancel(x: string, y: string, z: string)
    requires x + (['-'] + y) == x + (['-'] + z)
    ensures y == z
  {
    assert (x + (['-'] + y))[|x| + 1..] == y && (x + (['-'] + z))[|x| + 1..] == z;
  }

  lemma KeyTextIsInjective(verb: string, urlBase: string, a: seq<FlatQuery>,
                           verb': string, urlBase': string, b: seq<FlatQuery>)
    requires (DashFree(verb, urlBase) && DashFree(verb', urlBase'))
          || (DashedPath(verb, urlBase, a) && DashedPath(verb', urlBase', b))
    requires PrefixFree(a + b) && KeyText(verb, urlBase, a) == KeyText(verb', urlBase', b)
    ensures verb == verb' && urlBase == urlBase' && a == b
  {
    KeyTextCut(verb, urlBase, a);
    KeyTextCut(verb', urlBase', b);
    FirstCut(verb, verb', '-', urlBase + (['-'] + Join(a)), urlBase' + (['-'] + Join(b)));
    if DashFree(verb, urlBase) && DashFree(verb', urlBase') {
      FirstCut(urlBase, urlBase', '-', Join(a), Join(b));
    } else {
      DashedBases(urlBase, a, urlBase', b);
    }
    JoinIsInjective(a, b);
  }

  // For one method, host and path the text differs just as the joined query does.
  lemma SameBase(verb: string, urlBase: string, a: seq<FlatQuery>, b: seq<FlatQuery>)
    ensures KeyText(verb, urlBase, a) == KeyText(verb, urlBase, b) <==> Join(a) == Join(b)
  {
    var prefix := verb + "-" + urlBase + "-";
    assert (prefix + Join(a))[|prefix|..] == Join(a) && (prefix + Join(b))[|prefix|..] == Join(b);
  }

  ghost predicate Injective(encode: string -> string) {
    forall s, t :: encode(s) == encode(t) ==> s == t
  }

  ghost predicate Permutes(sort: seq<FlatQuery> -> seq<FlatQuery>) {
    forall s :: multiset(sort(s)) == multiset(s)
  }

  // What sort.Sort promises: a permutation, and no inversion where Less orders the pairs.
  ghost predicate Sorts(sort: seq<FlatQuery> -> seq<FlatQuery>) {
    Permutes(sort) && forall s :: NoneOpposed(s) ==> NoInversion(sort(s))
  }

  // Insertion sort keeps the promise.
  lemma InsertionSortedSorts()
    ensures Sorts(InsertionSorted)
  {
    forall s: seq<FlatQuery>
      ensures multiset(InsertionSorted(s)) == multiset(s) && (NoneOpposed(s) ==> NoInversion(InsertionSorted(s)))
    {
      InsertAllPermutes([], s);
      assert multiset([]) + multiset(s) == multiset(s);
      if NoneOpposed(s) {
        InsertionSortSorts(s);
      }
    }
  }

  predicate SameRequest(verb: string, urlBase: string, a: seq<FlatQuery>, verb': string, urlBase': string,
                        b: seq<FlatQuery>)
  {
    verb == verb' && urlBase == urlBase' && multiset(a) == multiset(b)
  }

  lemma PermutedPremises(verb: string, urlBase: string, s: seq<FlatQuery>, a: seq<FlatQuery>, s': seq<FlatQuery>,
                         b: seq<FlatQuery>)
    requires multiset(s) == multiset(a) && multiset(s') == multiset(b)
    ensures PrefixFree(a + b) ==> PrefixFree(s + s')
    ensures DashedPath(verb, urlBase, a) ==> DashedPath(verb, urlBase, s)
  {
    SameMembers(s, a);
    SameMembers(s', b);
    assert forall q :: q in s + s' ==> q in a + b;
  }

  /** Requests with one cache key are one request, whatever the iteration order of the maps and
      however the sort permutes, if no parameter's text begins with another's, and if either
      method, host and path have no '-' in them, or only host and path do and the separators '='
      and '-' stay out of path and parameter keys. */
  lemma KeyIdentifiesRequest(verb: string, urlBase: string, a: seq<FlatQuery>, verb': string, urlBase': string,
                             b: seq<FlatQuery>, sort: seq<FlatQuery> -> seq<FlatQuery>, encode: string -> string)
    requires (DashFree(verb, urlBase) && DashFree(verb', urlBase'))
          || (DashedPath(verb, urlBase, a) && DashedPath(verb', urlBase', b))
    requires PrefixFree(a + b) && Permutes(sort) && Injective(encode)
    requires encode(KeyText(verb, urlBase, sort(a))) == encode(KeyText(verb', urlBase', sort(b)))
    ensures SameRequest(verb, urlBase, a, verb', urlBase', b)
  {
    assert multiset(sort(a)) == multiset(a) && multiset(sort(b)) == multiset(b);
    PermutedPremises(verb, urlBase, sort(a), a, sort(b), b);
    PermutedPremises(verb', urlBase', sort(b), b, sort(b), b);
    KeyTextIsInjective(verb, urlBase, sort(a), verb', urlBase', sort(b));
  }

  /** Conversely, one request with unopposed parameters has one cache key, whatever the order of
      the parameters, the iteration order of the maps and the sorting algorithm. */
  lemma RequestDeterminesKey(verb: string, urlBase: string, a: seq<FlatQuery>, b: seq<FlatQuery>,
                             sort: seq<FlatQuery> -> seq<FlatQuery>, encode: string -> string)
    requires Sorts(sort) && NoneOpposed(a) && multiset(a) == multiset(b)
    ensures encode(KeyText(verb, urlBase, sort(a))) == encode(KeyText(verb, urlBase, sort(b)))
  {
    assert multiset(sort(a)) == multiset(a) && multiset(sort(b)) == multiset(b);
    SameMembers(sort(a), a);
    SameMembers(a, b);
    SortIsUnique(sort(a), sort(b));
  }

  /** If no parameter's text begins with another's, the cache key, made with insertion sort, is the
      same for every iteration order of the parameter map if and only if no two parameters are
      oppositely ordered by key and by value. */
  lemma KeyIsOrderIndependentIff(verb: string, urlBase: string, values: Headers, order: seq<string>,
                                 encode: string -> string)
    requires IterationOrder(order, values) && PrefixFree(Flatten(values, order)) && Injective(encode)
    ensures (forall o :: IterationOrder(o, values) ==>
              encode(KeyText(verb, urlBase, InsertionSorted(Flatten(values, o))))
              == encode(KeyText(verb, urlBase, InsertionSorted(Flatten(values, order)))))
       <==> NoneOpposed(Flatten(values, order))
  {
    var sorted := InsertionSorted(Flatten(values, order));
    OrderIndependentIffUnopposed(values, order);
    forall o | IterationOrder(o, values)
      ensures encode(KeyText(verb, urlBase, InsertionSorted(Flatten(values, o))))
          == encode(KeyText(verb, urlBase, sorted))
         <==> InsertionSorted(Flatten(values, o)) == sorted
    {
      SameKeySameSorted(verb, urlBase, values, order, o, encode);
    }
  }

  lemma SameKeySameSorted(verb: string, urlBase: string, values: Headers, order: seq<string>, o: seq<string>,
                          encode: string -> string)
    requires IterationOrder(order, values) && IterationOrder(o, values)
    requires PrefixFree(Flatten(values, order)) && Injective(encode)
    ensures encode(KeyText(verb, urlBase, InsertionSorted(Flatten(values, o))))
         == encode(KeyText(verb, urlBase, InsertionSorted(Flatten(values, order))))
       <==> InsertionSorted(Flatten(values, o)) == InsertionSorted(Flatten(values, order))
  {
    var s, sorted := InsertionSorted(Flatten(values, o)), InsertionSorted(Flatten(values, order));
    SameBase(verb, urlBase, s, sorted);
    if Join(s) == Join(sorted) {
      ArrangementsArePrefixFree(values, order, o);
      JoinIsInjective(s, sorted);
    }
  }

  lemma ArrangementsArePrefixFree(values: Headers, order: seq<string>, o: seq<string>)
    requires IterationOrder(order, values) && IterationOrder(o, values) && PrefixFree(Flatten(values, order))
    ensures PrefixFree(InsertionSorted(Flatten(values, o)) + InsertionSorted(Flatten(values, order)))
  {
    FlattenMembers(values, order);
    FlattenMembers(values, o);
    InsertAllMembers([], Flatten(values, order));
    InsertAllMembers([], Flatten(values, o));
    assert forall q :: q in InsertionSorted(Flatten(values, o)) + InsertionSorted(Flatten(values, order)) ==>
      q in Flatten(values, order);
  }

  /** A query of two parameters, clean or not, has one key for both orders if and only if they
      are not opposed or their texts commute. */
  lemma TwoParameterKeys(p: FlatQuery, q: FlatQuery)
    ensures Join(InsertionSorted([p, q])) == Join(InsertionSorted([q, p]))
       <==> (!Opposed(p, q) && !Opposed(q, p)) || PairText(p) + PairText(q) == PairText(q) + PairText(p)
  {
    SortTwo(p, q);
    SortTwo(q, p);
    JoinTwo(p, q);
    JoinTwo(q, p);
    StringOrder(p.key, q.key);
    StringOrder(p.value, q.value);
  }

  lemma {:induction false} PrefixIsLess(a: string, b: string)
    requires a < b
    ensures StringLess(a, b)
  {
    if a != [] {
      PrefixIsLess(a[1..], b[1..]);
    }
  }

  /** Separators in keys and values can hide the order: these two parameters are opposed and sort
      differently in the two orders, yet join to one text. */
  lemma SeparatorsHideOrder() returns (p: FlatQuery, q: FlatQuery)
    ensures p == FlatQuery("a", "1&a=1") && q == FlatQuery("a=1&a=1&a", "1") && Opposed(p, q)
    ensures InsertionSorted([p, q]) != InsertionSorted([q, p])
    ensures Join(InsertionSorted([p, q])) == Join(InsertionSorted([q, p]))
  {
    p, q := CommutingPairs();
    OpposedSortApart(p, q);
    TwoParameterKeys(p, q);
  }

  lemma OpposedSortApart(p: FlatQuery, q: FlatQuery)
    requires Opposed(p, q)
    ensures InsertionSorted([p, q]) != InsertionSorted([q, p])
  {
    SortTwo(p, q);
    SortTwo(q, p);
    StringOrder(p.key, q.key);
    assert [p, q][0] != [q, p][0];
  }

  lemma CommutingPairs() returns (p: FlatQuery, q: FlatQuery)
    ensures p == FlatQuery("a", "1&a=1") && q == FlatQuery("a=1&a=1&a", "1") && Opposed(p, q)
    ensures PairText(p) + PairText(q) == PairText(q) + PairText(p)
  {
    p, q := FlatQuery("a", "1&a=1"), FlatQuery("a=1&a=1&a", "1");
    PrefixIsLess(p.key, q.key);
    PrefixIsLess(q.value, p.value);
    assert PairText(p) == "a=1&a=1&" && PairText(q) == "a=1&a=1&a=1&";
  }

  /** They can also make different queries share a key: "?a=1%26b%3D2" and "?a=1&b=2". */
  lemma SeparatorsShareKeys(verb: string, urlBase: string)
    ensures KeyText(verb, urlBase, [FlatQuery("a", "1&b=2")])
        == KeyText(verb, urlBase, [FlatQuery("a", "1"), FlatQuery("b", "2")])
  {
    var one, a, b := FlatQuery("a", "1&b=2"), FlatQuery("a", "1"), FlatQuery("b", "2");
    JoinTwo(a, b);
    JoinFirst([one]);
    assert [one][1..] == [] && Join([]) == "";
    assert PairText(one) + "" == "a=1&b=2&" == PairText(a) + PairText(b);
  }
}
