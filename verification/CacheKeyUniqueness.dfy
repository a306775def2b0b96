/**
 Which requests share their cache key with no other request. Joining does not escape the
 separators, so these are few: at most one parameter, and none of the separators where another
 request could have put its cut.
 */
module CacheKeyUniqueness {
  import opened Prelude
  import opened Archives
  import opened CacheKey
  import opened CacheKeySort
  import opened CacheKeyStrings

  ghost predicate AtMostOne(text: string, c: char) {
    forall i, j :: 0 <= i < j < |text| && text[i] == c ==> text[j] != c
  }

  // --- Joined queries ---

  // Any text that ends in '&' reads as one parameter, cut at any '='.
  lemma CutAt(text: string, i: nat) returns (q: FlatQuery)
    requires text != "" && text[|text| - 1] == '&' && i < |text| && text[i] == '='
    ensures Join([q]) == text && |q.key| == i
  {
    q := FlatQuery(text[..i], text[i + 1..|text| - 1]);
    assert text[..i] + "=" == text[..i + 1];
    assert text[..i + 1] + text[i + 1..|text| - 1] == text[..|text| - 1];
    assert text[..|text| - 1] + "&" == text;
    assert PairText(q) == text;
    JoinFirst([q]);
  }

  // A text with two '=' has a second reading, as one parameter.
  lemma OtherReading(a: seq<FlatQuery>) returns (q: FlatQuery)
    requires !AtMostOne(Join(a), '=')
    ensures Join([q]) == Join(a) && [q] != a
  {
    var text := Join(a);
    JoinEndsInAmpersand(a);
    var i, j :| 0 <= i < j < |text| && text[i] == '=' && text[j] == '=';
    q := CutAt(text, i);
    if [q] == a {
      q := CutAt(text, j);
    }
  }

  lemma TwoPieces(x: string, y: string, z: string, c: char)
    requires c in x && c in y
    ensures !AtMostOne(x + (y + z), c)
  {
    var i :| 0 <= i < |x| && x[i] == c;
    var j :| 0 <= j < |y| && y[j] == c;
    var text := x + (y + z);
    assert text[i] == c;
    assert text[|x| + j] == (y + z)[j] == c;
  }

  lemma EqualsInPair(q: FlatQuery)
    ensures '=' in PairText(q)
  {
    assert PairText(q)[|q.key|] == '=';
  }

  // Every parameter brings an '='.
  lemma OneEqualsOneParameter(a: seq<FlatQuery>)
    requires AtMostOne(Join(a), '=')
    ensures |a| <= 1
  {
    if |a| > 1 {
      JoinFirst(a);
      JoinFirst(a[1..]);
      EqualsInPair(a[0]);
      EqualsInPair(a[1]);
      TwoPieces(PairText(a[0]), PairText(a[1]), Join(a[1..][1..]), '=');
    }
  }

  lemma JoinSingle(q: FlatQuery)
    ensures Join([q]) == PairText(q)
  {
    JoinFirst([q]);
    assert PairText(q) + "" == PairText(q);
  }

  lemma OneEqualsInPair(q: FlatQuery)
    ensures AtMostOne(PairText(q), '=') <==> '=' !in q.key && '=' !in q.value
  {
    var text := PairText(q);
    PairCut(q, "");
    assert text + "" == text;
    if '=' in q.key {
      TwoPieces(q.key, "=", q.value + "&", '=');
      assert text == q.key + ("=" + (q.value + "&"));
    } else if '=' in q.value {
      TwoPieces(q.key + "=", q.value, "&", '=');
      assert text == (q.key + "=") + (q.value + "&");
    } else {
      assert forall i :: 0 <= i < |q.key| ==> text[i] == q.key[i];
      assert forall i :: 0 <= i < |q.value| ==> text[|q.key| + 1 + i] == q.value[i];
      assert text[|text| - 1] == '&' && |text| == |q.key| + |q.value| + 2;
    }
  }

  // Two parameters that join to one text with one '=' are the same.
  lemma OneReading(p: FlatQuery, q: FlatQuery)
    requires Join([p]) == Join([q]) && AtMostOne(Join([p]), '=')
    ensures p == q
  {
    JoinSingle(p);
    JoinSingle(q);
    OneEqualsInPair(p);
    OneEqualsInPair(q);
    PairCut(p, "");
    PairCut(q, "");
    FirstCut(p.key, q.key, '=', p.value + (['&'] + ""), q.value + (['&'] + ""));
    assert (p.value + (['&'] + ""))[..|p.value|] == p.value && (q.value + (['&'] + ""))[..|q.value|] == q.value;
  }

  /** A query shares its joined text with no other query if and only if there is at most one '=' in
      the text; so every query of two parameters or more shares it with another one. */
  lemma JoinIsUniqueIff(a: seq<FlatQuery>)
    ensures (forall b :: Join(b) == Join(a) ==> b == a) <==> AtMostOne(Join(a), '=')
  {
    if AtMostOne(Join(a), '=') {
      forall b | Join(b) == Join(a)
        ensures b == a
      {
        UniqueReading(a, b);
      }
    } else {
      var q := OtherReading(a);
    }
  }

  lemma UniqueReading(a: seq<FlatQuery>, b: seq<FlatQuery>)
    requires AtMostOne(Join(a), '=') && Join(b) == Join(a)
    ensures b == a
  {
    JoinEndsInAmpersand(a);
    JoinEndsInAmpersand(b);
    OneEqualsOneParameter(a);
    OneEqualsOneParameter(b);
    if a != [] {
      assert a == [a[0]] && b == [b[0]];
      OneReading(a[0], b[0]);
    }
  }

  // --- Keys ---

  // No separator stands where another request could have put its cut.
  predicate Alone(verb: string, urlBase: string, queries: seq<FlatQuery>) {
    && DashFree(verb, urlBase) && |queries| <= 1
    && (queries != [] ==>
         '-' !in queries[0].key && '=' !in queries[0].key && '=' !in queries[0].value)
  }

  // A request that is not alone, read in another way.
  lemma OtherRequest(verb: string, urlBase: string, a: seq<FlatQuery>)
    returns (verb': string, urlBase': string, b: seq<FlatQuery>)
    requires !Alone(verb, urlBase, a)
    ensures KeyText(verb', urlBase', b) == KeyText(verb, urlBase, a)
    ensures verb' != verb || urlBase' != urlBase || b != a
    ensures b == a || |b| == 1
  {
    verb', urlBase', b := verb, urlBase, a;
    if '-' in verb {
      verb', urlBase' := CutVerb(verb, urlBase, a);
    } else if '-' in urlBase {
      verb', urlBase' := CutBase(verb, urlBase, a);
    } else if !AtMostOne(Join(a), '=') {
      var q := OtherReading(a);
      b := [q];
    } else {
      OneEqualsOneParameter(a);
      assert a == [a[0]];
      JoinSingle(a[0]);
      OneEqualsInPair(a[0]);
      var q: FlatQuery;
      urlBase', q := CutKey(verb, urlBase, a[0]);
      b := [q];
    }
  }

  lemma SplitAt(text: string, i: nat)
    requires i < |text|
    ensures text == text[..i] + ([text[i]] + text[i + 1..])
  {
  }

  lemma Regroup(x: string, y: string, z: string)
    ensures (x + (['-'] + y)) + z == x + (['-'] + (y + z))
  {
  }

  lemma CutVerb(verb: string, urlBase: string, a: seq<FlatQuery>) returns (verb': string, urlBase': string)
    requires '-' in verb
    ensures KeyText(verb', urlBase', a) == KeyText(verb, urlBase, a) && verb' != verb
  {
    var i :| 0 <= i < |verb| && verb[i] == '-';
    SplitAt(verb, i);
    var x, y := verb[..i], verb[i + 1..];
    verb', urlBase' := x, y + (['-'] + urlBase);
    KeyTextCut(verb, urlBase, a);
    KeyTextCut(verb', urlBase', a);
    Regroup(y, urlBase, ['-'] + Join(a));
    Regroup(x, y, ['-'] + (urlBase + (['-'] + Join(a))));
  }

  lemma CutBase(verb: string, urlBase: string, a: seq<FlatQuery>) returns (verb': string, urlBase': string)
    requires '-' in urlBase
    ensures KeyText(verb', urlBase', a) == KeyText(verb, urlBase, a) && verb' != verb
  {
    var i :| 0 <= i < |urlBase| && urlBase[i] == '-';
    SplitAt(urlBase, i);
    var x, y := urlBase[..i], urlBase[i + 1..];
    verb', urlBase' := verb + (['-'] + x), y;
    KeyTextCut(verb, urlBase, a);
    KeyTextCut(verb', urlBase', a);
    Regroup(x, y, ['-'] + Join(a));
    Regroup(verb, x, ['-'] + (y + (['-'] + Join(a))));
  }

  /** The '-' after host and path can be one inside the first parameter's key, and the other way
      round. */
  lemma DashMoves(verb: string, urlBase: string, x: string, key: string, value: string)
    ensures KeyText(verb, urlBase, [FlatQuery(x + (['-'] + key), value)])
         == KeyText(verb, urlBase + (['-'] + x), [FlatQuery(key, value)])
  {
    var p, q := FlatQuery(x + (['-'] + key), value), FlatQuery(key, value);
    KeyTextCut(verb, urlBase, [p]);
    KeyTextCut(verb, urlBase + (['-'] + x), [q]);
    JoinSingle(p);
    JoinSingle(q);
    var rest := "=" + (value + "&");
    PairIs(p);
    PairIs(q);
    Regroup(x, key, rest);
    Regroup(urlBase, x, ['-'] + PairText(q));
  }

  lemma PairIs(q: FlatQuery)
    ensures PairText(q) == q.key + ("=" + (q.value + "&"))
  {
  }

  lemma CutKey(verb: string, urlBase: string, p: FlatQuery) returns (urlBase': string, q: FlatQuery)
    requires '-' in p.key
    ensures KeyText(verb, urlBase', [q]) == KeyText(verb, urlBase, [p]) && urlBase' != urlBase
  {
    var i :| 0 <= i < |p.key| && p.key[i] == '-';
    SplitAt(p.key, i);
    urlBase', q := urlBase + (['-'] + p.key[..i]), FlatQuery(p.key[i + 1..], p.value);
    DashMoves(verb, urlBase, p.key[..i], p.key[i + 1..], p.value);
  }

  // A character that stands once in a text, before which nothing else is it, fixes the cut there.
  lemma OnlyCut(x: string, y: string, c: char, r: string, s: string)
    requires c !in x && c !in r && x + ([c] + r) == y + ([c] + s)
    ensures x == y && r == s
  {
    var whole := x + ([c] + r);
    assert whole[|y|] == c;
    assert whole[..|x|] == x && whole[..|y|] == y;
    assert whole[|x| + 1..] == r && whole[|y| + 1..] == s;
  }

  lemma LastOfText(verb: string, urlBase: string, a: seq<FlatQuery>)
    ensures KeyText(verb, urlBase, a) != ""
    ensures KeyText(verb, urlBase, a)[|KeyText(verb, urlBase, a)| - 1] == if a == [] then '-' else '&'
  {
    JoinEndsInAmpersand(a);
  }

  // Without parameters: the last '-' ends host and path, the only other one ends the method.
  lemma AloneWithoutParameters(verb: string, urlBase: string, verb': string, urlBase': string, b: seq<FlatQuery>)
    requires DashFree(verb, urlBase) && KeyText(verb', urlBase', b) == KeyText(verb, urlBase, [])
    ensures verb' == verb && urlBase' == urlBase && b == []
  {
    LastOfText(verb, urlBase, []);
    LastOfText(verb', urlBase', b);
    KeyTextCut(verb, urlBase, []);
    KeyTextCut(verb', urlBase', []);
    Regroup(verb, urlBase, ['-'] + "");
    Regroup(verb', urlBase', ['-'] + "");
    LastCut(verb + (['-'] + urlBase), verb' + (['-'] + urlBase'), '-', "", "");
    OnlyCut(verb, verb', '-', urlBase, urlBase');
  }

  // What stands before a piece of the parameters, and the rest.
  lemma HeadAndTail(verb: string, urlBase: string, x: string, tail: string)
    ensures verb + (['-'] + (urlBase + (['-'] + (x + tail)))) == (verb + (['-'] + (urlBase + (['-'] + x)))) + tail
  {
    Regroup(urlBase, x, tail);
    Regroup(verb, urlBase + (['-'] + x), tail);
  }

  // With one: the last '=' ends its key, and only two '-' stand before that.
  lemma AloneWithParameter(verb: string, urlBase: string, p: FlatQuery, verb': string, urlBase': string,
                           b: seq<FlatQuery>)
    requires Alone(verb, urlBase, [p]) && KeyText(verb', urlBase', b) == KeyText(verb, urlBase, [p])
    ensures verb' == verb && urlBase' == urlBase && b == [p]
  {
    LastOfText(verb, urlBase, [p]);
    LastOfText(verb', urlBase', b);
    KeyTextCut(verb, urlBase, [p]);
    KeyTextCut(verb', urlBase', b);
    JoinSingle(p);
    PairIs(p);
    HeadAndTail(verb, urlBase, p.key, ['='] + (p.value + "&"));
    var before, after := LastEquals(b);
    HeadAndTail(verb', urlBase', before, ['='] + after);
    LastCut(verb + (['-'] + (urlBase + (['-'] + p.key))), verb' + (['-'] + (urlBase' + (['-'] + before))), '=',
            p.value + "&", after);
    FirstOfTwo(verb, urlBase, p.key, verb', urlBase', before);
    SameBase(verb, urlBase, [p], b);
    OneEqualsInPair(p);
    UniqueReading([p], b);
  }

  // Three dash-free pieces are found again wherever the two cuts are said to be.
  lemma FirstOfTwo(x: string, y: string, z: string, x': string, y': string, z': string)
    requires '-' !in x && '-' !in y && '-' !in z
    requires x + (['-'] + (y + (['-'] + z))) == x' + (['-'] + (y' + (['-'] + z')))
    ensures x == x' && y == y' && z == z'
  {
    var whole := x + (['-'] + (y + (['-'] + z)));
    var i, j := |x'|, |x'| + 1 + |y'|;
    assert whole[i] == '-' && whole[j] == '-';
    assert forall k :: 0 <= k < |whole| && whole[k] == '-' ==> k == |x| || k == |x| + 1 + |y|;
    assert whole[..|x|] == x && whole[..i] == x';
    assert whole[|x| + 1..|x| + 1 + |y|] == y && whole[i + 1..j] == y';
    assert whole[|x| + 1 + |y| + 1..] == z && whole[j + 1..] == z';
  }

  lemma LastEquals(b: seq<FlatQuery>) returns (before: string, after: string)
    requires b != []
    ensures Join(b) == before + (['='] + after) && '=' !in after
  {
    JoinEndsInAmpersand(b);
    var last := LastAt(Join(b), '=');
    SplitAt(Join(b), last);
    before, after := Join(b)[..last], Join(b)[last + 1..];
  }

  lemma {:induction false} LastAt(text: string, c: char) returns (last: nat)
    requires c in text
    ensures last < |text| && text[last] == c && c !in text[last + 1..]
  {
    last := |text| - 1;
    if text[last] != c {
      assert text == text[..last] + [text[last]];
      var end := last;
      last := LastAt(text[..end], c);
      assert text[last + 1..] == text[..end][last + 1..] + [text[end]];
    }
  }

  /** A method, host and path and sorted query share their text with no other if and only if
      neither method nor host and path contain a '-', and there is at most one parameter, without
      '-' in its key and without '=' in key or value. */
  lemma KeyTextIsUniqueIff(verb: string, urlBase: string, a: seq<FlatQuery>)
    ensures (forall verb', urlBase', b :: KeyText(verb', urlBase', b) == KeyText(verb, urlBase, a) ==>
              verb' == verb && urlBase' == urlBase && b == a)
       <==> Alone(verb, urlBase, a)
  {
    if Alone(verb, urlBase, a) {
      forall verb', urlBase', b | KeyText(verb', urlBase', b) == KeyText(verb, urlBase, a)
        ensures verb' == verb && urlBase' == urlBase && b == a
      {
        AloneIsUnique(verb, urlBase, a, verb', urlBase', b);
      }
    } else {
      var verb', urlBase', b := OtherRequest(verb, urlBase, a);
    }
  }

  lemma AloneIsUnique(verb: string, urlBase: string, a: seq<FlatQuery>, verb': string, urlBase': string,
                      b: seq<FlatQuery>)
    requires Alone(verb, urlBase, a) && KeyText(verb', urlBase', b) == KeyText(verb, urlBase, a)
    ensures verb' == verb && urlBase' == urlBase && b == a
  {
    if a == [] {
      AloneWithoutParameters(verb, urlBase, verb', urlBase', b);
    } else {
      assert a == [a[0]];
      AloneWithParameter(verb, urlBase, a[0], verb', urlBase', b);
    }
  }

  // --- Requests ---

  // The key of a request whose query map is iterated in the given order.
  function CacheKeyOf(verb: string, urlBase: string, query: Headers, order: seq<string>,
                      sort: seq<FlatQuery> -> seq<FlatQuery>, encode: string -> string): string
  {
    encode(KeyText(verb, urlBase, sort(Flatten(query, order))))
  }

  lemma PermutedSingle(s: seq<FlatQuery>, a: seq<FlatQuery>)
    requires multiset(s) == multiset(a)
    ensures |s| == |a| && (|a| <= 1 ==> s == a)
  {
    assert |multiset(s)| == |s| && |multiset(a)| == |a|;
    if |a| == 1 {
      SameMembers(s, a);
      assert s == [s[0]] && a == [a[0]] && s[0] in a;
    }
  }

  lemma SingleQuery(q: FlatQuery) returns (query: Headers, order: seq<string>)
    ensures IterationOrder(order, query) && Flatten(query, order) == [q]
  {
    query, order := map[q.key := [q.value]], [q.key];
    assert order[1..] == [] && [q.value][1..] == [];
    assert Block(q.key, [q.value]) == [q] + Block(q.key, []);
    assert Flatten(query, order) == KeyBlock(query, q.key) + Flatten(query, []);
  }

  // A request that is not alone has another one with its key, whatever permuting sort is used.
  lemma AnotherWithTheKey(verb: string, urlBase: string, a: Headers, order: seq<string>,
                          sort: seq<FlatQuery> -> seq<FlatQuery>, encode: string -> string)
    returns (verb': string, urlBase': string, b: Headers, order': seq<string>)
    requires IterationOrder(order, a) && Permutes(sort) && !Alone(verb, urlBase, Flatten(a, order))
    ensures IterationOrder(order', b)
    ensures CacheKeyOf(verb', urlBase', b, order', sort, encode) == CacheKeyOf(verb, urlBase, a, order, sort, encode)
    ensures !SameRequest(verb, urlBase, Flatten(a, order), verb', urlBase', Flatten(b, order'))
  {
    var sorted := sort(Flatten(a, order));
    assert multiset(sorted) == multiset(Flatten(a, order));
    PermutedSingle(sorted, Flatten(a, order));
    var other: seq<FlatQuery>;
    verb', urlBase', other := OtherRequest(verb, urlBase, sorted);
    b, order' := a, order;
    if other != sorted {
      b, order' := SingleQuery(other[0]);
      assert multiset(sort(other)) == multiset(other);
      PermutedSingle(sort(other), other);
      assert other == [other[0]];
      if multiset(sorted) == multiset(other) {
        PermutedSingle(sorted, other);
        assert false;
      }
    }
  }

  /** A request shares its cache key with no other request, for any permuting sort and any iteration
      orders, if and only if neither its method nor its host and path contain a '-', and it has at
      most one parameter, without '-' in its key and without '=' in key or value. */
  lemma RequestIsAloneIff(verb: string, urlBase: string, a: Headers, order: seq<string>,
                          sort: seq<FlatQuery> -> seq<FlatQuery>, encode: string -> string)
    requires IterationOrder(order, a) && Permutes(sort) && Injective(encode)
    ensures (forall verb', urlBase', b, order' ::
              IterationOrder(order', b)
              && CacheKeyOf(verb', urlBase', b, order', sort, encode)
                  == CacheKeyOf(verb, urlBase, a, order, sort, encode) ==>
                SameRequest(verb, urlBase, Flatten(a, order), verb', urlBase', Flatten(b, order')))
       <==> Alone(verb, urlBase, Flatten(a, order))
  {
    if Alone(verb, urlBase, Flatten(a, order)) {
      forall verb', urlBase', b, order' | IterationOrder(order', b)
          && CacheKeyOf(verb', urlBase', b, order', sort, encode) == CacheKeyOf(verb, urlBase, a, order, sort, encode)
        ensures SameRequest(verb, urlBase, Flatten(a, order), verb', urlBase', Flatten(b, order'))
      {
        var s, s' := sort(Flatten(a, order)), sort(Flatten(b, order'));
        assert multiset(s) == multiset(Flatten(a, order)) && multiset(s') == multiset(Flatten(b, order'));
        PermutedSingle(s, Flatten(a, order));
        AloneIsUnique(verb, urlBase, s, verb', urlBase', s');
      }
    } else {
      var verb', urlBase', b, order' := AnotherWithTheKey(verb, urlBase, a, order, sort, encode);
    }
  }

  /** For instance "GET h/x?y-a=1" and "GET h/x-y?a=1" share their key. */
  lemma DashesShareKeys()
    ensures KeyText("GET", "h/x", [FlatQuery("y-a", "1")]) == KeyText("GET", "h/x-y", [FlatQuery("a", "1")])
  {
    DashMoves("GET", "h/x", "y", "a", "1");
    assert "y" + (['-'] + "a") == "y-a" && "h/x" + (['-'] + "y") == "h/x-y";
  }
}
