/**
 The sort that Go's sort.Sort runs on a query of at most six parameters is an insertion sort;
 from Go 1.19 on it is so up to twelve, while Go 1.18 makes another pass before it above six.
 With insertion sort the sorted query, whatever the iteration order, is the same if and only if no
 two parameters are oppositely ordered by key and by value.
 */
module CacheKeySort {
  import opened Prelude
  import opened Archives
  import opened CacheKey

  // x moves left past every element it is Less than.
  function Insert(s: seq<FlatQuery>, x: FlatQuery): (inserted: seq<FlatQuery>)
    ensures |inserted| == |s| + 1
  {
    if s != [] && Less(x, s[|s| - 1]) then Insert(s[..|s| - 1], x) + [s[|s| - 1]] else s + [x]
  }

  function InsertAll(s: seq<FlatQuery>, xs: seq<FlatQuery>): seq<FlatQuery> {
    if xs == [] then s else Insert(InsertAll(s, xs[..|xs| - 1]), xs[|xs| - 1])
  }

  function InsertionSorted(s: seq<FlatQuery>): seq<FlatQuery> {
    InsertAll([], s)
  }

  // The slice while x, coming from behind sorted, stands at j.
  function Arranged(sorted: seq<FlatQuery>, x: FlatQuery, rest: seq<FlatQuery>, j: nat): (s: seq<FlatQuery>)
    requires j <= |sorted|
    ensures |s| == |sorted| + 1 + |rest| && s[j] == x && (j > 0 ==> s[j - 1] == sorted[j - 1])
  {
    sorted[..j] + [x] + sorted[j..] + rest
  }

  lemma SwapArranged(sorted: seq<FlatQuery>, x: FlatQuery, rest: seq<FlatQuery>, j: nat)
    requires 0 < j <= |sorted|
    ensures Arranged(sorted, x, rest, j)[j := sorted[j - 1]][j - 1 := x] == Arranged(sorted, x, rest, j - 1)
  {
  }

  // The inner loop of insertion sort: element i is swapped down to its place.
  method SwapDown(data: array<FlatQuery>, i: nat)
    requires i < data.Length
    modifies data
    ensures data[..] == Insert(old(data[..i]), old(data[i])) + old(data[i + 1..])
  {
    ghost var sorted, x, rest := data[..i], data[i], data[i + 1..];
    var j := i;
    assert data[..] == Arranged(sorted, x, rest, i);
    assert sorted[..i] == sorted && sorted[i..] == [];
    while j > 0 && Less(data[j], data[j - 1])
      invariant 0 <= j <= i && data[..] == Arranged(sorted, x, rest, j)
      invariant Insert(sorted, x) == Insert(sorted[..j], x) + sorted[j..]
    {
      assert data[j] == data[..][j] && data[j - 1] == data[..][j - 1];
      InsertMovesOn(sorted, x, j);
      SwapArranged(sorted, x, rest, j);
      data[j], data[j - 1] := data[j - 1], data[j];
      j := j - 1;
    }
    assert j > 0 ==> data[j] == data[..][j] && data[j - 1] == data[..][j - 1];
    assert Insert(sorted[..j], x) == sorted[..j] + [x];
  }

  // Insertion sort with Less and Swap, in place.
  method InsertionSort(data: array<FlatQuery>)
    modifies data
    ensures data[..] == InsertionSorted(old(data[..]))
  {
    ghost var before := data[..];
    for i := 0 to data.Length
      invariant data[..i] == InsertionSorted(before[..i])
      invariant data[i..] == before[i..]
    {
      assert data[i] == data[i..][0] == before[i] && data[i + 1..] == data[i..][1..];
      ghost var sorted := data[..i];
      SwapDown(data, i);
      assert |sorted| == i && before[..i + 1][..i] == before[..i];
      assert data[..i + 1] == data[..][..i + 1] == Insert(sorted, before[i]);
      assert data[i + 1..] == data[..][i + 1..] == before[i..][1..] == before[i + 1..];
    }
    assert data[..data.Length] == data[..] && before[..data.Length] == before;
  }

  lemma InsertMovesOn(sorted: seq<FlatQuery>, x: FlatQuery, j: nat)
    requires 0 < j <= |sorted| && Less(x, sorted[j - 1])
    ensures Insert(sorted[..j], x) + sorted[j..] == Insert(sorted[..j - 1], x) + sorted[j - 1..]
  {
    assert sorted[..j][..j - 1] == sorted[..j - 1];
    assert sorted[j - 1..] == [sorted[j - 1]] + sorted[j..];
    Assoc(Insert(sorted[..j - 1], x), [sorted[j - 1]], sorted[j..]);
  }

  lemma {:induction false} InsertPermutes(s: seq<FlatQuery>, x: FlatQuery)
    ensures multiset(Insert(s, x)) == multiset(s) + multiset{x}
  {
    if s != [] && Less(x, s[|s| - 1]) {
      InsertPermutes(s[..|s| - 1], x);
      assert s == s[..|s| - 1] + [s[|s| - 1]];
    }
  }

  lemma {:induction false} InsertAllPermutes(s: seq<FlatQuery>, xs: seq<FlatQuery>)
    ensures multiset(InsertAll(s, xs)) == multiset(s) + multiset(xs)
  {
    if xs != [] {
      var front, last := xs[..|xs| - 1], xs[|xs| - 1];
      InsertAllPermutes(s, front);
      InsertPermutes(InsertAll(s, front), last);
      SplitMultiset(xs);
    }
  }

  lemma SplitMultiset(xs: seq<FlatQuery>)
    requires xs != []
    ensures multiset(xs) == multiset(xs[..|xs| - 1]) + multiset{xs[|xs| - 1]}
  {
    assert xs == xs[..|xs| - 1] + [xs[|xs| - 1]];
  }

  lemma InsertMembers(s: seq<FlatQuery>, x: FlatQuery)
    ensures forall p :: p in Insert(s, x) <==> p in s || p == x
  {
    InsertPermutes(s, x);
    SameMembers(Insert(s, x), s + [x]);
  }

  lemma InsertAllMembers(s: seq<FlatQuery>, xs: seq<FlatQuery>)
    ensures forall p :: p in InsertAll(s, xs) <==> p in s || p in xs
  {
    InsertAllPermutes(s, xs);
    SameMembers(InsertAll(s, xs), s + xs);
  }

  lemma {:induction false} InsertKeepsSorted(s: seq<FlatQuery>, x: FlatQuery)
    requires NoInversion(s) && NoneOpposed(s + [x])
    ensures NoInversion(Insert(s, x))
    ensures Insert(s, x)[|s|] == x || (s != [] && Insert(s, x)[|s|] == s[|s| - 1])
  {
    if s != [] && Less(x, s[|s| - 1]) {
      var front, last := s[..|s| - 1], s[|s| - 1];
      assert forall p :: p in front + [x] ==> p in s + [x];
      InsertKeepsSorted(front, x);
      assert last in s + [x] && x in s + [x];
      LessOnUnopposed(x, last);
      var inserted := Insert(front, x);
      assert inserted[|front|] == x || inserted[|front|] == s[|s| - 2];
      assert !Less(last, inserted[|front|]);
    }
  }

  lemma {:induction false} InsertionSortSorts(s: seq<FlatQuery>)
    requires NoneOpposed(s)
    ensures SortResult(s, InsertionSorted(s))
  {
    InsertAllPermutes([], s);
    assert multiset([]) + multiset(s) == multiset(s);
    if s != [] {
      var front, last := s[..|s| - 1], s[|s| - 1];
      assert s == front + [last];
      assert forall p :: p in front ==> p in s;
      InsertionSortSorts(front);
      InsertAllMembers([], front);
      forall p | p in InsertionSorted(front) + [last]
        ensures p in s
      {
      }
      InsertKeepsSorted(InsertionSorted(front), last);
    }
  }

  lemma {:induction false} InsertAllAppend(s: seq<FlatQuery>, a: seq<FlatQuery>, b: seq<FlatQuery>)
    ensures InsertAll(s, a + b) == InsertAll(InsertAll(s, a), b)
  {
    if b == [] {
      assert a + b == a;
    } else {
      assert (a + b)[..|a + b| - 1] == a + b[..|b| - 1];
      InsertAllAppend(s, a, b[..|b| - 1]);
    }
  }

  // --- An opposed pair makes the result depend on the order ---

  function OfKeys(s: seq<FlatQuery>, k: string, l: string): seq<FlatQuery> {
    if s == [] then [] else
      OfKeys(s[..|s| - 1], k, l) + (if s[|s| - 1].key == k || s[|s| - 1].key == l then [s[|s| - 1]] else [])
  }

  // Inserting an element of another key leaves the relative order of the rest alone.
  lemma {:induction false} InsertOther(s: seq<FlatQuery>, x: FlatQuery, k: string, l: string)
    requires x.key != k && x.key != l
    ensures OfKeys(Insert(s, x), k, l) == OfKeys(s, k, l)
  {
    var after := Insert(s, x);
    if s != [] && Less(x, s[|s| - 1]) {
      InsertOther(s[..|s| - 1], x, k, l);
      assert after[..|after| - 1] == Insert(s[..|s| - 1], x);
    } else {
      assert after[..|after| - 1] == s;
    }
  }

  lemma {:induction false} InsertAllOthers(s: seq<FlatQuery>, xs: seq<FlatQuery>, k: string, l: string)
    requires forall x :: x in xs ==> x.key != k && x.key != l
    ensures OfKeys(InsertAll(s, xs), k, l) == OfKeys(s, k, l)
  {
    if xs != [] {
      InsertAllOthers(s, xs[..|xs| - 1], k, l);
      InsertOther(InsertAll(s, xs[..|xs| - 1]), xs[|xs| - 1], k, l);
    }
  }

  lemma {:induction false} OfKeysAll(s: seq<FlatQuery>, k: string, l: string)
    requires forall x :: x in s ==> x.key == k || x.key == l
    ensures OfKeys(s, k, l) == s
  {
    if s != [] {
      var front, last := s[..|s| - 1], s[|s| - 1];
      assert s == front + [last];
      assert last in s && forall x :: x in front ==> x in s;
      OfKeysAll(front, k, l);
    }
  }

  ghost predicate ByValue(s: seq<FlatQuery>) {
    forall i, j :: 0 <= i < j < |s| ==> !StringLess(s[j].value, s[i].value)
  }

  // Among elements whose keys are not above its own, an element is placed by value.
  lemma {:induction false} InsertByValue(s: seq<FlatQuery>, x: FlatQuery)
    requires ByValue(s) && forall e :: e in s ==> !StringLess(x.key, e.key)
    ensures ByValue(Insert(s, x))
  {
    if s != [] {
      var front, last := s[..|s| - 1], s[|s| - 1];
      assert last in s;
      assert forall e :: e in front ==> e in s;
      StringOrder(x.value, last.value);
      if Less(x, last) {
        InsertByValue(front, x);
        InsertMembers(front, x);
        var inserted := Insert(front, x);
        forall i | 0 <= i < |inserted|
          ensures !StringLess(last.value, inserted[i].value)
        {
          assert inserted[i] in inserted;
          if inserted[i] in front {
            var a :| 0 <= a < |front| && front[a] == inserted[i];
            assert s[a] == front[a];
          }
        }
      } else {
        forall i | 0 <= i < |s|
          ensures !StringLess(x.value, s[i].value)
        {
          if StringLess(x.value, s[i].value) {
            StringOrder(last.value, x.value);
            if last.value != x.value {
              StringTransitive(last.value, x.value, s[i].value);
            }
          }
        }
      }
    }
  }

  lemma {:induction false} InsertAllByValue(s: seq<FlatQuery>, xs: seq<FlatQuery>)
    requires ByValue(s)
    requires forall x, e :: x in xs && (e in s || e in xs) ==> !StringLess(x.key, e.key)
    ensures ByValue(InsertAll(s, xs))
  {
    if xs != [] {
      var front, last := xs[..|xs| - 1], xs[|xs| - 1];
      assert last in xs && forall x :: x in front ==> x in xs;
      InsertAllByValue(s, front);
      InsertAllMembers(s, front);
      InsertByValue(InsertAll(s, front), last);
    }
  }

  // Elements Less than everything at the end of the list are placed before all of it.
  lemma {:induction false} InsertBefore(s: seq<FlatQuery>, t: seq<FlatQuery>, x: FlatQuery)
    requires forall e :: e in t ==> Less(x, e)
    ensures Insert(s + t, x) == Insert(s, x) + t
  {
    if t == [] {
      assert s + t == s;
    } else {
      var front, last := t[..|t| - 1], t[|t| - 1];
      assert last in t && forall e :: e in front ==> e in t;
      assert (s + t)[|s + t| - 1] == last && (s + t)[..|s + t| - 1] == s + front;
      InsertBefore(s, front, x);
      assert t == front + [last];
      Assoc(Insert(s, x), front, [last]);
    }
  }

  lemma {:induction false} InsertAllBefore(t: seq<FlatQuery>, xs: seq<FlatQuery>)
    requires forall x, e :: x in xs && e in t ==> Less(x, e)
    ensures InsertAll(t, xs) == InsertionSorted(xs) + t
  {
    if xs == [] {
      assert [] + t == t;
    } else {
      var front, last := xs[..|xs| - 1], xs[|xs| - 1];
      assert last in xs && forall x :: x in front ==> x in xs;
      InsertAllBefore(t, front);
      InsertBefore(InsertionSorted(front), t, last);
    }
  }

  lemma {:induction false} BlockMembers(key: string, values: seq<string>)
    ensures forall q :: q in Block(key, values) <==> q.key == key && q.value in values
  {
    if values != [] {
      BlockMembers(key, values[1..]);
      assert values == [values[0]] + values[1..];
      assert Block(key, values) == [FlatQuery(key, values[0])] + Block(key, values[1..]);
    }
  }

  lemma {:induction false} FlattenMembers(values: Headers, order: seq<string>)
    ensures forall q :: q in Flatten(values, order) <==> q.key in order && q.key in values && q.value in values[q.key]
  {
    if order != [] {
      FlattenMembers(values, order[1..]);
      assert order == [order[0]] + order[1..];
      if order[0] in values {
        BlockMembers(order[0], values[order[0]]);
      }
    }
  }

  // With the smaller key's block first, the larger key's elements are placed by value.
  lemma SmallerKeyFirst(ps: seq<FlatQuery>, qs: seq<FlatQuery>, k: string, l: string)
    requires StringLess(k, l) && (forall x :: x in ps ==> x.key == k) && (forall x :: x in qs ==> x.key == l)
    ensures ByValue(InsertionSorted(ps + qs))
  {
    StringOrder(k, l);
    StringOrder(k, k);
    StringOrder(l, l);
    InsertAllAppend([], ps, qs);
    InsertAllByValue([], ps);
    InsertAllMembers([], ps);
    InsertAllByValue(InsertionSorted(ps), qs);
  }

  // With the larger key's block first, the smaller key's elements all go before it.
  lemma LargerKeyFirst(ps: seq<FlatQuery>, qs: seq<FlatQuery>, k: string, l: string)
    requires StringLess(k, l) && (forall x :: x in ps ==> x.key == k) && (forall x :: x in qs ==> x.key == l)
    ensures InsertionSorted(qs + ps) == InsertionSorted(ps) + InsertionSorted(qs)
  {
    InsertAllAppend([], qs, ps);
    InsertAllMembers([], qs);
    InsertAllBefore(InsertionSorted(qs), ps);
  }

  // Sorting the two opposed blocks in the two orders gives two different arrangements.
  lemma OpposedBlocksDiffer(ps: seq<FlatQuery>, qs: seq<FlatQuery>, p: FlatQuery, q: FlatQuery)
    requires p in ps && q in qs && Opposed(p, q)
    requires (forall x :: x in ps ==> x.key == p.key) && (forall x :: x in qs ==> x.key == q.key)
    ensures InsertionSorted(ps + qs) != InsertionSorted(qs + ps)
  {
    SmallerKeyFirst(ps, qs, p.key, q.key);
    LargerKeyFirst(ps, qs, p.key, q.key);
    InsertAllMembers([], ps);
    InsertAllMembers([], qs);
    var sp, sq := InsertionSorted(ps), InsertionSorted(qs);
    var i :| 0 <= i < |sp| && sp[i] == p;
    var j :| 0 <= j < |sq| && sq[j] == q;
    assert (sp + sq)[i] == p && (sp + sq)[|sp| + j] == q;
    assert !ByValue(sp + sq);
  }

  lemma {:induction false} FilterDistinct(s: seq<string>, keep: string -> bool)
    requires forall i, j :: 0 <= i < j < |s| ==> s[i] != s[j]
    ensures forall i, j :: 0 <= i < j < |Filter(s, keep)| ==> Filter(s, keep)[i] != Filter(s, keep)[j]
  {
    if s != [] {
      FilterDistinct(s[1..], keep);
      FilterMembers(s[1..], keep);
      var rest := Filter(s[1..], keep);
      forall i | 0 <= i < |rest|
        ensures rest[i] != s[0]
      {
        assert rest[i] in s[1..];
      }
    }
  }

  lemma FlattenTwoFirst(values: Headers, k: string, l: string, rest: seq<string>)
    requires k in values && l in values
    ensures Flatten(values, [k, l] + rest) == Block(k, values[k]) + Block(l, values[l]) + Flatten(values, rest)
  {
    assert ([k, l] + rest)[1..] == [l] + rest;
    assert ([l] + rest)[1..] == rest;
  }

  lemma PutFirst(values: Headers, k: string, l: string, rest: seq<string>)
    requires k in values && l in values && k != l
    requires forall i :: 0 <= i < |rest| ==> rest[i] in values && rest[i] != k && rest[i] != l
    requires forall i, j :: 0 <= i < j < |rest| ==> rest[i] != rest[j]
    requires forall x :: x in values && x != k && x != l ==> x in rest
    ensures IterationOrder([k, l] + rest, values)
  {
    var order := [k, l] + rest;
    assert order[0] == k && order[1] == l;
    assert forall i :: 2 <= i < |order| ==> order[i] == rest[i - 2];
  }

  // Some order of the keys puts k and l first.
  lemma TwoFirst(values: Headers, order: seq<string>, k: string, l: string) returns (rest: seq<string>)
    requires IterationOrder(order, values) && k in values && l in values && k != l
    ensures IterationOrder([k, l] + rest, values) && IterationOrder([l, k] + rest, values)
    ensures k !in rest && l !in rest
  {
    var others := (x: string) => x != k && x != l;
    rest := Filter(order, others);
    FilterMembers(order, others);
    FilterDistinct(order, others);
    forall i | 0 <= i < |rest|
      ensures rest[i] in values && rest[i] != k && rest[i] != l
    {
      assert rest[i] in rest;
    }
    PutFirst(values, k, l, rest);
    PutFirst(values, l, k, rest);
  }

  lemma OpposedPairMatters(values: Headers, order: seq<string>, p: FlatQuery, q: FlatQuery)
    returns (one: seq<string>, other: seq<string>)
    requires IterationOrder(order, values)
    requires p in Flatten(values, order) && q in Flatten(values, order) && Opposed(p, q)
    ensures IterationOrder(one, values) && IterationOrder(other, values)
    ensures InsertionSorted(Flatten(values, one)) != InsertionSorted(Flatten(values, other))
  {
    FlattenMembers(values, order);
    StringOrder(p.key, q.key);
    var k, l := p.key, q.key;
    var rest := TwoFirst(values, order, k, l);
    one, other := [k, l] + rest, [l, k] + rest;
    var ps, qs, rs := Block(k, values[k]), Block(l, values[l]), Flatten(values, rest);
    FlattenTwoFirst(values, k, l, rest);
    FlattenTwoFirst(values, l, k, rest);
    BlockMembers(k, values[k]);
    BlockMembers(l, values[l]);
    OpposedBlocksDiffer(ps, qs, p, q);
    FlattenMembers(values, rest);
    RestDoesNotMatter(ps + qs, rs, k, l);
    RestDoesNotMatter(qs + ps, rs, k, l);
  }

  lemma RestDoesNotMatter(s: seq<FlatQuery>, rs: seq<FlatQuery>, k: string, l: string)
    requires forall x :: x in s ==> x.key == k || x.key == l
    requires forall x :: x in rs ==> x.key != k && x.key != l
    ensures OfKeys(InsertionSorted(s + rs), k, l) == InsertionSorted(s)
  {
    InsertAllAppend([], s, rs);
    InsertAllOthers(InsertionSorted(s), rs, k, l);
    InsertAllMembers([], s);
    OfKeysAll(InsertionSorted(s), k, l);
  }

  /** The insertion-sorted query is the same for every iteration order of the parameter map if
      and only if no two parameters are oppositely ordered by key and by value. */
  lemma OrderIndependentIffUnopposed(values: Headers, order: seq<string>)
    requires IterationOrder(order, values)
    ensures (forall o :: IterationOrder(o, values) ==>
              InsertionSorted(Flatten(values, o)) == InsertionSorted(Flatten(values, order)))
       <==> NoneOpposed(Flatten(values, order))
  {
    if NoneOpposed(Flatten(values, order)) {
      forall o | IterationOrder(o, values)
        ensures InsertionSorted(Flatten(values, o)) == InsertionSorted(Flatten(values, order))
      {
        assert forall k :: k in o <==> k in order;
        FlattenPermutes(values, values, order, o);
        SameMembers(Flatten(values, order), Flatten(values, o));
        InsertionSortSorts(Flatten(values, order));
        InsertionSortSorts(Flatten(values, o));
        SortedQueryIsOrderIndependent(values, order, InsertionSorted(Flatten(values, order)),
                                      values, o, InsertionSorted(Flatten(values, o)));
      }
    } else {
      var p, q :| p in Flatten(values, order) && q in Flatten(values, order) && Opposed(p, q);
      var one, other := OpposedPairMatters(values, order, p, q);
    }
  }

  /** So the cache key of "?a=2&b=1" depends on the order in which Go iterates over the map. */
  lemma KeyOfOpposedQueryVaries()
    ensures var a, b := FlatQuery("a", "2"), FlatQuery("b", "1");
            && Opposed(a, b)
            && Join(InsertionSorted([a, b])) == "b=1&a=2&"
            && Join(InsertionSorted([b, a])) == "a=2&b=1&"
  {
    var a, b := FlatQuery("a", "2"), FlatQuery("b", "1");
    assert StringLess("a", "b") && StringLess("1", "2") && !StringLess("b", "a");
    SortTwo(a, b);
    SortTwo(b, a);
    JoinTwo(a, b);
    JoinTwo(b, a);
  }

  lemma SortTwo(x: FlatQuery, y: FlatQuery)
    ensures InsertionSorted([x, y]) == if Less(y, x) then [y, x] else [x, y]
  {
    var one, two := [x], [x, y];
    assert one[..|one| - 1] == [] && two[..|two| - 1] == one;
    assert Insert([], x) == [x] && Insert([], y) == [y];
    assert InsertAll([], one) == one;
    assert InsertAll([], two) == Insert(one, y);
  }

  lemma JoinTwo(x: FlatQuery, y: FlatQuery)
    ensures Join([x, y]) == PairText(x) + PairText(y)
  {
    var one, two := [x], [x, y];
    assert one[..|one| - 1] == [] && two[..|two| - 1] == one;
    assert Join(one) == Join([]) + PairText(x);
  }
}
