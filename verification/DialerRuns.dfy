/**
 What the retry loop tries when the definitions stay fixed: the runs it can make are exactly
 the top of the eligible dialers in non-increasing priority, each once.
 */
module DialerRuns {
  import opened Prelude
  import opened Dialers

  ghost predicate UniqueIdentifiers(definitions: seq<DialerDefinition>) {
    forall i, j :: 0 <= i < j < |definitions| ==> definitions[i].identifier != definitions[j].identifier
  }

  // The dialers that accept the request at a priority the maximum search can reach.
  function Eligible(definitions: seq<DialerDefinition>, matches: Matcher, request: Request): seq<DialerDefinition> {
    Filter(definitions, (d: DialerDefinition) => Accepts(matches, d, request) && d.priority >= 0)
  }

  function TriesFor(totalTries: int, definitions: seq<DialerDefinition>): int {
    if totalTries == 0 then |definitions| else totalTries
  }

  function Min(a: int, b: int): int {
    if a < b then a else b
  }

  // tried holds n of the eligible dialers, each once, in non-increasing priority, none left out above one tried.
  ghost predicate TopInOrder(tried: seq<DialerDefinition>, eligible: seq<DialerDefinition>) {
    && NoRepeats(tried)
    && (forall i :: 0 <= i < |tried| ==> tried[i] in eligible)
    && (forall i, j :: 0 <= i < j < |tried| ==> tried[i].priority >= tried[j].priority)
    && (forall d, i :: d in eligible && d !in tried && 0 <= i < |tried| ==> d.priority <= tried[i].priority)
  }

  lemma SameIdentifierSameDialer(definitions: seq<DialerDefinition>, a: DialerDefinition, b: DialerDefinition)
    requires UniqueIdentifiers(definitions) && a in definitions && b in definitions && a.identifier == b.identifier
    ensures a == b
  {
    var i :| 0 <= i < |definitions| && definitions[i] == a;
    var j :| 0 <= j < |definitions| && definitions[j] == b;
  }

  lemma EligibleMembers(definitions: seq<DialerDefinition>, matches: Matcher, request: Request)
    ensures forall d :: d in Eligible(definitions, matches, request) <==>
      && d in definitions && d.priority >= 0
      && (|| d.requirement.None?
          || (d.requirement.value.urlRegex.Some? && matches(d.requirement.value.urlRegex.value, request.url))
          || request.resourceType in d.requirement.value.resourceTypes)
  {
    FilterMembers(definitions, (d: DialerDefinition) => Accepts(matches, d, request) && d.priority >= 0);
  }

  // With unique identifiers, choosable means: eligible, not tried, and of the highest priority among those.
  lemma ChoosableIsBestUntried(definitions: seq<DialerDefinition>, matches: Matcher, request: Request,
                               tried: seq<DialerDefinition>, d: DialerDefinition)
    requires UniqueIdentifiers(definitions)
    requires forall t :: t in tried ==> t in definitions
    ensures Choosable(definitions, matches, request, Identifiers(tried), d) <==>
      && d in Eligible(definitions, matches, request) && d !in tried
      && forall e :: e in Eligible(definitions, matches, request) && e !in tried ==> e.priority <= d.priority
  {
    CandidateMembers(definitions, matches, request, Identifiers(tried));
    EligibleMembers(definitions, matches, request);
    forall e | e in definitions
      ensures e.identifier in Identifiers(tried) <==> e in tried
    {
      if e in tried {
        var i :| 0 <= i < |tried| && tried[i] == e;
        assert Identifiers(tried)[i] == e.identifier;
      }
      if e.identifier in Identifiers(tried) {
        var i :| 0 <= i < |tried| && Identifiers(tried)[i] == e.identifier;
        assert tried[i] in tried;
        SameIdentifierSameDialer(definitions, e, tried[i]);
      }
    }
  }

  lemma {:induction false} HighestPriority(dialers: seq<DialerDefinition>) returns (best: DialerDefinition)
    requires dialers != []
    ensures best in dialers && forall d :: d in dialers ==> d.priority <= best.priority
  {
    best := dialers[0];
    if |dialers| > 1 {
      var other := HighestPriority(dialers[1..]);
      if other.priority > best.priority {
        best := other;
      }
      assert dialers == [dialers[0]] + dialers[1..];
    }
  }

  // Nothing can be chosen exactly when every eligible dialer has been tried.
  lemma NothingLeft(definitions: seq<DialerDefinition>, matches: Matcher, request: Request,
                    tried: seq<DialerDefinition>)
    requires UniqueIdentifiers(definitions)
    requires forall t :: t in tried ==> t in definitions
    ensures (exists d :: Choosable(definitions, matches, request, Identifiers(tried), d))
       <==> (exists d :: d in Eligible(definitions, matches, request) && d !in tried)
  {
    var untried := (d: DialerDefinition) => d !in tried;
    var left := Filter(Eligible(definitions, matches, request), untried);
    FilterMembers(Eligible(definitions, matches, request), untried);
    if left != [] {
      var best := HighestPriority(left);
      ChoosableIsBestUntried(definitions, matches, request, tried, best);
    }
    if exists d :: Choosable(definitions, matches, request, Identifiers(tried), d) {
      var d :| Choosable(definitions, matches, request, Identifiers(tried), d);
      ChoosableIsBestUntried(definitions, matches, request, tried, d);
    }
    if exists d :: d in Eligible(definitions, matches, request) && d !in tried {
      var d :| d in Eligible(definitions, matches, request) && d !in tried;
      assert d in left;
    }
  }

  // --- Counting ---

  ghost function Members(s: seq<DialerDefinition>): set<DialerDefinition> {
    set d | d in s
  }

  lemma {:induction false} CountMembers(s: seq<DialerDefinition>)
    ensures |Members(s)| <= |s|
    ensures NoRepeats(s) ==> |Members(s)| == |s|
  {
    if s != [] {
      CountMembers(s[1..]);
      assert s == [s[0]] + s[1..];
      assert Members(s) == {s[0]} + Members(s[1..]);
      if NoRepeats(s) {
        assert s[0] !in s[1..] by {
          forall i | 0 <= i < |s[1..]|
            ensures s[1..][i] != s[0]
          {
            assert s[0].identifier != s[i + 1].identifier;
          }
        }
      }
    }
  }

  lemma {:induction false} SubsetCount(a: set<DialerDefinition>, b: set<DialerDefinition>)
    requires a <= b
    ensures |a| <= |b|
    ensures |a| == |b| ==> a == b
  {
    if a != {} {
      var d :| d in a;
      SubsetCount(a - {d}, b - {d});
    }
  }

  lemma {:induction false} FilterKeepsUnique(definitions: seq<DialerDefinition>, keep: DialerDefinition -> bool)
    requires UniqueIdentifiers(definitions)
    ensures UniqueIdentifiers(Filter(definitions, keep)) && |Filter(definitions, keep)| <= |definitions|
  {
    if definitions != [] {
      var rest := Filter(definitions[1..], keep);
      FilterKeepsUnique(definitions[1..], keep);
      FilterMembers(definitions[1..], keep);
      forall i | 0 <= i < |rest|
        ensures rest[i].identifier != definitions[0].identifier
      {
        assert rest[i] in definitions[1..];
        var j :| 0 <= j < |definitions[1..]| && definitions[1..][j] == rest[i];
        assert definitions[j + 1] == rest[i];
      }
    }
  }

  lemma TriedCount(definitions: seq<DialerDefinition>, matches: Matcher, request: Request, tried: seq<DialerDefinition>)
    requires UniqueIdentifiers(definitions) && NoRepeats(tried)
    requires forall i :: 0 <= i < |tried| ==> tried[i] in Eligible(definitions, matches, request)
    ensures |tried| <= |Eligible(definitions, matches, request)| <= |definitions|
    ensures |tried| == |Eligible(definitions, matches, request)|
       <==> forall d :: d in Eligible(definitions, matches, request) ==> d in tried
  {
    var eligible := Eligible(definitions, matches, request);
    FilterKeepsUnique(definitions, (d: DialerDefinition) => Accepts(matches, d, request) && d.priority >= 0);
    CountMembers(tried);
    CountMembers(eligible);
    assert Members(tried) <= Members(eligible);
    SubsetCount(Members(tried), Members(eligible));
    if forall d :: d in eligible ==> d in tried {
      assert Members(tried) == Members(eligible);
    }
    if |tried| == |eligible| {
      forall d | d in eligible
        ensures d in tried
      {
        assert d in Members(eligible);
      }
    }
  }

  // --- The runs ---

  lemma ChosenAt(definitions: seq<DialerDefinition>, matches: Matcher, request: Request, tried: seq<DialerDefinition>,
                 i: nat)
    requires i < |tried| && Choosable(definitions, matches, request, Identifiers(tried[..i]), tried[i])
    ensures tried[i] in Eligible(definitions, matches, request) && tried[i] in definitions
    ensures forall j :: 0 <= j < i ==> tried[j].identifier != tried[i].identifier
  {
    CandidateMembers(definitions, matches, request, Identifiers(tried[..i]));
    EligibleMembers(definitions, matches, request);
    forall j | 0 <= j < i
      ensures tried[j].identifier != tried[i].identifier
    {
      assert Identifiers(tried[..i])[j] == tried[j].identifier;
    }
  }

  lemma ChosenAreEligible(definitions: seq<DialerDefinition>, matches: Matcher, request: Request,
                          tried: seq<DialerDefinition>)
    requires ChosenInTurn(definitions, matches, request, tried)
    ensures NoRepeats(tried)
    ensures forall i :: 0 <= i < |tried| ==>
      tried[i] in Eligible(definitions, matches, request) && tried[i] in definitions
  {
    forall i | 0 <= i < |tried|
      ensures tried[i] in Eligible(definitions, matches, request) && tried[i] in definitions
      ensures forall j :: 0 <= j < i ==> tried[j].identifier != tried[i].identifier
    {
      ChosenAt(definitions, matches, request, tried, i);
    }
  }

  lemma ChosenIsTop(definitions: seq<DialerDefinition>, matches: Matcher, request: Request,
                    tried: seq<DialerDefinition>)
    requires UniqueIdentifiers(definitions) && ChosenInTurn(definitions, matches, request, tried)
    ensures TopInOrder(tried, Eligible(definitions, matches, request))
  {
    var eligible := Eligible(definitions, matches, request);
    ChosenAreEligible(definitions, matches, request, tried);
    forall i, d | 0 <= i < |tried| && d in eligible && d !in tried[..i]
      ensures d.priority <= tried[i].priority
    {
      ChoosableIsBestUntried(definitions, matches, request, tried[..i], tried[i]);
    }
    forall i, j | 0 <= i < j < |tried|
      ensures tried[j].priority <= tried[i].priority
    {
      assert tried[j] !in tried[..i];
    }
    forall d, i | d in eligible && d !in tried && 0 <= i < |tried|
      ensures d.priority <= tried[i].priority
    {
      assert d !in tried[..i];
    }
  }

  lemma TopIsChosen(definitions: seq<DialerDefinition>, matches: Matcher, request: Request,
                    tried: seq<DialerDefinition>)
    requires UniqueIdentifiers(definitions) && TopInOrder(tried, Eligible(definitions, matches, request))
    ensures ChosenInTurn(definitions, matches, request, tried)
  {
    EligibleMembers(definitions, matches, request);
    forall i | 0 <= i < |tried|
      ensures Choosable(definitions, matches, request, Identifiers(tried[..i]), tried[i])
    {
      TopIsBestUntried(tried, Eligible(definitions, matches, request), i);
      ChoosableIsBestUntried(definitions, matches, request, tried[..i], tried[i]);
    }
  }

  lemma TopIsBestUntried(tried: seq<DialerDefinition>, eligible: seq<DialerDefinition>, i: nat)
    requires TopInOrder(tried, eligible) && i < |tried|
    ensures tried[i] !in tried[..i]
    ensures forall e :: e in eligible && e !in tried[..i] ==> e.priority <= tried[i].priority
  {
    forall e | e in eligible && e !in tried[..i]
      ensures e.priority <= tried[i].priority
    {
      if e in tried {
        var j :| 0 <= j < |tried| && tried[j] == e;
        assert j >= i;
      }
    }
  }

  /** With unique identifiers and a total of tries that is zero or more, the dialer sequences an
      all-failing run can try are exactly these: the eligible dialers of priority at least 0, each
      once, in non-increasing priority, cut to the total when that is not zero. */
  lemma AllFailingRuns(definitions: seq<DialerDefinition>, matches: Matcher, request: Request,
                       tried: seq<DialerDefinition>, totalTries: nat)
    requires UniqueIdentifiers(definitions)
    ensures (&& ChosenInTurn(definitions, matches, request, tried)
             && Exhausted(definitions, matches, request, tried, TriesFor(totalTries, definitions))
             && |tried| <= TriesFor(totalTries, definitions))
       <==> (var eligible := Eligible(definitions, matches, request);
             && TopInOrder(tried, eligible)
             && |tried| == (if totalTries == 0 then |eligible| else Min(totalTries, |eligible|)))
  {
    var eligible := Eligible(definitions, matches, request);
    if ChosenInTurn(definitions, matches, request, tried) {
      ChosenIsTop(definitions, matches, request, tried);
    }
    if TopInOrder(tried, eligible) {
      TopIsChosen(definitions, matches, request, tried);
    }
    if TopInOrder(tried, eligible) {
      TriedCount(definitions, matches, request, tried);
      EligibleMembers(definitions, matches, request);
      NothingLeft(definitions, matches, request, tried);
    }
  }

  /** With no limit on the tries, an all-failing run tries every eligible dialer. */
  lemma UnlimitedRunTriesAll(definitions: seq<DialerDefinition>, matches: Matcher, request: Request,
                             tried: seq<DialerDefinition>)
    requires UniqueIdentifiers(definitions)
    requires ChosenInTurn(definitions, matches, request, tried) && |tried| <= |definitions|
    requires Exhausted(definitions, matches, request, tried, |definitions|)
    ensures forall d :: d in tried <==>
      && d in definitions && d.priority >= 0
      && (|| d.requirement.None?
          || (d.requirement.value.urlRegex.Some? && matches(d.requirement.value.urlRegex.value, request.url))
          || request.resourceType in d.requirement.value.resourceTypes)
  {
    AllFailingRuns(definitions, matches, request, tried, 0);
    TriedCount(definitions, matches, request, tried);
    EligibleMembers(definitions, matches, request);
  }

  /** A run that stops early has tried a prefix of some all-failing run. */
  lemma {:induction false} EveryRunExtends(definitions: seq<DialerDefinition>, matches: Matcher, request: Request,
                                           tried: seq<DialerDefinition>, tries: int)
    returns (full: seq<DialerDefinition>)
    requires ChosenInTurn(definitions, matches, request, tried) && |tried| <= tries
    ensures tried <= full && |full| <= tries
    ensures ChosenInTurn(definitions, matches, request, full) && Exhausted(definitions, matches, request, full, tries)
    decreases tries - |tried|
  {
    if Exhausted(definitions, matches, request, tried, tries) {
      full := tried;
    } else {
      var d :| Choosable(definitions, matches, request, Identifiers(tried), d);
      ChosenNext(definitions, matches, request, tried, d);
      full := EveryRunExtends(definitions, matches, request, tried + [d], tries);
    }
  }
}
