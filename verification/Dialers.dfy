/**
 Dialer selection (groove/proxy/dialers.go) and the retry loop it drives (RoundTrip in
 groove/proxy/transport.go).
 */
module Dialers {
  import opened Prelude

  // Alternatives of which a request must meet one.
  datatype Requirement = Requirement(urlRegex: Option<string>, resourceTypes: seq<string>)

  datatype DialerDefinition = DialerDefinition(identifier: string, priority: int, requirement: Option<Requirement>)

  datatype Request = Request(url: string, resourceType: string)

  // Regular-expression matching: pattern, text.
  type Matcher = (string, string) -> bool

  predicate IsRequestValid(matches: Matcher, requirement: Requirement, request: Request) {
    || (requirement.urlRegex.Some? && matches(requirement.urlRegex.value, request.url))
    || request.resourceType in requirement.resourceTypes
  }

  predicate Accepts(matches: Matcher, dialer: DialerDefinition, request: Request) {
    dialer.requirement.None? || IsRequestValid(matches, dialer.requirement.value, request)
  }

  function CandidateDialers(definitions: seq<DialerDefinition>, matches: Matcher, request: Request,
                            attempted: seq<string>)
    : seq<DialerDefinition>
  {
    Filter(Filter(definitions, (d: DialerDefinition) => Accepts(matches, d, request)),
           (d: DialerDefinition) => d.identifier !in attempted)
  }

  // The dialers NextDialer may pick: candidates whose priority is not below 0 nor below another candidate's.
  ghost predicate Choosable(definitions: seq<DialerDefinition>, matches: Matcher, request: Request,
                            attempted: seq<string>, dialer: DialerDefinition)
  {
    && dialer in CandidateDialers(definitions, matches, request, attempted)
    && dialer.priority >= 0
    && forall d :: d in CandidateDialers(definitions, matches, request, attempted) ==> d.priority <= dialer.priority
  }

  lemma CandidateMembers(definitions: seq<DialerDefinition>, matches: Matcher, request: Request, attempted: seq<string>)
    ensures forall d :: d in CandidateDialers(definitions, matches, request, attempted) <==>
      && d in definitions && d.identifier !in attempted
      && (|| d.requirement.None?
          || (d.requirement.value.urlRegex.Some? && matches(d.requirement.value.urlRegex.value, request.url))
          || request.resourceType in d.requirement.value.resourceTypes)
  {
    var accepts := (d: DialerDefinition) => Accepts(matches, d, request);
    FilterMembers(definitions, accepts);
    FilterMembers(Filter(definitions, accepts), (d: DialerDefinition) => d.identifier !in attempted);
  }

  class DialerContext {
    const request: Request
    var attemptedDialIdentifiers: seq<string>
    var remainingTries: int

    constructor (request: Request, totalTries: int)
      ensures this.request == request && attemptedDialIdentifiers == [] && remainingTries == totalTries
    {
      this.request := request;
      attemptedDialIdentifiers, remainingTries := [], totalTries;
    }
  }

  class DialerSession {
    const matches: Matcher
    var dialerDefinitions: seq<DialerDefinition>
    var totalTries: int

    constructor (matches: Matcher)
      ensures this.matches == matches && dialerDefinitions == [] && totalTries == 0
    {
      this.matches := matches;
      dialerDefinitions, totalTries := [], 0;
    }

    // A context starts with the configured tries; zero stands for one per definition.
    method NewDialerContext(request: Request) returns (context: DialerContext)
      ensures fresh(context) && context.request == request
      ensures context.attemptedDialIdentifiers == []
      ensures context.remainingTries == if totalTries == 0 then |dialerDefinitions| else totalTries
    {
      var tries := totalTries;
      if tries == 0 {
        tries := |dialerDefinitions|;
      }
      context := new DialerContext(request, tries);
    }

    /** Picks any choosable dialer, for every possible random draw, and records the attempt;
        returns none, changing nothing, exactly when tries or choosable dialers have run out. */
    method NextDialer(context: DialerContext) returns (dialer: Option<DialerDefinition>)
      modifies context
      ensures dialer.None? <==>
        || old(context.remainingTries) <= 0
        || !exists d :: Choosable(dialerDefinitions, matches, context.request, old(context.attemptedDialIdentifiers), d)
      ensures dialer.None? ==> unchanged(context)
      ensures dialer.Some? ==>
        && Choosable(dialerDefinitions, matches, context.request, old(context.attemptedDialIdentifiers), dialer.value)
        && context.attemptedDialIdentifiers == old(context.attemptedDialIdentifiers) + [dialer.value.identifier]
        && context.remainingTries == old(context.remainingTries) - 1
    {
      if context.remainingTries <= 0 {
        return None;
      }
      var candidates := CandidateDialers(dialerDefinitions, matches, context.request, context.attemptedDialIdentifiers);
      var maxPriority := 0;
      for i := 0 to |candidates|
        invariant 0 <= maxPriority
        invariant forall j :: 0 <= j < i ==> candidates[j].priority <= maxPriority
        invariant maxPriority == 0 || exists j :: 0 <= j < i && candidates[j].priority == maxPriority
      {
        if candidates[i].priority > maxPriority {
          maxPriority := candidates[i].priority;
        }
      }
      var hasMaxPriority := (d: DialerDefinition) => d.priority == maxPriority;
      var maxPriorityDialers := FilterSlice(candidates, hasMaxPriority);
      FilterMembers(candidates, hasMaxPriority);
      assert forall d :: d in candidates ==> d.priority <= maxPriority;
      assert forall d :: (Choosable(dialerDefinitions, matches, context.request, context.attemptedDialIdentifiers, d)
                          <==> d in maxPriorityDialers);
      if |maxPriorityDialers| == 0 {
        return None;
      }
      var draw :| 0 <= draw < |maxPriorityDialers|;
      var chosen := maxPriorityDialers[draw];
      assert chosen in maxPriorityDialers;
      context.remainingTries := context.remainingTries - 1;
      context.attemptedDialIdentifiers := context.attemptedDialIdentifiers + [chosen.identifier];
      dialer := Some(chosen);
    }
  }

  // What came of one attempt; the last alternative carries the status code.
  datatype Outcome = ProtocolUnsolved | TransportUnsolved | RequestFailed | Responded(status: int)

  function Identifiers(dialers: seq<DialerDefinition>): (ids: seq<string>)
    ensures |ids| == |dialers|
    ensures forall i :: 0 <= i < |dialers| ==> ids[i] == dialers[i].identifier
  {
    seq(|dialers|, i requires 0 <= i < |dialers| => dialers[i].identifier)
  }

  ghost predicate NoRepeats(tried: seq<DialerDefinition>) {
    forall i, j :: 0 <= i < j < |tried| ==> tried[i].identifier != tried[j].identifier
  }

  // Each dialer tried was choosable after those before it.
  ghost predicate ChosenInTurn(definitions: seq<DialerDefinition>, matches: Matcher, request: Request,
                               tried: seq<DialerDefinition>)
  {
    forall i :: 0 <= i < |tried| ==>
      Choosable(definitions, matches, request, Identifiers(tried[..i]), tried[i])
  }

  // Nothing is left to choose, or the tries are used up.
  ghost predicate Exhausted(definitions: seq<DialerDefinition>, matches: Matcher, request: Request,
                            tried: seq<DialerDefinition>, tries: int)
  {
    || |tried| >= tries
    || !exists d :: Choosable(definitions, matches, request, Identifiers(tried), d)
  }

  // Dialer i of those tried was choosable, after those before it, from the definitions then in force.
  ghost predicate ChosenThen(initial: seq<DialerDefinition>, replacements: nat -> Option<seq<DialerDefinition>>,
                             matches: Matcher, request: Request, tried: seq<DialerDefinition>, i: nat)
    requires i < |tried|
  {
    Choosable(InForce(initial, replacements, i), matches, request, Identifiers(tried[..i]), tried[i])
  }

  ghost predicate ChosenInForce(initial: seq<DialerDefinition>, replacements: nat -> Option<seq<DialerDefinition>>,
                                matches: Matcher, request: Request, tried: seq<DialerDefinition>)
  {
    forall i :: 0 <= i < |tried| ==> ChosenThen(initial, replacements, matches, request, tried, i)
  }

  // The definitions that attempt n chooses from, replacements(n) being installed just before it if present.
  function InForce(initial: seq<DialerDefinition>, replacements: nat -> Option<seq<DialerDefinition>>, n: nat)
    : seq<DialerDefinition>
  {
    match replacements(n)
    case Some(definitions) => definitions
    case None => if n == 0 then initial else InForce(initial, replacements, n - 1)
  }

  lemma {:induction false} NeverReplaced(initial: seq<DialerDefinition>,
                                         replacements: nat -> Option<seq<DialerDefinition>>, n: nat)
    requires forall i :: 0 <= i <= n ==> replacements(i) == None
    ensures InForce(initial, replacements, n) == initial
  {
    if n > 0 {
      NeverReplaced(initial, replacements, n - 1);
    }
  }

  /** With definitions that are never replaced, the dialers tried are chosen in turn from them. */
  lemma ChosenFromFixed(initial: seq<DialerDefinition>, replacements: nat -> Option<seq<DialerDefinition>>,
                        matches: Matcher, request: Request, tried: seq<DialerDefinition>, tries: int)
    requires forall i :: replacements(i) == None
    ensures ChosenInForce(initial, replacements, matches, request, tried)
       <==> ChosenInTurn(initial, matches, request, tried)
    ensures Exhausted(InForce(initial, replacements, |tried|), matches, request, tried, tries)
       <==> Exhausted(initial, matches, request, tried, tries)
  {
    forall n: nat
      ensures InForce(initial, replacements, n) == initial
    {
      NeverReplaced(initial, replacements, n);
    }
    if ChosenInForce(initial, replacements, matches, request, tried) {
      forall i | 0 <= i < |tried|
        ensures Choosable(initial, matches, request, Identifiers(tried[..i]), tried[i])
      {
        assert ChosenThen(initial, replacements, matches, request, tried, i);
      }
    }
  }

  /** The retry loop. outcomes(i) is what comes of attempt i; replacements(i), when present, is the
      definition list a controller installs just before attempt i. The loop ends after at most the
      initial number of tries and repeats no identifier. It returns the first response with a
      status of 200 to 399, made by the last attempt; it returns the exhausted error only when no
      attempt had such a response and neither a try nor a dialer then in force is left. */
  method RoundTrip(session: DialerSession, request: Request, outcomes: nat -> Outcome,
                   replacements: nat -> Option<seq<DialerDefinition>>)
    returns (status: Option<int>, ghost tried: seq<DialerDefinition>)
    modifies session
    ensures NoRepeats(tried)
    ensures status.Some? ==>
      |tried| > 0 && outcomes(|tried| - 1) == Responded(status.value) && 200 <= status.value < 400
    ensures forall i :: 0 <= i < |tried| && outcomes(i).Responded? && 200 <= outcomes(i).status < 400 ==>
      i == |tried| - 1 && status == Some(outcomes(i).status)
    ensures ChosenInForce(old(session.dialerDefinitions), replacements, session.matches, request, tried)
    ensures var tries := if old(session.totalTries) == 0 then |old(session.dialerDefinitions)|
        else old(session.totalTries);
            && |tried| <= (if tries > 0 then tries else 0)
            && (status.None? ==>
                 var definitions := InForce(old(session.dialerDefinitions), replacements, |tried|);
                 Exhausted(definitions, session.matches, request, tried, tries))
  {
    var context := session.NewDialerContext(request);
    ghost var definitions := session.dialerDefinitions;
    ghost var tries := context.remainingTries;
    tried := [];
    status := None;
    var attempt: nat := 0;
    while status.None?
      invariant fresh(context) && context.request == request
      invariant attempt == |tried| && context.remainingTries == tries - attempt
      invariant attempt > 0 ==> attempt <= tries
      invariant context.attemptedDialIdentifiers == Identifiers(tried)
      invariant NoRepeats(tried)
      invariant status.Some? ==>
        attempt > 0 && outcomes(attempt - 1) == Responded(status.value) && 200 <= status.value < 400
      invariant forall i :: 0 <= i < attempt && outcomes(i).Responded? && 200 <= outcomes(i).status < 400 ==>
        i == attempt - 1 && status == Some(outcomes(i).status)
      invariant session.dialerDefinitions ==
        if attempt == 0 then definitions else InForce(definitions, replacements, attempt - 1)
      invariant ChosenInForce(definitions, replacements, session.matches, request, tried)
      decreases status.None?, context.remainingTries
    {
      if replacements(attempt).Some? {
        session.dialerDefinitions := replacements(attempt).value;
      }
      var dialer := session.NextDialer(context);
      if dialer.None? {
        return;
      }
      assert session.dialerDefinitions == InForce(definitions, replacements, attempt);
      NewIdentifier(session.dialerDefinitions, session.matches, request, tried, dialer.value);
      TriedNext(definitions, replacements, session.matches, request, tried, dialer.value);
      tried := tried + [dialer.value];
      if outcomes(attempt).Responded? && 200 <= outcomes(attempt).status < 400 {
        status := Some(outcomes(attempt).status);
      }
      attempt := attempt + 1;
    }
  }

  lemma NewIdentifier(definitions: seq<DialerDefinition>, matches: Matcher, request: Request,
                      tried: seq<DialerDefinition>, next: DialerDefinition)
    requires Choosable(definitions, matches, request, Identifiers(tried), next) && NoRepeats(tried)
    ensures NoRepeats(tried + [next])
    ensures Identifiers(tried + [next]) == Identifiers(tried) + [next.identifier]
  {
    CandidateMembers(definitions, matches, request, Identifiers(tried));
    forall i | 0 <= i < |tried|
      ensures tried[i].identifier != next.identifier
    {
      assert Identifiers(tried)[i] in Identifiers(tried);
    }
  }

  lemma ChosenStays(initial: seq<DialerDefinition>, replacements: nat -> Option<seq<DialerDefinition>>,
                    matches: Matcher, request: Request, tried: seq<DialerDefinition>, next: DialerDefinition, i: nat)
    requires i <= |tried|
    requires if i < |tried| then ChosenThen(initial, replacements, matches, request, tried, i)
             else Choosable(InForce(initial, replacements, i), matches, request, Identifiers(tried), next)
    ensures ChosenThen(initial, replacements, matches, request, tried + [next], i)
  {
    assert (tried + [next])[..i] == if i < |tried| then tried[..i] else tried;
  }

  lemma TriedNext(initial: seq<DialerDefinition>, replacements: nat -> Option<seq<DialerDefinition>>,
                  matches: Matcher, request: Request, tried: seq<DialerDefinition>, next: DialerDefinition)
    requires Choosable(InForce(initial, replacements, |tried|), matches, request, Identifiers(tried), next)
    requires ChosenInForce(initial, replacements, matches, request, tried)
    ensures ChosenInForce(initial, replacements, matches, request, tried + [next])
  {
    forall i: nat | i <= |tried|
      ensures ChosenThen(initial, replacements, matches, request, tried + [next], i)
    {
      ChosenStays(initial, replacements, matches, request, tried, next, i);
    }
  }

  lemma ChosenNext(definitions: seq<DialerDefinition>, matches: Matcher, request: Request,
                   tried: seq<DialerDefinition>, next: DialerDefinition)
    requires Choosable(definitions, matches, request, Identifiers(tried), next)
    requires ChosenInTurn(definitions, matches, request, tried)
    ensures ChosenInTurn(definitions, matches, request, tried + [next])
  {
    var longer := tried + [next];
    forall i | 0 <= i < |longer|
      ensures Choosable(definitions, matches, request, Identifiers(longer[..i]), longer[i])
    {
      if i < |tried| {
        assert longer[..i] == tried[..i];
      } else {
        assert longer[..i] == tried;
      }
    }
  }
}
