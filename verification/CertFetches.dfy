/**
 What a Fetch returns, in every run: nothing only when its own genCert failed, and the stored
 certificate from the moment there is one.
 */
module CertFetches {
  import opened Prelude
  import opened CertStore

  // The latest event about host.
  function Last(log: seq<Event>, host: string): Option<Event> {
    if log == [] then None
    else if log[|log| - 1].host == host then Some(log[|log| - 1])
    else Last(log[..|log| - 1], host)
  }

  // What a thread inside host's protected region has logged last, nobody else having logged about host since.
  ghost predicate Follows(s: Shared, task: Task) {
    match task
    case Generate(h, _) => Last(s.log, h) == Some(GenStarted(h))
    case Store(h, _, c) => Last(s.log, h) == Some(GenSucceeded(h, c))
    case Release(h, _, None) => h !in s.certs && Last(s.log, h) == Some(GenFailed(h))
    case _ => true
  }

  // A failed fetch comes right after the failure of its generation, among the events of its host.
  ghost predicate FailuresFollow(log: seq<Event>) {
    forall j :: 0 <= j < |log| && log[j].Returned? && log[j].result.None? ==>
      Last(log[..j], log[j].host) == Some(GenFailed(log[j].host))
  }

  // Once a certificate is stored, every fetch of its host returns it.
  ghost predicate HitsReturnStored(log: seq<Event>) {
    forall i, j :: 0 <= i < j < |log| && log[i].Stored? && log[j].Returned? && log[j].host == log[i].host ==>
      log[j].result == Some(log[i].cert)
  }

  ghost predicate FetchInv(s: Shared) {
    && Inv(s)
    && (forall t :: 0 <= t < |s.tasks| ==> Follows(s, s.tasks[t]))
    && FailuresFollow(s.log) && HitsReturnStored(s.log)
  }

  lemma LastAppend(log: seq<Event>, event: Event, host: string)
    ensures Last(log + [event], host) == if event.host == host then Some(event) else Last(log, host)
  {
    assert (log + [event])[..|log|] == log;
  }

  // The step of t logs the event, or nothing.
  function LoggedBy(s: Shared, t: nat, generated: Option<Cert>): seq<Event>
    requires t < |s.tasks|
  {
    match s.tasks[t]
    case LookUp(h, _) => if h in s.certs then [] else [GenStarted(h)]
    case Generate(h, _) => (match generated case None => [GenFailed(h)] case Some(c) => [GenSucceeded(h, c)])
    case Store(h, _, c) => [Stored(h, c)]
    case Release(h, _, result) => [Returned(h, result)]
    case _ => []
  }

  lemma StepLogs(s: Shared, t: nat, generated: Option<Cert>)
    requires t < |s.tasks|
    ensures Next(s, t, generated).log == s.log + LoggedBy(s, t, generated)
    ensures LoggedBy(s, t, generated) != [] ==> LoggedBy(s, t, generated)[0].host == s.tasks[t].host
    ensures |LoggedBy(s, t, generated)| <= 1
  {
  }

  lemma LastIgnores(log: seq<Event>, logged: seq<Event>, host: string)
    requires |logged| <= 1 && (logged != [] ==> logged[0].host != host)
    ensures Last(log + logged, host) == Last(log, host)
  {
    if logged == [] {
      assert log + logged == log;
    } else {
      LastAppend(log, logged[0], host);
      assert logged == [logged[0]];
    }
  }

  lemma CertsElsewhere(s: Shared, t: nat, generated: Option<Cert>, host: string)
    requires t < |s.tasks| && (Holding(s.tasks[t]) ==> s.tasks[t].host != host)
    ensures host in Next(s, t, generated).certs <==> host in s.certs
    ensures LoggedBy(s, t, generated) != [] ==> LoggedBy(s, t, generated)[0].host != host
  {
  }

  // A step inside one host's region leaves other hosts' events and certificates alone.
  lemma StepElsewhere(s: Shared, t: nat, generated: Option<Cert>, host: string)
    requires t < |s.tasks| && (Holding(s.tasks[t]) ==> s.tasks[t].host != host)
    ensures Last(Next(s, t, generated).log, host) == Last(s.log, host)
    ensures host in Next(s, t, generated).certs <==> host in s.certs
  {
    StepLogs(s, t, generated);
    CertsElsewhere(s, t, generated, host);
    LastIgnores(s.log, LoggedBy(s, t, generated), host);
  }

  lemma OthersFollow(s: Shared, t: nat, generated: Option<Cert>, u: nat)
    requires LocksAreSound(s) && t < |s.tasks| && u < |s.tasks| && u != t && Follows(s, s.tasks[u])
    ensures Follows(Next(s, t, generated), s.tasks[u])
  {
    if Holding(s.tasks[u]) {
      if Holding(s.tasks[t]) && s.tasks[t].host == s.tasks[u].host {
        OneHolderPerHost(s, t, u);
      } else {
        StepElsewhere(s, t, generated, s.tasks[u].host);
      }
    }
  }

  lemma StepperFollows(s: Shared, t: nat, generated: Option<Cert>)
    requires FetchInv(s) && t < |s.tasks|
    ensures t < |Next(s, t, generated).tasks| && Follows(Next(s, t, generated), Next(s, t, generated).tasks[t])
  {
    StepLogs(s, t, generated);
    if LoggedBy(s, t, generated) != [] {
      LastAppend(s.log, LoggedBy(s, t, generated)[0], s.tasks[t].host);
      assert LoggedBy(s, t, generated) == [LoggedBy(s, t, generated)[0]];
    }
  }

  lemma LogGrowsSound(s: Shared, t: nat, generated: Option<Cert>)
    requires FetchInv(s) && t < |s.tasks|
    ensures FailuresFollow(Next(s, t, generated).log) && HitsReturnStored(Next(s, t, generated).log)
  {
    var log := Next(s, t, generated).log;
    StepLogs(s, t, generated);
    assert Follows(s, s.tasks[t]);
    forall j | 0 <= j < |log| && log[j].Returned? && log[j].result.None?
      ensures Last(log[..j], log[j].host) == Some(GenFailed(log[j].host))
    {
      assert log[..j] == s.log[..j];
      assert j == |s.log| ==> log[..j] == s.log;
    }
    forall i, j | 0 <= i < j < |log| && log[i].Stored? && log[j].Returned? && log[j].host == log[i].host
      ensures log[j].result == Some(log[i].cert)
    {
      assert log[i] == s.log[i] && EventHolds(s, s.log[i]);
    }
  }

  lemma StartKeepsFetchInv(s: Shared, t: nat, host: string)
    requires FetchInv(s) && t < |s.tasks| && s.tasks[t].Idle?
    ensures FetchInv(Goto(s, t, NeedLock(host)))
  {
    var after := Goto(s, t, NeedLock(host));
    StartKeepsInv(s, t, host);
    forall u | 0 <= u < |after.tasks|
      ensures Follows(after, after.tasks[u])
    {
      assert u != t ==> Follows(s, s.tasks[u]);
    }
  }

  lemma AllFollow(s: Shared, t: nat, generated: Option<Cert>, after: Shared)
    requires FetchInv(s) && t < |s.tasks| && after == Next(s, t, generated)
    ensures forall u :: 0 <= u < |after.tasks| ==> Follows(after, after.tasks[u])
  {
    OthersStay(s, t, generated);
    StepperFollows(s, t, generated);
    forall u | 0 <= u < |after.tasks|
      ensures Follows(after, after.tasks[u])
    {
      if u != t {
        OthersFollow(s, t, generated, u);
      }
    }
  }

  lemma OthersStay(s: Shared, t: nat, generated: Option<Cert>)
    requires t < |s.tasks|
    ensures |Next(s, t, generated).tasks| == |s.tasks|
    ensures forall u :: 0 <= u < |s.tasks| && u != t ==> Next(s, t, generated).tasks[u] == s.tasks[u]
  {
  }

  lemma StepKeepsFetchInv(s: Shared, move: Move)
    requires FetchInv(s)
    ensures FetchInv(Step(s, move))
  {
    var t := move.thread;
    if t < |s.tasks| {
      match move.choice {
        case StartFetch(host) =>
          if s.tasks[t].Idle? {
            StartKeepsFetchInv(s, t, host);
          }
        case Advance(generated) =>
          StepKeepsInv(s, move);
          LogGrowsSound(s, t, generated);
          AllFollow(s, t, generated, Step(s, move));
      }
    }
  }

  lemma {:induction false} EveryRunKeepsFetchInv(s: Shared, schedule: seq<Move>)
    requires FetchInv(s)
    ensures FetchInv(Exec(s, schedule))
    decreases |schedule|
  {
    if schedule != [] {
      StepKeepsFetchInv(s, schedule[0]);
      EveryRunKeepsFetchInv(Step(s, schedule[0]), schedule[1..]);
    }
  }

  // --- What callers see ---

  function Failures(log: seq<Event>, host: string): nat {
    if log == [] then 0 else
      Failures(log[..|log| - 1], host) + (if log[|log| - 1] == GenFailed(host) then 1 else 0)
  }

  function EmptyReturns(log: seq<Event>, host: string): nat {
    if log == [] then 0 else
      EmptyReturns(log[..|log| - 1], host) + (if log[|log| - 1] == Returned(host, None) then 1 else 0)
  }

  // Each failed fetch uses up a failed generation.
  lemma {:induction false} FailuresCover(log: seq<Event>, host: string)
    requires FailuresFollow(log)
    ensures EmptyReturns(log, host) + (if Last(log, host) == Some(GenFailed(host)) then 1 else 0) <= Failures(log, host)
  {
    if log != [] {
      var earlier := log[..|log| - 1];
      assert forall j :: 0 <= j <= |earlier| ==> log[..j] == earlier[..j];
      FailuresCover(earlier, host);
      assert earlier[..|earlier|] == earlier;
    }
  }

  /** A Fetch fails only when its own genCert failed: of the events of its host, the one right
      before its failure is that of a generation, so that at every moment there have been at most
      as many failed fetches of a host as failed generations for it. */
  lemma FailedFetchesFailedToGenerate(threads: nat, schedule: seq<Move>, n: nat, host: string)
    requires n <= |Exec(Fresh(threads), schedule).log|
    ensures var log := Exec(Fresh(threads), schedule).log;
            && (n < |log| && log[n] == Returned(host, None) ==> Last(log[..n], host) == Some(GenFailed(host)))
            && EmptyReturns(log[..n], host) <= Failures(log[..n], host)
  {
    var log := Exec(Fresh(threads), schedule).log;
    EveryRunKeepsFetchInv(Fresh(threads), schedule);
    assert forall j :: 0 <= j < n ==> log[..n][..j] == log[..j];
    FailuresCover(log[..n], host);
  }

  /** Once a certificate is stored, every later return of a Fetch of its host is that
      certificate. */
  lemma StoredIsReturned(threads: nat, schedule: seq<Move>, i: nat, j: nat, host: string, cert: Cert,
                         result: Option<Cert>)
    requires var log := Exec(Fresh(threads), schedule).log;
             i < j < |log| && log[i] == Stored(host, cert) && log[j] == Returned(host, result)
    ensures result == Some(cert)
  {
    EveryRunKeepsFetchInv(Fresh(threads), schedule);
  }

  // --- A Fetch alone ---

  function Four(move: Move): seq<Move> {
    [move, move, move, move]
  }

  // A Fetch by t, whose genCert gives generated if it is called, with time to end.
  function Fetch(t: nat, host: string, generated: Option<Cert>): seq<Move> {
    var go := Move(t, Advance(generated));
    [Move(t, StartFetch(host)), go, go] + Four(go)
  }

  // The lock object of host, or the one it will get.
  function LockOf(s: Shared, host: string): nat {
    if host in s.locks then s.locks[host] else s.nextLock
  }

  // What a Fetch alone logs.
  function FetchEvents(certs: map<string, Cert>, host: string, generated: Option<Cert>): seq<Event> {
    if host in certs then [Returned(host, Some(certs[host]))]
    else match generated
      case None => [GenStarted(host), GenFailed(host), Returned(host, None)]
      case Some(c) => [GenStarted(host), GenSucceeded(host, c), Stored(host, c), Returned(host, Some(c))]
  }

  // What a Fetch alone makes of the store, from the look-up on.
  ghost predicate FetchedFrom(s: Shared, t: nat, host: string, generated: Option<Cert>, after: Shared)
    requires t < |s.tasks|
  {
    && after.log == s.log + FetchEvents(s.certs, host, generated)
    && after.certs == (if host !in s.certs && generated.Some? then s.certs[host := generated.value] else s.certs)
    && after.tasks == s.tasks[t := Idle] && after.locks == s.locks
  }

  // From the look-up on, the lock being t's.
  lemma FromLookUp(s: Shared, t: nat, host: string, lock: nat, generated: Option<Cert>) returns (after: Shared)
    requires t < |s.tasks| && s.tasks[t] == LookUp(host, lock)
    ensures after == Exec(s, Four(Move(t, Advance(generated))))
    ensures FetchedFrom(s, t, host, generated, after) && after.heldBy == s.heldBy - {lock}
  {
    ExecFour(s, Move(t, Advance(generated)));
    if host in s.certs || generated.None? {
      after := WithoutStoring(s, t, host, lock, generated);
    } else {
      after := WithStoring(s, t, host, lock, generated.value);
    }
  }

  lemma WithoutStoring(s: Shared, t: nat, host: string, lock: nat, generated: Option<Cert>) returns (after: Shared)
    requires t < |s.tasks| && s.tasks[t] == LookUp(host, lock) && (host in s.certs || generated.None?)
    ensures var go := Move(t, Advance(generated)); after == Step(Step(Step(Step(s, go), go), go), go)
    ensures FetchedFrom(s, t, host, generated, after) && after.heldBy == s.heldBy - {lock}
  {
    var go := Move(t, Advance(generated));
    var one := Step(s, go);
    var two := Step(one, go);
    var three := Step(two, go);
    after := Step(three, go);
    if host in s.certs {
      assert one.tasks[t] == Release(host, lock, Some(s.certs[host]));
      assert three == two;
    } else {
      assert two.tasks[t] == Release(host, lock, None);
      assert three.log == s.log + FetchEvents(s.certs, host, generated);
    }
  }

  lemma WithStoring(s: Shared, t: nat, host: string, lock: nat, cert: Cert) returns (after: Shared)
    requires t < |s.tasks| && s.tasks[t] == LookUp(host, lock) && host !in s.certs
    ensures var go := Move(t, Advance(Some(cert))); after == Step(Step(Step(Step(s, go), go), go), go)
    ensures FetchedFrom(s, t, host, Some(cert), after) && after.heldBy == s.heldBy - {lock}
  {
    var go := Move(t, Advance(Some(cert)));
    var two := Step(Step(s, go), go);
    assert two.tasks[t] == Store(host, lock, cert);
    var three := Step(two, go);
    assert three.log == s.log + [GenStarted(host), GenSucceeded(host, cert), Stored(host, cert)];
    after := Step(three, go);
  }

  /** A Fetch that runs alone ends. When the certificate is stored it returns that one and
      generates nothing; otherwise it generates once and returns what it stored, or fails with
      the generation and stores nothing. */
  lemma FetchAlone(s: Shared, t: nat, host: string, generated: Option<Cert>)
    requires t < |s.tasks| && s.tasks[t].Idle? && LockOf(s, host) !in s.heldBy
    ensures var after := Exec(s, Fetch(t, host, generated));
            && after.log == s.log + FetchEvents(s.certs, host, generated)
            && after.certs
               == (if host !in s.certs && generated.Some? then s.certs[host := generated.value] else s.certs)
            && after.tasks == s.tasks && after.heldBy == s.heldBy
            && after.locks == s.locks[host := LockOf(s, host)]
  {
    var lock := LockOf(s, host);
    var looking := ToLookUp(s, t, host, generated);
    var after := FromLookUp(looking, t, host, lock, generated);
    assert s.heldBy[lock := t] - {lock} == s.heldBy;
  }

  // Up to the look-up, the lock being free.
  lemma ToLookUp(s: Shared, t: nat, host: string, generated: Option<Cert>) returns (looking: Shared)
    requires t < |s.tasks| && s.tasks[t].Idle? && LockOf(s, host) !in s.heldBy
    ensures var go := Move(t, Advance(generated));
            forall rest :: Exec(s, [Move(t, StartFetch(host)), go, go] + rest) == Exec(looking, rest)
    ensures looking.tasks == s.tasks[t := LookUp(host, LockOf(s, host))]
    ensures looking.locks == s.locks[host := LockOf(s, host)] && looking.heldBy == s.heldBy[LockOf(s, host) := t]
    ensures looking.certs == s.certs && looking.log == s.log
  {
    var lock, go := LockOf(s, host), Move(t, Advance(generated));
    var needing := Goto(s, t, NeedLock(host));
    var acquiring := Next(needing, t, generated);
    looking := Next(acquiring, t, generated);
    assert acquiring.tasks == s.tasks[t := Acquire(host, lock)] && acquiring.locks == s.locks[host := lock];
    forall rest
      ensures Exec(s, [Move(t, StartFetch(host)), go, go] + rest) == Exec(looking, rest)
    {
      ExecThree(s, Move(t, StartFetch(host)), go, go, rest);
    }
  }

  lemma ExecThree(s: Shared, a: Move, b: Move, c: Move, rest: seq<Move>)
    ensures Exec(s, [a, b, c] + rest) == Exec(Step(Step(Step(s, a), b), c), rest)
  {
    var one, two := Step(s, a), Step(Step(s, a), b);
    assert ([a, b, c] + rest)[1..] == [b, c] + rest && ([b, c] + rest)[1..] == [c] + rest && ([c] + rest)[1..] == rest;
    assert Exec(s, [a, b, c] + rest) == Exec(one, [b, c] + rest) == Exec(two, [c] + rest);
  }

  lemma ExecFour(s: Shared, move: Move)
    ensures Exec(s, Four(move)) == Step(Step(Step(Step(s, move), move), move), move)
  {
    var last := Step(Step(Step(s, move), move), move);
    ExecThree(s, move, move, move, [move]);
    assert [move, move, move] + [move] == Four(move);
    assert Exec(last, [move]) == Exec(Step(last, move), []);
  }
}
