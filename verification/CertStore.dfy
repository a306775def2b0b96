/**
 The certificate store's two-level locking (groove/proxy/optimized_storage.go) under any
 number of threads. One step is one mutex-protected block, the return of genCert, or the
 taking or giving back of a host's lock.
 */
module CertStore {
  import opened Prelude

  // A certificate object, told apart by address.
  type Cert = nat

  datatype Task =
    | Idle
    | NeedLock(host: string)
    | Acquire(host: string, lock: nat)
    | LookUp(host: string, lock: nat)
    | Generate(host: string, lock: nat)
    | Store(host: string, lock: nat, cert: Cert)
    | Release(host: string, lock: nat, result: Option<Cert>)

  // What has happened, for stating properties of whole runs.
  datatype Event =
    | GenStarted(host: string)
    | GenFailed(host: string)
    | GenSucceeded(host: string, cert: Cert)
    | Stored(host: string, cert: Cert)
    | Returned(host: string, result: Option<Cert>)

  datatype Shared = Shared(
    certs: map<string, Cert>,
    locks: map<string, nat>,
    nextLock: nat,
    heldBy: map<nat, nat>,
    tasks: seq<Task>,
    log: seq<Event>)

  // generated is what genCert gives, if the step is its return.
  datatype Choice = StartFetch(host: string) | Advance(generated: Option<Cert>)

  datatype Move = Move(thread: nat, choice: Choice)

  function Goto(s: Shared, t: nat, task: Task): Shared
    requires t < |s.tasks|
  {
    s.(tasks := s.tasks[t := task])
  }

  function Logged(s: Shared, event: Event): Shared {
    s.(log := s.log + [event])
  }

  function Next(s: Shared, t: nat, generated: Option<Cert>): Shared
    requires t < |s.tasks|
  {
    match s.tasks[t]
    case Idle => s
    case NeedLock(host) =>
      if host in s.locks then Goto(s, t, Acquire(host, s.locks[host]))
      else Goto(s.(locks := s.locks[host := s.nextLock], nextLock := s.nextLock + 1), t, Acquire(host, s.nextLock))
    case Acquire(host, lock) =>
      if lock in s.heldBy then s else Goto(s.(heldBy := s.heldBy[lock := t]), t, LookUp(host, lock))
    case LookUp(host, lock) =>
      if host in s.certs then Goto(s, t, Release(host, lock, Some(s.certs[host])))
      else Goto(Logged(s, GenStarted(host)), t, Generate(host, lock))
    case Generate(host, lock) => (
      match generated
      case None => Goto(Logged(s, GenFailed(host)), t, Release(host, lock, None))
      case Some(cert) => Goto(Logged(s, GenSucceeded(host, cert)), t, Store(host, lock, cert)))
    case Store(host, lock, cert) =>
      Goto(Logged(s.(certs := s.certs[host := cert]), Stored(host, cert)), t, Release(host, lock, Some(cert)))
    case Release(host, lock, result) =>
      Goto(Logged(s.(heldBy := s.heldBy - {lock}), Returned(host, result)), t, Idle)
  }

  function Step(s: Shared, move: Move): Shared {
    if move.thread >= |s.tasks| then s
    else match move.choice
      case StartFetch(host) => if s.tasks[move.thread].Idle? then Goto(s, move.thread, NeedLock(host)) else s
      case Advance(generated) => Next(s, move.thread, generated)
  }

  function Exec(s: Shared, schedule: seq<Move>): Shared
    decreases |schedule|
  {
    if schedule == [] then s else Exec(Step(s, schedule[0]), schedule[1..])
  }

  function Fresh(threads: nat): Shared {
    Shared(map[], map[], 0, map[], seq(threads, _ => Idle), [])
  }

  // --- The invariant ---

  predicate Holding(task: Task) {
    task.LookUp? || task.Generate? || task.Store? || task.Release?
  }

  predicate HasLock(task: Task) {
    task.Acquire? || Holding(task)
  }

  // Each host has its own lock, and threads use their host's.
  ghost predicate LocksAreSound(s: Shared) {
    && (forall h :: h in s.locks ==> s.locks[h] < s.nextLock)
    && (forall h, k :: h in s.locks && k in s.locks && h != k ==> s.locks[h] != s.locks[k])
    && (forall t :: 0 <= t < |s.tasks| && HasLock(s.tasks[t]) ==>
         s.tasks[t].host in s.locks && s.locks[s.tasks[t].host] == s.tasks[t].lock)
    && (forall t :: 0 <= t < |s.tasks| && Holding(s.tasks[t]) ==>
         s.tasks[t].lock in s.heldBy && s.heldBy[s.tasks[t].lock] == t)
  }

  // No certificate is there yet while one is being made; a result is the certificate that is there.
  ghost predicate CertsAreSound(s: Shared) {
    && (forall t :: 0 <= t < |s.tasks| && (s.tasks[t].Generate? || s.tasks[t].Store?) ==> s.tasks[t].host !in s.certs)
    && (forall t :: 0 <= t < |s.tasks| && s.tasks[t].Release? && s.tasks[t].result.Some? ==>
         s.tasks[t].host in s.certs && s.certs[s.tasks[t].host] == s.tasks[t].result.value)
  }

  ghost predicate Storing(s: Shared, host: string, cert: Cert) {
    exists t :: 0 <= t < |s.tasks| && s.tasks[t].Store? && s.tasks[t].host == host && s.tasks[t].cert == cert
  }

  // What an event in the log says about the present.
  ghost predicate EventHolds(s: Shared, event: Event) {
    match event
    case GenSucceeded(h, c) => (h in s.certs && s.certs[h] == c) || Storing(s, h, c)
    case Stored(h, c) => h in s.certs && s.certs[h] == c
    case Returned(h, result) => result.Some? ==> h in s.certs && s.certs[h] == result.value
    case _ => true
  }

  ghost predicate LogIsSound(s: Shared) {
    && (forall i :: 0 <= i < |s.log| ==> EventHolds(s, s.log[i]))
    && NoStartAfterSuccess(s.log)
    && StoredOnce(s.log)
  }

  ghost predicate NoStartAfterSuccess(log: seq<Event>) {
    forall i, j :: 0 <= i < j < |log| && log[i].GenSucceeded? ==> log[j] != GenStarted(log[i].host)
  }

  ghost predicate StoredOnce(log: seq<Event>) {
    forall i, j :: 0 <= i < j < |log| && log[i].Stored? && log[j].Stored? ==> log[i].host != log[j].host
  }

  ghost predicate Inv(s: Shared) {
    LocksAreSound(s) && CertsAreSound(s) && LogIsSound(s)
  }

  lemma LocksWhenGranted(s: Shared, t: nat)
    requires t < |s.tasks| && LocksAreSound(s) && s.tasks[t].NeedLock?
    ensures LocksAreSound(Next(s, t, None))
  {
    var host := s.tasks[t].host;
    if host !in s.locks {
      NewLockIsSound(s, host);
      GrantIsSound(s.(locks := s.locks[host := s.nextLock], nextLock := s.nextLock + 1), t, host);
    } else {
      GrantIsSound(s, t, host);
    }
  }

  lemma NewLockIsSound(s: Shared, host: string)
    requires LocksAreSound(s) && host !in s.locks
    ensures LocksAreSound(s.(locks := s.locks[host := s.nextLock], nextLock := s.nextLock + 1))
  {
  }

  lemma GrantIsSound(s: Shared, t: nat, host: string)
    requires t < |s.tasks| && LocksAreSound(s) && host in s.locks
    ensures LocksAreSound(Goto(s, t, Acquire(host, s.locks[host])))
  {
  }

  lemma LocksWhenHeldByMoves(s: Shared, t: nat)
    requires t < |s.tasks| && LocksAreSound(s) && (s.tasks[t].Acquire? || s.tasks[t].Release?)
    ensures LocksAreSound(Next(s, t, None))
  {
    var after := Next(s, t, None);
    forall u | 0 <= u < |s.tasks| && u != t && Holding(s.tasks[u])
      ensures s.tasks[u].lock in after.heldBy && after.heldBy[s.tasks[u].lock] == u
    {
      assert s.tasks[u].lock in s.heldBy;
    }
  }

  lemma LocksWhileHolding(s: Shared, t: nat, generated: Option<Cert>)
    requires t < |s.tasks| && LocksAreSound(s) && Holding(s.tasks[t]) && !s.tasks[t].Release?
    ensures LocksAreSound(Next(s, t, generated))
  {
    var after := Next(s, t, generated);
    assert after.locks == s.locks && after.heldBy == s.heldBy && after.nextLock == s.nextLock;
    assert Holding(after.tasks[t]) && after.tasks[t].host == s.tasks[t].host && after.tasks[t].lock == s.tasks[t].lock;
  }

  lemma LocksStaySound(s: Shared, t: nat, generated: Option<Cert>)
    requires t < |s.tasks| && LocksAreSound(s)
    ensures LocksAreSound(Next(s, t, generated))
  {
    if s.tasks[t].NeedLock? {
      LocksWhenGranted(s, t);
    } else if s.tasks[t].Acquire? || s.tasks[t].Release? {
      LocksWhenHeldByMoves(s, t);
    } else if !s.tasks[t].Idle? {
      LocksWhileHolding(s, t, generated);
    }
  }

  // A host's lock object never changes.
  lemma LocksOnlyGrow(s: Shared, t: nat, generated: Option<Cert>)
    requires t < |s.tasks|
    ensures forall h :: h in s.locks ==>
      h in Next(s, t, generated).locks && Next(s, t, generated).locks[h] == s.locks[h]
    ensures s.log <= Next(s, t, generated).log
  {
  }

  // Two threads inside the protected region of one host are the same thread.
  lemma OneHolderPerHost(s: Shared, t: nat, u: nat)
    requires LocksAreSound(s) && t < |s.tasks| && u < |s.tasks|
    requires Holding(s.tasks[t]) && Holding(s.tasks[u]) && s.tasks[t].host == s.tasks[u].host
    ensures t == u
  {
  }

  lemma CertsStaySound(s: Shared, t: nat, generated: Option<Cert>)
    requires t < |s.tasks| && LocksAreSound(s) && CertsAreSound(s)
    ensures CertsAreSound(Next(s, t, generated))
  {
    if s.tasks[t].Store? {
      forall u | 0 <= u < |s.tasks| && (s.tasks[u].Generate? || s.tasks[u].Store?) && s.tasks[u].host == s.tasks[t].host
        ensures u == t
      {
        OneHolderPerHost(s, t, u);
      }
    }
  }

  // A step of t leaves the truth of earlier events alone.
  lemma EventsStayTrue(s: Shared, t: nat, generated: Option<Cert>, event: Event)
    requires t < |s.tasks| && LocksAreSound(s) && CertsAreSound(s) && EventHolds(s, event)
    ensures EventHolds(Next(s, t, generated), event)
  {
    var after := Next(s, t, generated);
    if event.GenSucceeded? && Storing(s, event.host, event.cert) {
      var u :| 0 <= u < |s.tasks| && s.tasks[u].Store? && s.tasks[u].host == event.host &&
          s.tasks[u].cert == event.cert;
      if u != t {
        assert after.tasks[u] == s.tasks[u];
      }
    }
    if s.tasks[t].Store? && event.GenSucceeded? && Storing(s, event.host, event.cert) {
      var u :| 0 <= u < |s.tasks| && s.tasks[u].Store? && s.tasks[u].host == event.host &&
          s.tasks[u].cert == event.cert;
      if event.host == s.tasks[t].host {
        OneHolderPerHost(s, t, u);
      }
    }
  }

  lemma LogStaysSound(s: Shared, t: nat, generated: Option<Cert>)
    requires t < |s.tasks| && Inv(s)
    ensures LogIsSound(Next(s, t, generated))
  {
    var after := Next(s, t, generated);
    forall i | 0 <= i < |s.log|
      ensures EventHolds(after, s.log[i])
    {
      EventsStayTrue(s, t, generated, s.log[i]);
    }
    if s.tasks[t].LookUp? {
      forall i | 0 <= i < |s.log| && s.log[i].GenSucceeded? && s.tasks[t].host !in s.certs
        ensures s.log[i].host != s.tasks[t].host
      {
        assert EventHolds(s, s.log[i]);
        if s.log[i].host == s.tasks[t].host {
          var u :| 0 <= u < |s.tasks| && s.tasks[u].Store? && s.tasks[u].host == s.log[i].host;
          OneHolderPerHost(s, t, u);
        }
      }
    }
    if s.tasks[t].Generate? && generated.Some? {
      assert after.tasks[t] == Store(s.tasks[t].host, s.tasks[t].lock, generated.value);
    }
    if s.tasks[t].Store? {
      forall i | 0 <= i < |s.log| && s.log[i].Stored?
        ensures s.log[i].host != s.tasks[t].host
      {
        assert EventHolds(s, s.log[i]);
      }
    }
  }

  lemma StartKeepsInv(s: Shared, t: nat, host: string)
    requires Inv(s) && t < |s.tasks| && s.tasks[t].Idle?
    ensures Inv(Goto(s, t, NeedLock(host)))
  {
    var after := Goto(s, t, NeedLock(host));
    forall i | 0 <= i < |s.log|
      ensures EventHolds(after, s.log[i])
    {
      assert EventHolds(s, s.log[i]);
      forall u | 0 <= u < |s.tasks| && s.tasks[u].Store?
        ensures after.tasks[u] == s.tasks[u]
      {
      }
    }
  }

  lemma StepKeepsInv(s: Shared, move: Move)
    requires Inv(s)
    ensures Inv(Step(s, move))
    ensures forall h :: h in s.locks ==> h in Step(s, move).locks && Step(s, move).locks[h] == s.locks[h]
    ensures s.log <= Step(s, move).log
  {
    var t := move.thread;
    if t < |s.tasks| {
      match move.choice {
        case Advance(generated) =>
          LocksStaySound(s, t, generated);
          CertsStaySound(s, t, generated);
          LogStaysSound(s, t, generated);
          LocksOnlyGrow(s, t, generated);
        case StartFetch(host) =>
          if s.tasks[t].Idle? {
            StartKeepsInv(s, t, host);
          }
      }
    }
  }

  /** Under every schedule of any number of threads: a host keeps its lock object for ever, no
      generation for a host starts after one succeeded, a host's certificate is stored at most
      once, and every successful fetch for a host returns the stored certificate. */
  lemma {:induction false} EveryScheduleIsSafe(s: Shared, schedule: seq<Move>)
    requires Inv(s)
    ensures Inv(Exec(s, schedule))
    ensures forall h :: h in s.locks ==> h in Exec(s, schedule).locks && Exec(s, schedule).locks[h] == s.locks[h]
    ensures s.log <= Exec(s, schedule).log
    decreases |schedule|
  {
    if schedule != [] {
      StepKeepsInv(s, schedule[0]);
      EveryScheduleIsSafe(Step(s, schedule[0]), schedule[1..]);
    }
  }

  /** From an empty store, spelled out over the log of everything that happened. */
  lemma CertificatesAreMadeOnce(threads: nat, schedule: seq<Move>)
    ensures var s := Exec(Fresh(threads), schedule);
      && (forall i, j :: 0 <= i < j < |s.log| && s.log[i].GenSucceeded? ==> s.log[j] != GenStarted(s.log[i].host))
      && (forall i, j :: 0 <= i < j < |s.log| && s.log[i].Stored? && s.log[j].Stored? ==>
          s.log[i].host != s.log[j].host)
      && (forall i :: 0 <= i < |s.log| && s.log[i].Returned? && s.log[i].result.Some? ==>
           s.log[i].host in s.certs && s.certs[s.log[i].host] == s.log[i].result.value)
  {
    EveryScheduleIsSafe(Fresh(threads), schedule);
    var s := Exec(Fresh(threads), schedule);
    forall i | 0 <= i < |s.log| && s.log[i].Returned? && s.log[i].result.Some?
      ensures s.log[i].host in s.certs && s.certs[s.log[i].host] == s.log[i].result.value
    {
      assert EventHolds(s, s.log[i]);
    }
  }

  /** At every moment at most one thread runs genCert for a host. */
  lemma OneGenerationAtATime(threads: nat, schedule: seq<Move>, t: nat, u: nat)
    requires var s := Exec(Fresh(threads), schedule);
             t < |s.tasks| && u < |s.tasks| && s.tasks[t].Generate? && s.tasks[u].Generate? &&
                 s.tasks[t].host == s.tasks[u].host
    ensures t == u
  {
    EveryScheduleIsSafe(Fresh(threads), schedule);
    OneHolderPerHost(Exec(Fresh(threads), schedule), t, u);
  }

  /** Any two successful fetches of a host, in any run, return the same certificate. */
  lemma FetchesAgree(threads: nat, schedule: seq<Move>, host: string, a: Cert, b: Cert)
    requires var log := Exec(Fresh(threads), schedule).log;
             Returned(host, Some(a)) in log && Returned(host, Some(b)) in log
    ensures a == b
  {
    EveryScheduleIsSafe(Fresh(threads), schedule);
    var s := Exec(Fresh(threads), schedule);
    var i :| 0 <= i < |s.log| && s.log[i] == Returned(host, Some(a));
    var j :| 0 <= j < |s.log| && s.log[j] == Returned(host, Some(b));
    assert EventHolds(s, s.log[i]) && EventHolds(s, s.log[j]);
  }
}
