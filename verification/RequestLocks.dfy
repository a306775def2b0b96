/**
 Per-URL request locks (AcquireRequestLock and ReleaseRequestLock in groove/proxy/cache.go),
 in a fixed mode other than off, under any number of threads. The release is two steps, TryLock
 and Unlock, and any thread may start it; holds is the set of URLs whose lock a thread has
 acquired and not yet released itself.
 */
module RequestLocks {
  datatype Phase =
    | Ready
    | GetLock(url: string)
    | CountIn(url: string, lock: nat)
    | Wait(url: string, lock: nat)
    | CountOut(url: string, lock: nat)
    | TryLock(url: string, lock: nat)
    | Unlock(url: string, lock: nat)

  datatype Thread = Thread(phase: Phase, holds: set<string>)

  // crashed: some Unlock found its mutex unlocked, which ends the process.
  datatype Shared = Shared(
    inflight: map<string, nat>,
    nextLock: nat,
    locked: set<nat>,
    blocking: map<string, int>,
    threads: seq<Thread>,
    crashed: bool)

  datatype Choice = StartAcquire(url: string) | StartRelease(url: string) | Advance

  datatype Move = Move(thread: nat, choice: Choice)

  function Goto(s: Shared, t: nat, thread: Thread): Shared
    requires t < |s.threads|
  {
    s.(threads := s.threads[t := thread])
  }

  // Requests blocked on url as the counter has it.
  function Blocked(s: Shared, url: string): int {
    if url in s.blocking then s.blocking[url] else 0
  }

  function NextAcquiring(s: Shared, t: nat): Shared
    requires t < |s.threads|
  {
    var thread := s.threads[t];
    match thread.phase
    case GetLock(url) =>
      if url in s.inflight then Goto(s, t, thread.(phase := CountIn(url, s.inflight[url])))
      else Goto(s.(inflight := s.inflight[url := s.nextLock], nextLock := s.nextLock + 1), t,
          thread.(phase := CountIn(url, s.nextLock)))
    case CountIn(url, lock) =>
      Goto(s.(blocking := s.blocking[url := Blocked(s, url) + 1]), t, thread.(phase := Wait(url, lock)))
    case Wait(url, lock) =>
      if lock in s.locked then s
      else Goto(s.(locked := s.locked + {lock}), t, Thread(CountOut(url, lock), thread.holds + {url}))
    case CountOut(url, lock) =>
      Goto(s.(blocking := s.blocking[url := Blocked(s, url) - 1]), t, thread.(phase := Ready))
    case _ => s
  }

  function NextReleasing(s: Shared, t: nat): Shared
    requires t < |s.threads|
  {
    var thread := s.threads[t];
    match thread.phase
    case TryLock(url, lock) =>
      Goto(s.(locked := s.locked + {lock}), t, thread.(phase := Unlock(url, lock)))
    case Unlock(url, lock) =>
      if lock in s.locked then Goto(s.(locked := s.locked - {lock}), t, Thread(Ready, thread.holds - {url}))
      else s.(crashed := true)
    case _ => s
  }

  function Next(s: Shared, t: nat): Shared
    requires t < |s.threads|
  {
    if s.threads[t].phase.TryLock? || s.threads[t].phase.Unlock? then NextReleasing(s, t) else NextAcquiring(s, t)
  }

  function Step(s: Shared, move: Move): Shared {
    if s.crashed || move.thread >= |s.threads| then s
    else
      var thread := s.threads[move.thread];
      match move.choice
      case Advance => Next(s, move.thread)
      case StartAcquire(url) => if thread.phase.Ready? then Goto(s, move.thread, thread.(phase := GetLock(url))) else s
      case StartRelease(url) =>
        if thread.phase.Ready? && url in s.inflight
        then Goto(s, move.thread, thread.(phase := TryLock(url, s.inflight[url])))
        else s
  }

  function Exec(s: Shared, schedule: seq<Move>): Shared
    decreases |schedule|
  {
    if schedule == [] then s else Exec(Step(s, schedule[0]), schedule[1..])
  }

  function Fresh(threads: nat): Shared {
    Shared(map[], 0, {}, map[], seq(threads, _ => Thread(Ready, {})), false)
  }

  // --- Every schedule ---

  // Between the increment and the decrement of url's counter.
  predicate IsBlocked(phase: Phase, url: string) {
    (phase.Wait? || phase.CountOut?) && phase.url == url
  }

  function CountBlocked(threads: seq<Thread>, url: string): nat {
    if threads == [] then 0 else (if IsBlocked(threads[0].phase, url) then 1 else 0) + CountBlocked(threads[1..], url)
  }

  lemma {:induction false} CountUpdate(threads: seq<Thread>, t: nat, thread: Thread, url: string)
    requires t < |threads|
    ensures CountBlocked(threads[t := thread], url)
         == CountBlocked(threads, url) - (if IsBlocked(threads[t].phase, url) then 1 else 0)
                                       + (if IsBlocked(thread.phase, url) then 1 else 0)
  {
    if t == 0 {
      assert threads[t := thread][1..] == threads[1..];
    } else {
      CountUpdate(threads[1..], t - 1, thread, url);
      assert threads[t := thread][1..] == threads[1..][t - 1 := thread];
    }
  }

  lemma {:induction false} NobodyBlocked(threads: seq<Thread>, url: string)
    requires forall t :: 0 <= t < |threads| ==> threads[t].phase.Ready?
    ensures CountBlocked(threads, url) == 0
  {
    if threads != [] {
      NobodyBlocked(threads[1..], url);
    }
  }

  ghost predicate LocksAreSound(s: Shared) {
    && (forall u :: u in s.inflight ==> s.inflight[u] < s.nextLock)
    && (forall u, v :: u in s.inflight && v in s.inflight && u != v ==> s.inflight[u] != s.inflight[v])
    && (forall t :: 0 <= t < |s.threads| && !s.threads[t].phase.Ready? && !s.threads[t].phase.GetLock? ==>
         s.threads[t].phase.url in s.inflight && s.inflight[s.threads[t].phase.url] == s.threads[t].phase.lock)
  }

  ghost predicate CountsAreExact(s: Shared) {
    forall url :: Blocked(s, url) == CountBlocked(s.threads, url)
  }

  lemma LocksWhenLooking(s: Shared, t: nat)
    requires LocksAreSound(s) && t < |s.threads| && s.threads[t].phase.GetLock?
    ensures LocksAreSound(NextAcquiring(s, t))
    ensures forall u :: u in s.inflight ==>
      u in NextAcquiring(s, t).inflight && NextAcquiring(s, t).inflight[u] == s.inflight[u]
  {
    var url := s.threads[t].phase.url;
    var after := NextAcquiring(s, t);
    assert after.inflight == if url in s.inflight then s.inflight else s.inflight[url := s.nextLock];
    assert after.threads == s.threads[t := s.threads[t].(phase := CountIn(url, after.inflight[url]))];
  }

  lemma LocksWhenAdvancing(s: Shared, t: nat)
    requires LocksAreSound(s) && t < |s.threads|
    ensures LocksAreSound(Next(s, t))
    ensures forall u :: u in s.inflight ==> u in Next(s, t).inflight && Next(s, t).inflight[u] == s.inflight[u]
  {
    if s.threads[t].phase.TryLock? || s.threads[t].phase.Unlock? {
      assert NextReleasing(s, t).inflight == s.inflight && NextReleasing(s, t).nextLock == s.nextLock;
    } else if s.threads[t].phase.GetLock? {
      LocksWhenLooking(s, t);
    } else {
      assert NextAcquiring(s, t).inflight == s.inflight && NextAcquiring(s, t).nextLock == s.nextLock;
    }
  }

  lemma LocksStaySound(s: Shared, move: Move)
    requires LocksAreSound(s)
    ensures LocksAreSound(Step(s, move))
    ensures forall u :: u in s.inflight ==> u in Step(s, move).inflight && Step(s, move).inflight[u] == s.inflight[u]
  {
    if move.thread < |s.threads| && move.choice.Advance? {
      LocksWhenAdvancing(s, move.thread);
    }
  }

  lemma CountWhenReleasing(s: Shared, t: nat, url: string)
    requires t < |s.threads| && Blocked(s, url) == CountBlocked(s.threads, url)
    requires s.threads[t].phase.TryLock? || s.threads[t].phase.Unlock?
    ensures Blocked(NextReleasing(s, t), url) == CountBlocked(NextReleasing(s, t).threads, url)
  {
    CountUpdate(s.threads, t, NextReleasing(s, t).threads[t], url);
  }

  lemma CountWhenAcquiring(s: Shared, t: nat, url: string)
    requires t < |s.threads| && Blocked(s, url) == CountBlocked(s.threads, url)
    requires !s.threads[t].phase.TryLock? && !s.threads[t].phase.Unlock?
    ensures Blocked(NextAcquiring(s, t), url) == CountBlocked(NextAcquiring(s, t).threads, url)
  {
    CountUpdate(s.threads, t, NextAcquiring(s, t).threads[t], url);
  }

  lemma CountStaysExact(s: Shared, t: nat, url: string)
    requires t < |s.threads| && Blocked(s, url) == CountBlocked(s.threads, url)
    ensures Blocked(Next(s, t), url) == CountBlocked(Next(s, t).threads, url)
  {
    if s.threads[t].phase.TryLock? || s.threads[t].phase.Unlock? {
      CountWhenReleasing(s, t, url);
    } else {
      CountWhenAcquiring(s, t, url);
    }
  }

  lemma CountsStayExact(s: Shared, move: Move)
    requires CountsAreExact(s)
    ensures CountsAreExact(Step(s, move))
  {
    var t := move.thread;
    if t < |s.threads| && !s.crashed {
      forall url: string
        ensures Blocked(Step(s, move), url) == CountBlocked(Step(s, move).threads, url)
      {
        if move.choice.Advance? {
          CountStaysExact(s, t, url);
        } else if s.threads[t].phase.Ready? {
          CountUpdate(s.threads, t, Step(s, move).threads[t], url);
        }
      }
    }
  }

  /** Under every schedule, released by whomever, a URL keeps one mutex for ever and its counter
      is the number of requests between their increment and their decrement. */
  lemma {:induction false} CountersAreExact(s: Shared, schedule: seq<Move>)
    requires LocksAreSound(s) && CountsAreExact(s)
    ensures LocksAreSound(Exec(s, schedule)) && CountsAreExact(Exec(s, schedule))
    ensures forall u :: u in s.inflight ==>
      u in Exec(s, schedule).inflight && Exec(s, schedule).inflight[u] == s.inflight[u]
    decreases |schedule|
  {
    if schedule != [] {
      LocksStaySound(s, schedule[0]);
      CountsStayExact(s, schedule[0]);
      CountersAreExact(Step(s, schedule[0]), schedule[1..]);
    }
  }

  // --- Which releases are safe ---

  // No URL has two holders, the mutex of every held URL is locked, and nothing has crashed.
  ghost predicate Guarded(s: Shared) {
    && (forall t, u, url |
          && 0 <= t < |s.threads| && 0 <= u < |s.threads|
          && url in s.threads[t].holds && url in s.threads[u].holds :: t == u)
    && (forall t, url :: 0 <= t < |s.threads| && url in s.threads[t].holds ==>
          url in s.inflight && s.inflight[url] in s.locked)
    && !s.crashed
  }

  predicate Unlocks(s: Shared, move: Move) {
    move.thread < |s.threads| && move.choice.Advance? && s.threads[move.thread].phase.Unlock?
  }

  // The mutex t is about to unlock is locked, and no other thread holds its URL.
  ghost predicate SafeToUnlock(s: Shared, t: nat)
    requires t < |s.threads| && s.threads[t].phase.Unlock?
  {
    && s.threads[t].phase.lock in s.locked
    && forall u :: 0 <= u < |s.threads| && u != t ==> s.threads[t].phase.url !in s.threads[u].holds
  }

  lemma GuardWhenLocking(s: Shared, t: nat)
    requires LocksAreSound(s) && Guarded(s) && t < |s.threads| && s.threads[t].phase.Wait?
    ensures Guarded(Next(s, t))
  {
    var url, lock := s.threads[t].phase.url, s.threads[t].phase.lock;
    if lock !in s.locked {
      assert forall u :: 0 <= u < |s.threads| ==> url !in s.threads[u].holds;
    }
  }

  lemma GuardWhenUnlocking(s: Shared, t: nat)
    requires LocksAreSound(s) && Guarded(s) && t < |s.threads| && s.threads[t].phase.Unlock?
    ensures Guarded(Next(s, t)) <==> SafeToUnlock(s, t)
  {
    var url, after := s.threads[t].phase.url, Next(s, t);
    if Guarded(after) {
      forall u | 0 <= u < |s.threads| && u != t
        ensures url !in s.threads[u].holds
      {
        assert after.threads[u] == s.threads[u];
      }
    }
  }

  lemma GuardElsewhere(s: Shared, t: nat)
    requires LocksAreSound(s) && Guarded(s) && t < |s.threads|
    requires !s.threads[t].phase.Wait? && !s.threads[t].phase.Unlock?
    ensures Guarded(Next(s, t))
  {
    var after := Next(s, t);
    assert forall u :: 0 <= u < |s.threads| ==> after.threads[u].holds == s.threads[u].holds;
    assert forall u :: u in s.inflight ==> u in after.inflight && after.inflight[u] == s.inflight[u];
    assert s.locked <= after.locked;
  }

  lemma GuardWhenStarting(s: Shared, move: Move)
    requires Guarded(s) && move.thread < |s.threads| && !move.choice.Advance?
    ensures Guarded(Step(s, move))
  {
    assert forall u :: 0 <= u < |s.threads| ==> Step(s, move).threads[u].holds == s.threads[u].holds;
  }

  /** A step keeps held URLs guarded unless it is an Unlock, and an Unlock does if and only if it
      is safe: no other thread holds the URL and the mutex is locked. */
  lemma GuardStep(s: Shared, move: Move)
    requires LocksAreSound(s) && Guarded(s)
    ensures Guarded(Step(s, move)) <==> (Unlocks(s, move) ==> SafeToUnlock(s, move.thread))
  {
    if move.thread < |s.threads| {
      if !move.choice.Advance? {
        GuardWhenStarting(s, move);
      } else if s.threads[move.thread].phase.Wait? {
        GuardWhenLocking(s, move.thread);
      } else if s.threads[move.thread].phase.Unlock? {
        GuardWhenUnlocking(s, move.thread);
      } else {
        GuardElsewhere(s, move.thread);
      }
    }
  }

  ghost predicate AlwaysGuarded(s: Shared, schedule: seq<Move>)
    decreases |schedule|
  {
    Guarded(s) && (schedule == [] || AlwaysGuarded(Step(s, schedule[0]), schedule[1..]))
  }

  ghost predicate UnlocksAreSafe(s: Shared, schedule: seq<Move>)
    decreases |schedule|
  {
    schedule == [] ||
    (&& (Unlocks(s, schedule[0]) ==> SafeToUnlock(s, schedule[0].thread))
     && UnlocksAreSafe(Step(s, schedule[0]), schedule[1..]))
  }

  /** Every held URL stays guarded throughout a schedule, whoever releases, if and only if every
      Unlock in it is safe when it happens. */
  lemma {:induction false} GuardedIffUnlocksAreSafe(s: Shared, schedule: seq<Move>)
    requires LocksAreSound(s) && Guarded(s)
    ensures AlwaysGuarded(s, schedule) <==> UnlocksAreSafe(s, schedule)
    decreases |schedule|
  {
    if schedule != [] {
      var next := Step(s, schedule[0]);
      GuardStep(s, schedule[0]);
      LocksStaySound(s, schedule[0]);
      if Guarded(next) {
        GuardedIffUnlocksAreSafe(next, schedule[1..]);
      }
    }
  }

  // --- Schedules in which only holders release ---

  predicate IsReleasing(phase: Phase) {
    phase.TryLock? || phase.Unlock?
  }

  predicate StartsRelease(s: Shared, move: Move) {
    move.choice.StartRelease? && move.thread < |s.threads| && s.threads[move.thread].phase.Ready?
  }

  ghost predicate HoldersRelease(s: Shared, schedule: seq<Move>)
    decreases |schedule|
  {
    schedule == [] ||
    (&& (StartsRelease(s, schedule[0]) ==> schedule[0].choice.url in s.threads[schedule[0].thread].holds)
     && HoldersRelease(Step(s, schedule[0]), schedule[1..]))
  }

  ghost predicate ReleasersHold(s: Shared) {
    forall t :: 0 <= t < |s.threads| && IsReleasing(s.threads[t].phase) ==>
      s.threads[t].phase.url in s.threads[t].holds
  }

  // A holder's Unlock is safe.
  lemma HoldersUnlockSafely(s: Shared, t: nat)
    requires LocksAreSound(s) && Guarded(s) && ReleasersHold(s) && t < |s.threads| && s.threads[t].phase.Unlock?
    ensures SafeToUnlock(s, t)
  {
  }

  lemma ReleasersStillHold(s: Shared, move: Move)
    requires ReleasersHold(s) && HoldersRelease(s, [move])
    ensures ReleasersHold(Step(s, move))
  {
    if move.thread < |s.threads| {
      var after := Step(s, move);
      assert forall u :: 0 <= u < |s.threads| && u != move.thread ==> after.threads[u] == s.threads[u];
    }
  }

  /** If only holders release, every Unlock is safe, so at most one thread holds a URL at any
      moment, and no release meets an unlocked mutex. */
  lemma {:induction false} HoldersExclude(s: Shared, schedule: seq<Move>)
    requires LocksAreSound(s) && Guarded(s) && ReleasersHold(s) && HoldersRelease(s, schedule)
    ensures UnlocksAreSafe(s, schedule)
    ensures Guarded(Exec(s, schedule)) && ReleasersHold(Exec(s, schedule))
    decreases |schedule|
  {
    if schedule != [] {
      var move := schedule[0];
      assert HoldersRelease(s, [move]) by {
        assert [move][1..] == [];
      }
      if Unlocks(s, move) {
        HoldersUnlockSafely(s, move.thread);
      }
      LocksStaySound(s, move);
      GuardStep(s, move);
      ReleasersStillHold(s, move);
      HoldersExclude(Step(s, move), schedule[1..]);
    }
  }

  lemma FreshIsSound(threads: nat)
    ensures var s := Fresh(threads); LocksAreSound(s) && CountsAreExact(s) && Guarded(s) && ReleasersHold(s)
  {
    var s := Fresh(threads);
    forall url: string
      ensures Blocked(s, url) == CountBlocked(s.threads, url)
    {
      NobodyBlocked(s.threads, url);
    }
  }

  /** From the start: the counters are exact in every run, and when only holders release no URL
      has two holders. */
  lemma RequestLocksAreSound(threads: nat, schedule: seq<Move>, url: string, t: nat, u: nat)
    ensures var s := Exec(Fresh(threads), schedule);
      && Blocked(s, url) == CountBlocked(s.threads, url)
      && (HoldersRelease(Fresh(threads), schedule) ==>
           && !s.crashed
           && (t < |s.threads| && u < |s.threads| && url in s.threads[t].holds && url in s.threads[u].holds ==> t == u))
  {
    FreshIsSound(threads);
    CountersAreExact(Fresh(threads), schedule);
    if HoldersRelease(Fresh(threads), schedule) {
      HoldersExclude(Fresh(threads), schedule);
    }
  }

  // --- Schedules in which anybody releases ---

  lemma {:induction false} ExecOneMore(s: Shared, schedule: seq<Move>, move: Move)
    ensures Exec(s, schedule + [move]) == Step(Exec(s, schedule), move)
    decreases |schedule|
  {
    if schedule == [] {
      assert schedule + [move] == [move];
    } else {
      assert (schedule + [move])[1..] == schedule[1..] + [move];
      ExecOneMore(Step(s, schedule[0]), schedule[1..], move);
    }
  }

  lemma Extend(start: Shared, schedule: seq<Move>, s: Shared, move: Move) returns (longer: seq<Move>, after: Shared)
    requires Exec(start, schedule) == s
    ensures longer == schedule + [move] && after == Step(s, move) && Exec(start, longer) == after
  {
    ExecOneMore(start, schedule, move);
    longer, after := schedule + [move], Step(s, move);
  }

  // Any thread may get as far as waiting for a URL's mutex.
  lemma RunToWait(start: Shared, schedule: seq<Move>, s: Shared, t: nat, url: string)
    returns (longer: seq<Move>, after: Shared)
    requires Exec(start, schedule) == s && t < |s.threads| && s.threads[t].phase.Ready? && !s.crashed
    ensures Exec(start, longer) == after && !after.crashed && after.locked == s.locked
    ensures var lock := if url in s.inflight then s.inflight[url] else s.nextLock;
            && url in after.inflight && after.inflight[url] == lock
            && after.threads == s.threads[t := Thread(Wait(url, lock), s.threads[t].holds)]
    ensures schedule <= longer && forall i :: |schedule| <= i < |longer| ==> !longer[i].choice.StartRelease?
  {
    longer, after := Extend(start, schedule, s, Move(t, StartAcquire(url)));
    longer, after := Extend(start, longer, after, Move(t, Advance));
    assert after.threads[t].phase.CountIn?;
    longer, after := Extend(start, longer, after, Move(t, Advance));
    assert after.threads == s.threads[t := Thread(Wait(url, after.inflight[url]), s.threads[t].holds)];
  }

  // A request for a free URL acquires it.
  lemma RunAcquire(start: Shared, schedule: seq<Move>, s: Shared, t: nat, url: string)
    returns (longer: seq<Move>, after: Shared)
    requires Exec(start, schedule) == s && t < |s.threads| && s.threads[t].phase.Ready? && !s.crashed
    requires (if url in s.inflight then s.inflight[url] else s.nextLock) !in s.locked
    ensures Exec(start, longer) == after && !after.crashed
    ensures after.threads == s.threads[t := Thread(Ready, s.threads[t].holds + {url})]
    ensures url in after.inflight && after.locked == s.locked + {after.inflight[url]}
    ensures schedule <= longer && forall i :: |schedule| <= i < |longer| ==> !longer[i].choice.StartRelease?
  {
    longer, after := RunToWait(start, schedule, s, t, url);
    longer, after := Extend(start, longer, after, Move(t, Advance));
    assert after.threads[t].phase.CountOut?;
    longer, after := Extend(start, longer, after, Move(t, Advance));
    assert after.threads == s.threads[t := Thread(Ready, s.threads[t].holds + {url})];
  }

  // Any thread may get as far as Unlock on a held URL.
  lemma RunToUnlock(start: Shared, schedule: seq<Move>, s: Shared, t: nat, url: string)
    returns (longer: seq<Move>, after: Shared)
    requires Exec(start, schedule) == s && t < |s.threads| && s.threads[t].phase.Ready? && !s.crashed
    requires url in s.inflight && s.inflight[url] in s.locked
    ensures Exec(start, longer) == after && !after.crashed && after.inflight == s.inflight && after.locked == s.locked
    ensures after.threads == s.threads[t := Thread(Unlock(url, s.inflight[url]), s.threads[t].holds)]
  {
    longer, after := Extend(start, schedule, s, Move(t, StartRelease(url)));
    longer, after := Extend(start, longer, after, Move(t, Advance));
    assert after.locked == s.locked;
    assert after.threads == s.threads[t := Thread(Unlock(url, s.inflight[url]), s.threads[t].holds)];
  }

  // No URL has two holders and nothing has crashed.
  ghost predicate Exclusive(s: Shared) {
    && (forall t, u, url |
          && 0 <= t < |s.threads| && 0 <= u < |s.threads|
          && url in s.threads[t].holds && url in s.threads[u].holds :: t == u)
    && !s.crashed
  }

  lemma {:induction false} NoReleasesAreHolders(s: Shared, schedule: seq<Move>)
    requires forall i :: 0 <= i < |schedule| ==> !schedule[i].choice.StartRelease?
    ensures HoldersRelease(s, schedule)
    decreases |schedule|
  {
    if schedule != [] {
      NoReleasesAreHolders(Step(s, schedule[0]), schedule[1..]);
    }
  }

  // After an unsafe Unlock of a locked mutex the unlocking thread can become a second holder.
  lemma SecondHolder(s: Shared, t: nat) returns (more: seq<Move>)
    requires LocksAreSound(s) && Guarded(s) && t < |s.threads| && s.threads[t].phase.Unlock? && !SafeToUnlock(s, t)
    ensures HoldersRelease(Step(s, Move(t, Advance)), more)
    ensures !Exclusive(Exec(Step(s, Move(t, Advance)), more))
  {
    var url, lock := s.threads[t].phase.url, s.threads[t].phase.lock;
    var next := Step(s, Move(t, Advance));
    more := [];
    if lock in s.locked {
      var u :| 0 <= u < |s.threads| && u != t && url in s.threads[u].holds;
      var after: Shared;
      more, after := RunAcquire(next, [], next, t, url);
      NoReleasesAreHolders(next, more);
      assert after.threads[u] == s.threads[u];
      assert url in after.threads[t].holds && url in after.threads[u].holds;
    }
  }

  /** Safety of an Unlock is exactly what mutual exclusion needs: with every other releasing
      thread a holder, the Unlock is safe if and only if no continuation in which only holders
      release gives a URL two holders or crashes. */
  lemma SafeIffExclusiveFromThenOn(s: Shared, t: nat)
    requires LocksAreSound(s) && Guarded(s) && t < |s.threads| && s.threads[t].phase.Unlock?
    requires forall u :: 0 <= u < |s.threads| && u != t && IsReleasing(s.threads[u].phase) ==>
      s.threads[u].phase.url in s.threads[u].holds
    ensures SafeToUnlock(s, t) <==>
      forall more :: HoldersRelease(Step(s, Move(t, Advance)), more) ==>
          Exclusive(Exec(Step(s, Move(t, Advance)), more))
  {
    var go := Move(t, Advance);
    var next := Step(s, go);
    if SafeToUnlock(s, t) {
      GuardStep(s, go);
      LocksStaySound(s, go);
      OthersStillHold(s, t);
      forall more | HoldersRelease(next, more)
        ensures Exclusive(Exec(next, more))
      {
        HoldersExclude(next, more);
      }
    } else {
      var more := SecondHolder(s, t);
    }
  }

  lemma OthersStillHold(s: Shared, t: nat)
    requires t < |s.threads| && s.threads[t].phase.Unlock? && s.threads[t].phase.lock in s.locked
    requires forall u :: 0 <= u < |s.threads| && u != t && IsReleasing(s.threads[u].phase) ==>
      s.threads[u].phase.url in s.threads[u].holds
    ensures ReleasersHold(Next(s, t))
  {
    var after := Next(s, t);
    assert forall u :: 0 <= u < |s.threads| && u != t ==> after.threads[u] == s.threads[u];
  }

  /** Mutual exclusion needs that premise: when a thread releases a URL another one holds, a
      third acquisition gives the URL two holders. */
  lemma StrangersCanBreakExclusion() returns (schedule: seq<Move>, s: Shared)
    ensures Exec(Fresh(2), schedule) == s
    ensures |s.threads| == 2 && "u" in s.threads[0].holds && "u" in s.threads[1].holds && !s.crashed
  {
    var start := Fresh(2);
    schedule, s := RunAcquire(start, [], start, 0, "u");
    schedule, s := RunToUnlock(start, schedule, s, 1, "u");
    schedule, s := Extend(start, schedule, s, Move(1, Advance));
    schedule, s := RunAcquire(start, schedule, s, 1, "u");
  }

  /** So does the absence of crashes: two overlapping releases of one held URL both find it
      locked, and the second Unlock meets an unlocked mutex. */
  lemma OverlappingReleasesCrash() returns (schedule: seq<Move>, s: Shared)
    ensures Exec(Fresh(2), schedule) == s && s.crashed
  {
    var start := Fresh(2);
    schedule, s := RunAcquire(start, [], start, 0, "u");
    schedule, s := RunToUnlock(start, schedule, s, 0, "u");
    schedule, s := RunToUnlock(start, schedule, s, 1, "u");
    schedule, s := Extend(start, schedule, s, Move(0, Advance));
    schedule, s := Extend(start, schedule, s, Move(1, Advance));
  }
}
