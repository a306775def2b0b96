/**
 Releases of per-URL request locks whoever makes them. A release takes the mutex if it is free
 and unlocks it, so that releasing a URL that nobody holds does nothing, unless a second release
 of that URL runs at the same time.
 */
module RequestReleases {
  import opened RequestLocks

  predicate IsReleasingUrl(phase: Phase, url: string) {
    IsReleasing(phase) && phase.url == url
  }

  // At most one thread is releasing url, and the one about to unlock its mutex finds it locked.
  ghost predicate Apart(s: Shared, url: string) {
    && (forall t, u | 0 <= t < |s.threads| && 0 <= u < |s.threads| ::
          IsReleasingUrl(s.threads[t].phase, url) && IsReleasingUrl(s.threads[u].phase, url) ==> t == u)
    && (forall t :: 0 <= t < |s.threads| && s.threads[t].phase.Unlock? && s.threads[t].phase.url == url ==>
          s.threads[t].phase.lock in s.locked)
  }

  // A release of url starts only while no thread is in one.
  ghost predicate ReleasesApart(s: Shared, schedule: seq<Move>, url: string)
    decreases |schedule|
  {
    schedule == [] ||
    (&& (StartsRelease(s, schedule[0]) && schedule[0].choice.url == url ==>
           forall t :: 0 <= t < |s.threads| ==> !IsReleasingUrl(s.threads[t].phase, url))
     && ReleasesApart(Step(s, schedule[0]), schedule[1..], url))
  }

  // A crash has its cause: a thread at Unlock whose mutex is unlocked.
  ghost predicate CrashHasCause(s: Shared) {
    s.crashed ==>
      exists t :: 0 <= t < |s.threads| && s.threads[t].phase.Unlock? && s.threads[t].phase.lock !in s.locked
  }

  lemma ApartWhenReleasing(s: Shared, t: nat, url: string)
    requires LocksAreSound(s) && Apart(s, url) && t < |s.threads| && IsReleasing(s.threads[t].phase)
    ensures Apart(NextReleasing(s, t), url)
  {
    var after := NextReleasing(s, t);
    assert forall u :: 0 <= u < |s.threads| && u != t ==> after.threads[u] == s.threads[u];
  }

  lemma ApartWhenAcquiring(s: Shared, t: nat, url: string)
    requires Apart(s, url) && t < |s.threads| && !IsReleasing(s.threads[t].phase)
    ensures Apart(NextAcquiring(s, t), url)
  {
    var after := NextAcquiring(s, t);
    assert s.locked <= after.locked;
    assert forall u :: 0 <= u < |s.threads| && u != t ==> after.threads[u] == s.threads[u];
  }

  lemma ApartWhenStarting(s: Shared, move: Move, url: string)
    requires Apart(s, url) && move.thread < |s.threads| && !move.choice.Advance? && ReleasesApart(s, [move], url)
    ensures Apart(Step(s, move), url)
  {
    var after := Step(s, move);
    assert after.locked == s.locked;
    assert forall u :: 0 <= u < |s.threads| && u != move.thread ==> after.threads[u] == s.threads[u];
  }

  lemma ApartStep(s: Shared, move: Move, url: string)
    requires LocksAreSound(s) && Apart(s, url) && ReleasesApart(s, [move], url)
    ensures Apart(Step(s, move), url)
  {
    if move.thread < |s.threads| && !s.crashed {
      if !move.choice.Advance? {
        ApartWhenStarting(s, move, url);
      } else if IsReleasing(s.threads[move.thread].phase) {
        ApartWhenReleasing(s, move.thread, url);
      } else {
        ApartWhenAcquiring(s, move.thread, url);
      }
    }
  }

  lemma CauseStep(s: Shared, move: Move)
    requires CrashHasCause(s)
    ensures CrashHasCause(Step(s, move))
  {
    if !s.crashed && Step(s, move).crashed {
      assert Step(s, move).threads == s.threads && s.threads[move.thread].phase.lock !in s.locked;
    }
  }

  /** If no two releases of a URL overlap, none of them ever finds its mutex unlocked, whoever
      starts them and whether the URL is held or free: a crash is always another URL's. */
  lemma {:induction false} ReleasesApartAreSafe(s: Shared, schedule: seq<Move>, url: string)
    requires LocksAreSound(s) && CrashHasCause(s) && Apart(s, url) && ReleasesApart(s, schedule, url)
    ensures var after := Exec(s, schedule);
            && Apart(after, url)
            && (after.crashed ==>
                 exists t :: 0 <= t < |after.threads| && after.threads[t].phase.Unlock?
                     && after.threads[t].phase.url != url && after.threads[t].phase.lock !in after.locked)
    decreases |schedule|
  {
    if schedule != [] {
      var move := schedule[0];
      assert ReleasesApart(s, [move], url) by {
        assert [move][1..] == [];
      }
      LocksStaySound(s, move);
      ApartStep(s, move, url);
      CauseStep(s, move);
      ReleasesApartAreSafe(Step(s, move), schedule[1..], url);
    }
  }

  /** So a run in which no two releases of one URL overlap never crashes. */
  lemma ReleasesApartNeverCrash(threads: nat, schedule: seq<Move>)
    requires forall url :: ReleasesApart(Fresh(threads), schedule, url)
    ensures !Exec(Fresh(threads), schedule).crashed
  {
    var s, after := Fresh(threads), Exec(Fresh(threads), schedule);
    FreshIsSound(threads);
    if after.crashed {
      ReleasesApartAreSafe(s, schedule, "");
      var t :| 0 <= t < |after.threads| && after.threads[t].phase.Unlock?
          && after.threads[t].phase.lock !in after.locked;
      ReleasesApartAreSafe(s, schedule, after.threads[t].phase.url);
      assert false;
    }
  }

  // The three moves of a release by t.
  function Release(t: nat, url: string): seq<Move> {
    [Move(t, StartRelease(url)), Move(t, Advance), Move(t, Advance)]
  }

  /** A lone release, by whomever, of a URL that is held or free: its mutex is unlocked afterwards,
      the releasing thread no longer counts as a holder, and nothing else changes. A URL that was
      never acquired is left alone. */
  lemma LoneRelease(s: Shared, t: nat, url: string)
    requires t < |s.threads| && s.threads[t].phase.Ready? && !s.crashed
    ensures Exec(s, Release(t, url))
         == if url in s.inflight
            then s.(locked := s.locked - {s.inflight[url]},
                    threads := s.threads[t := Thread(Ready, s.threads[t].holds - {url})])
            else s
  {
    var start, go := Move(t, StartRelease(url)), Move(t, Advance);
    ExecThree(s, start, go, go);
    if url in s.inflight {
      var lock := s.inflight[url];
      var trying := Step(s, start);
      assert trying == s.(threads := s.threads[t := Thread(TryLock(url, lock), s.threads[t].holds)]);
      var taken := Step(trying, go);
      assert taken.threads == s.threads[t := Thread(Unlock(url, lock), s.threads[t].holds)];
      assert taken.locked == s.locked + {lock};
      assert Step(taken, go).locked == s.locked - {lock};
    }
  }

  lemma ExecThree(s: Shared, a: Move, b: Move, c: Move)
    ensures Exec(s, [a, b, c]) == Step(Step(Step(s, a), b), c)
  {
    var one, two := Step(s, a), Step(Step(s, a), b);
    assert [a, b, c][1..] == [b, c] && [b, c][1..] == [c];
    assert Exec(s, [a, b, c]) == Exec(one, [b, c]) == Exec(two, [c]);
    assert Exec(two, [c]) == Exec(Step(two, c), []);
  }

  /** Releasing a URL twice in a row is releasing it once. */
  lemma ReleasingTwiceIsOnce(s: Shared, t: nat, u: nat, url: string)
    requires t < |s.threads| && u < |s.threads| && s.threads[t].phase.Ready? && s.threads[u].phase.Ready? && !s.crashed
    ensures var once := Exec(s, Release(t, url));
            var twice := Exec(once, Release(u, url));
            !twice.crashed && twice.locked == once.locked && twice.inflight == once.inflight
  {
    LoneRelease(s, t, url);
    var once := Exec(s, Release(t, url));
    LoneRelease(once, u, url);
    if url in s.inflight {
      assert once.locked - {s.inflight[url]} == once.locked;
    }
  }
}
