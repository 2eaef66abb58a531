/**
 * Login attempts and the lockout they lead to. Times are in seconds. The attempts table
 * compares names without regard to letter case, so a user here is a name up to case.
 */
module Lockout {
  import opened Prelude
  import opened SlidingWindow

  const LOCKOUT_FAILURES := 5
  const LOCKOUT_WINDOW := 600
  const LOCKOUT_DURATION := 900

  datatype Attempt = Attempt(user: string, success: bool, at: int)

  /** `existing` are the names with a users row; `notified` the lockout notices sent, with the time they announce. */
  datatype State = State(attempts: seq<Attempt>, existing: set<string>, notified: seq<(string, int)>)

  /** The COUNT, the MAX and the final comparison of one lockout check each read the clock; each query may fail. */
  datatype Check = Check(countAt: int, countOk: bool, maxAt: int, maxOk: bool, compareAt: int)

  /** All of a check at one instant, and answered. */
  function Instant(now: int): Check {
    Check(now, true, now, true, now)
  }

  /** How the statements of recording an attempt turn out, and whether a lockout hook is set. */
  datatype Record = Record(at: int, insertOk: bool, hookSet: bool, lookupsOk: bool)

  /** One call of Login: it checks, and later records. */
  datatype Login = Login(user: string, check: Check, credentialsOk: bool, record: Record)

  datatype Outcome = Refused(until: int) | Invalid | LoggedIn

  /** Times of the failed attempts of a user, in the order recorded. */
  function Failures(attempts: seq<Attempt>, user: string): seq<int> {
    if attempts == [] then []
    else
      var a := attempts[|attempts| - 1];
      Failures(attempts[..|attempts| - 1], user) + if a.user == user && !a.success then [a.at] else []
  }

  /** The failures the lockout queries look at. */
  function Recent(attempts: seq<Attempt>, user: string, now: int): seq<int> {
    After(Failures(attempts, user), now - LOCKOUT_WINDOW)
  }

  function Latest(times: seq<int>): int
    requires times != []
  {
    if |times| == 1 then times[0]
    else
      var m := Latest(times[..|times| - 1]);
      if m < times[|times| - 1] then times[|times| - 1] else m
  }

  /** MAX(attempted_at): NULL when there is nothing to take it of. */
  function Newest(times: seq<int>): Option<int> {
    if times == [] then None else Some(Latest(times))
  }

  lemma NewestSnoc(times: seq<int>, x: int)
    ensures Newest(times + [x]) == Some(if times == [] || Latest(times) < x then x else Latest(times))
  {
    assert (times + [x])[..|times|] == times;
  }

  lemma {:induction false} LatestIsMax(times: seq<int>)
    requires times != []
    ensures Latest(times) in times && forall i :: 0 <= i < |times| ==> times[i] <= Latest(times)
  {
    if |times| > 1 {
      var front := times[..|times| - 1];
      LatestIsMax(front);
      assert times == front + [times[|times| - 1]];
    }
  }

  /** checkLockout: the announced end of the lock, or None; a query that fails, or finds no time, lets the login go on. */
  function Lock(attempts: seq<Attempt>, user: string, c: Check): Option<int> {
    if !c.countOk || |Recent(attempts, user, c.countAt)| < LOCKOUT_FAILURES then None
    else if !c.maxOk || Recent(attempts, user, c.maxAt) == [] then None
    else
      var until := Latest(Recent(attempts, user, c.maxAt)) + LOCKOUT_DURATION;
      if c.compareAt < until then Some(until) else None
  }

  /** recordAttempt: one row, and the notice when a failure brings the count to the threshold. */
  function Recorded(s: State, user: string, r: Record, success: bool): State {
    if !r.insertOk then s
    else
      var attempts := s.attempts + [Attempt(user, success, r.at)];
      var notify := !success && r.hookSet && r.lookupsOk && |Recent(attempts, user, r.at)| == LOCKOUT_FAILURES && user in s.existing;
      s.(attempts := attempts, notified := if notify then s.notified + [(user, r.at + LOCKOUT_DURATION)] else s.notified)
  }

  function OutcomeOf(s: State, l: Login): Outcome {
    if Lock(s.attempts, l.user, l.check).Some? then Refused(Lock(s.attempts, l.user, l.check).value)
    else if l.credentialsOk && l.user in s.existing then LoggedIn
    else Invalid
  }

  function Apply(s: State, l: Login): State {
    if OutcomeOf(s, l).Refused? then s
    else Recorded(s, l.user, l.record, OutcomeOf(s, l).LoggedIn?)
  }

  function Exec(s: State, ls: seq<Login>): State {
    if ls == [] then s else Apply(Exec(s, ls[..|ls| - 1]), ls[|ls| - 1])
  }

  predicate Initial(s: State) {
    s.attempts == [] && s.notified == []
  }

  /** The clock does not go back, and the queries are answered. */
  predicate InOrder(c: Check) {
    c.countAt <= c.maxAt <= c.compareAt && c.countOk && c.maxOk
  }

  /** One call after the other, on a clock that does not go back, with the lockout queries answered. */
  predicate Sequential(ls: seq<Login>) {
    && (forall i :: 0 <= i < |ls| ==> InOrder(ls[i].check) && ls[i].check.compareAt <= ls[i].record.at)
    && (forall i, j :: 0 <= i < j < |ls| ==> ls[i].record.at <= ls[j].check.countAt)
  }

  lemma FailuresSnoc(attempts: seq<Attempt>, a: Attempt, user: string)
    ensures Failures(attempts + [a], user) == Failures(attempts, user) + if a.user == user && !a.success then [a.at] else []
  {
    assert (attempts + [a])[..|attempts|] == attempts;
  }

  lemma RecentSnoc(attempts: seq<Attempt>, a: Attempt, user: string, now: int)
    ensures Recent(attempts + [a], user, now) ==
      Recent(attempts, user, now) + if a.user == user && !a.success && a.at > now - LOCKOUT_WINDOW then [a.at] else []
  {
    FailuresSnoc(attempts, a, user);
    if a.user == user && !a.success {
      AfterSnoc(Failures(attempts, user), a.at, now - LOCKOUT_WINDOW);
    } else {
      assert Failures(attempts + [a], user) == Failures(attempts, user);
    }
  }

  // -------------------------------------------------- failures as rows of the table

  /** The rows of a user's failures of the last ten minutes. */
  function FailedRows(attempts: seq<Attempt>, user: string, now: int): set<nat> {
    set i: nat | i < |attempts| && attempts[i].user == user && !attempts[i].success && attempts[i].at > now - 600
  }

  lemma FailedRowsSnoc(attempts: seq<Attempt>, a: Attempt, user: string, now: int)
    ensures FailedRows(attempts + [a], user, now) ==
      FailedRows(attempts, user, now) + if a.user == user && !a.success && a.at > now - 600 then {|attempts|} else {}
  {
  }

  /** The times the queries look at are those of these rows. */
  lemma {:induction false} RecentMeans(attempts: seq<Attempt>, user: string, now: int)
    ensures |Recent(attempts, user, now)| == |FailedRows(attempts, user, now)|
    ensures forall x :: x in Recent(attempts, user, now) <==> exists i :: i in FailedRows(attempts, user, now) && attempts[i].at == x
  {
    if attempts != [] {
      var front, a := attempts[..|attempts| - 1], attempts[|attempts| - 1];
      RecentMeans(front, user, now);
      RecentSnoc(front, a, user, now);
      FailedRowsSnoc(front, a, user, now);
      assert attempts == front + [a];
      RecentTimes(front, a, user, now);
    }
  }

  lemma RecentTimes(front: seq<Attempt>, a: Attempt, user: string, now: int)
    requires forall x :: x in Recent(front, user, now) <==> exists i :: i in FailedRows(front, user, now) && front[i].at == x
    ensures forall x :: x in Recent(front + [a], user, now) <==> exists i :: i in FailedRows(front + [a], user, now) && (front + [a])[i].at == x
  {
    RecentSnoc(front, a, user, now);
    FailedRowsSnoc(front, a, user, now);
    hide Recent;
    var attempts := front + [a];
    forall x
      ensures x in Recent(attempts, user, now) <==> exists i :: i in FailedRows(attempts, user, now) && attempts[i].at == x
    {
      if x in Recent(front, user, now) {
        var i :| i in FailedRows(front, user, now) && front[i].at == x;
        assert i in FailedRows(attempts, user, now) && attempts[i].at == x;
      } else if x in Recent(attempts, user, now) {
        assert |front| in FailedRows(attempts, user, now) && attempts[|front|].at == x;
      }
      if i :| i in FailedRows(attempts, user, now) && attempts[i].at == x {
        if i < |front| {
          assert i in FailedRows(front, user, now) && front[i].at == x;
        }
      }
    }
  }

  /** An account is refused at an instant if and only if five of its failures are less than ten minutes old; what is announced is fifteen minutes after the newest of them. */
  lemma RefusedMeans(attempts: seq<Attempt>, user: string, now: int)
    ensures Lock(attempts, user, Instant(now)).Some? <==> |FailedRows(attempts, user, now)| >= 5
    ensures Lock(attempts, user, Instant(now)).Some? ==>
      var until := Lock(attempts, user, Instant(now)).value;
      && (exists i :: i in FailedRows(attempts, user, now) && attempts[i].at + 900 == until)
      && (forall i :: i in FailedRows(attempts, user, now) ==> attempts[i].at + 900 <= until)
  {
    RefusedExactly(attempts, user, now);
    RecentMeans(attempts, user, now);
    if |Recent(attempts, user, now)| >= 5 {
      LatestIsMax(Recent(attempts, user, now));
      assert Latest(Recent(attempts, user, now)) in Recent(attempts, user, now);
      forall i | i in FailedRows(attempts, user, now)
        ensures attempts[i].at <= Latest(Recent(attempts, user, now))
      {
        assert attempts[i].at in Recent(attempts, user, now);
      }
    }
  }

  /**
   * However long the check takes: it refuses if and only if both queries are answered,
   * five failures were recent at the first, and of those recent at the second the newest
   * is less than fifteen minutes old at the comparison. That one gives the end announced.
   */
  lemma LockMeans(attempts: seq<Attempt>, user: string, c: Check)
    ensures Lock(attempts, user, c).Some? <==>
      && c.countOk && c.maxOk && |FailedRows(attempts, user, c.countAt)| >= 5
      && exists i :: i in FailedRows(attempts, user, c.maxAt) && c.compareAt < attempts[i].at + 900
    ensures Lock(attempts, user, c).Some? ==>
      var until := Lock(attempts, user, c).value;
      && (exists i :: i in FailedRows(attempts, user, c.maxAt) && attempts[i].at + 900 == until)
      && (forall i :: i in FailedRows(attempts, user, c.maxAt) ==> attempts[i].at + 900 <= until)
  {
    hide Recent, Latest;
    RecentMeans(attempts, user, c.countAt);
    RecentMeans(attempts, user, c.maxAt);
    var recent := Recent(attempts, user, c.maxAt);
    assert forall i :: i in FailedRows(attempts, user, c.maxAt) ==> attempts[i].at in recent;
    if recent != [] {
      LatestIsMax(recent);
      assert Latest(recent) in recent;
      forall i | i in FailedRows(attempts, user, c.maxAt)
        ensures attempts[i].at <= Latest(recent)
      {
        assert attempts[i].at in recent;
      }
    }
  }

  // ------------------------------------------------------------- the lock itself

  lemma {:induction false} AfterMembers(log: seq<int>, cutoff: int)
    ensures forall i :: 0 <= i < |After(log, cutoff)| ==> After(log, cutoff)[i] > cutoff
  {
    if log != [] {
      AfterMembers(log[..|log| - 1], cutoff);
    }
  }

  lemma LatestIsRecent(times: seq<int>, cutoff: int)
    requires After(times, cutoff) != []
    ensures Latest(After(times, cutoff)) > cutoff
  {
    AfterMembers(times, cutoff);
    LatestIsMax(After(times, cutoff));
  }

  /** An account is refused exactly when five failures lie in the last ten minutes; the fifteen-minute bound never frees it. */
  lemma RefusedExactly(attempts: seq<Attempt>, user: string, now: int)
    ensures Lock(attempts, user, Instant(now)) ==
      if |Recent(attempts, user, now)| >= LOCKOUT_FAILURES then Some(Latest(Recent(attempts, user, now)) + LOCKOUT_DURATION) else None
  {
    if |Recent(attempts, user, now)| >= LOCKOUT_FAILURES {
      LatestIsRecent(Failures(attempts, user), now - LOCKOUT_WINDOW);
    }
  }

  /**
   * However long the check takes: who is refused had five failures when they were
   * counted, and who is let through has fewer than five recent ones at the end of it.
   */
  lemma CheckMeans(attempts: seq<Attempt>, user: string, c: Check)
    requires InOrder(c)
    ensures Lock(attempts, user, c).Some? ==> |Recent(attempts, user, c.countAt)| >= LOCKOUT_FAILURES && c.compareAt < Lock(attempts, user, c).value
    ensures Lock(attempts, user, c).None? ==> |Recent(attempts, user, c.compareAt)| < LOCKOUT_FAILURES
  {
    var failures := Failures(attempts, user);
    var atMax, atEnd := After(failures, c.maxAt - LOCKOUT_WINDOW), After(failures, c.compareAt - LOCKOUT_WINDOW);
    AfterShrinks(failures, c.countAt - LOCKOUT_WINDOW, c.compareAt - LOCKOUT_WINDOW);
    AfterShrinks(failures, c.maxAt - LOCKOUT_WINDOW, c.compareAt - LOCKOUT_WINDOW);
    if atMax != [] && Latest(atMax) + LOCKOUT_DURATION <= c.compareAt {
      NoneLaterThan(failures, c.maxAt - LOCKOUT_WINDOW, c.compareAt - LOCKOUT_WINDOW);
    }
  }

  /** If no time after the early cutoff is after the late one, the late filter keeps nothing. */
  lemma NoneLaterThan(log: seq<int>, early: int, late: int)
    requires early <= late && After(log, early) != [] && Latest(After(log, early)) <= late
    ensures After(log, late) == []
  {
    NoneAfterLatest(After(log, early), late);
    AfterTwice(log, early, late);
  }

  lemma NoneAfterLatest(kept: seq<int>, late: int)
    requires kept != [] && Latest(kept) <= late
    ensures After(kept, late) == []
  {
    LatestIsMax(kept);
    NoneAfter(kept, late);
  }

  /** On times in order the filter keeps a tail. */
  lemma {:induction false} AfterTail(log: seq<int>, cutoff: int, k: nat)
    requires Nondecreasing(log) && k < |log|
    ensures log[k] > cutoff ==> |After(log, cutoff)| >= |log| - k
    ensures log[k] <= cutoff ==> |After(log, cutoff)| < |log| - k
  {
    var n := |log| - 1;
    if k < n {
      AfterTail(log[..n], cutoff, k);
    } else if log[n] <= cutoff {
      NoneAfter(log, cutoff);
    }
  }

  lemma {:induction false} NoneAfter(log: seq<int>, cutoff: int)
    requires forall i :: 0 <= i < |log| ==> log[i] <= cutoff
    ensures After(log, cutoff) == []
  {
    if log != [] {
      NoneAfter(log[..|log| - 1], cutoff);
    }
  }

  lemma {:induction false} AfterKeepsLast(log: seq<int>, cutoff: int)
    requires log != [] && log[|log| - 1] > cutoff
    ensures After(log, cutoff) != [] && After(log, cutoff)[|After(log, cutoff)| - 1] == log[|log| - 1]
  {
  }

  /** At least five failures are recent exactly while the fifth last one is. */
  lemma FifthLast(failures: seq<int>, now: int)
    requires Nondecreasing(failures)
    ensures |After(failures, now - LOCKOUT_WINDOW)| >= LOCKOUT_FAILURES <==>
      |failures| >= LOCKOUT_FAILURES && now < failures[|failures| - LOCKOUT_FAILURES] + LOCKOUT_WINDOW
  {
    if |failures| >= LOCKOUT_FAILURES {
      AfterTail(failures, now - LOCKOUT_WINDOW, |failures| - LOCKOUT_FAILURES);
    }
  }

  lemma {:induction false} AfterFrom(log: seq<int>, cutoff: int)
    ensures forall x :: x in After(log, cutoff) ==> x in log
  {
    if log != [] {
      AfterFrom(log[..|log| - 1], cutoff);
    }
  }

  /** The newest recent failure is the newest failure. */
  lemma LatestIsLast(failures: seq<int>, cutoff: int)
    requires Nondecreasing(failures) && After(failures, cutoff) != []
    ensures failures != [] && Latest(After(failures, cutoff)) == failures[|failures| - 1]
  {
    var recent, last := After(failures, cutoff), failures[|failures| - 1];
    AfterFrom(failures, cutoff);
    LatestIsMax(recent);
    if last <= cutoff {
      NoneAfter(failures, cutoff);
    }
    AfterKeepsLast(failures, cutoff);
    assert recent[|recent| - 1] == last;
  }

  lemma ReleaseOf(failures: seq<int>, now: int, later: int)
    requires Nondecreasing(failures) && now <= later
    requires |After(failures, now - LOCKOUT_WINDOW)| >= LOCKOUT_FAILURES
    ensures |failures| >= LOCKOUT_FAILURES
    ensures |After(failures, later - LOCKOUT_WINDOW)| >= LOCKOUT_FAILURES <==> later < failures[|failures| - LOCKOUT_FAILURES] + LOCKOUT_WINDOW
    ensures failures[|failures| - LOCKOUT_FAILURES] <= Latest(After(failures, now - LOCKOUT_WINDOW))
  {
    FifthLast(failures, now);
    FifthLast(failures, later);
    LatestIsLast(failures, now - LOCKOUT_WINDOW);
  }

  /**
   * When a locked account comes free, if no more failures are recorded: ten minutes
   * after its fifth last failure. The time announced is never before that; it is at
   * least five minutes later.
   */
  lemma ReleaseExactly(attempts: seq<Attempt>, user: string, now: int, later: int)
    requires Nondecreasing(Failures(attempts, user)) && now <= later
    requires Lock(attempts, user, Instant(now)).Some?
    ensures |Failures(attempts, user)| >= LOCKOUT_FAILURES
    ensures Lock(attempts, user, Instant(later)).Some? <==> later < Release(attempts, user)
    ensures Release(attempts, user) + (LOCKOUT_DURATION - LOCKOUT_WINDOW) <= Lock(attempts, user, Instant(now)).value
  {
    hide After, Failures, Latest, Lock;
    RefusedExactly(attempts, user, now);
    RefusedExactly(attempts, user, later);
    var failures := Failures(attempts, user);
    ReleaseOf(failures, now, later);
    assert Release(attempts, user) == failures[|failures| - LOCKOUT_FAILURES] + LOCKOUT_WINDOW;
  }

  /** Ten minutes after the fifth last failure. */
  function Release(attempts: seq<Attempt>, user: string): int
    requires |Failures(attempts, user)| >= LOCKOUT_FAILURES
  {
    Failures(attempts, user)[|Failures(attempts, user)| - LOCKOUT_FAILURES] + LOCKOUT_WINDOW
  }

  // ------------------------------------------------------------ runs of logins

  /** Failure times in order, not after `now`, with no more than five in any window. */
  ghost predicate Bounded(s: State, user: string, now: int) {
    Spaced(Failures(s.attempts, user), now, LOCKOUT_FAILURES, LOCKOUT_WINDOW)
  }

  lemma RecordedKeepsBounded(s: State, user: string, now: int, checkAt: int, who: string, r: Record, success: bool)
    requires Bounded(s, user, now) && now <= checkAt <= r.at
    requires who == user && !success ==> |Recent(s.attempts, user, checkAt)| < LOCKOUT_FAILURES
    ensures Bounded(Recorded(s, who, r, success), user, r.at)
  {
    var failures, a := Failures(s.attempts, user), Attempt(who, success, r.at);
    FailuresSnoc(s.attempts, a, user);
    SpacedLater(failures, now, r.at, LOCKOUT_FAILURES, LOCKOUT_WINDOW);
    if who == user && !success {
      AdmissionKeepsSpaced(failures, now, checkAt, r.at, LOCKOUT_FAILURES, LOCKOUT_WINDOW);
    } else {
      assert Failures(s.attempts + [a], user) == failures;
    }
  }

  lemma LoginKeepsBounded(s: State, l: Login, user: string, now: int)
    requires Bounded(s, user, now) && now <= l.check.countAt && InOrder(l.check) && l.check.compareAt <= l.record.at
    ensures Bounded(Apply(s, l), user, l.record.at)
  {
    if OutcomeOf(s, l).Refused? {
      SpacedLater(Failures(s.attempts, user), now, l.record.at, LOCKOUT_FAILURES, LOCKOUT_WINDOW);
    } else {
      CheckMeans(s.attempts, l.user, l.check);
      RecordedKeepsBounded(s, user, now, l.check.compareAt, l.user, l.record, OutcomeOf(s, l).LoggedIn?);
    }
  }

  /** In every sequential run, every ten-minute window holds at most five recorded failures of a user. */
  lemma {:induction false} FailuresBounded(s: State, ls: seq<Login>, user: string)
    requires Initial(s) && Sequential(ls)
    ensures ls != [] ==> Bounded(Exec(s, ls), user, ls[|ls| - 1].record.at)
    ensures forall end :: InWindow(Failures(Exec(s, ls).attempts, user), end, LOCKOUT_WINDOW) <= LOCKOUT_FAILURES
  {
    if ls != [] {
      var front, l := ls[..|ls| - 1], ls[|ls| - 1];
      FailuresBounded(s, front, user);
      if front != [] {
        assert front[|front| - 1] == ls[|ls| - 2];
        LoginKeepsBounded(Exec(s, front), l, user, front[|front| - 1].record.at);
      } else {
        LoginKeepsBounded(s, l, user, l.check.countAt);
      }
    }
  }

  /** Login `k` of the run got past its check with a wrong password or name, and was recorded. */
  predicate WrongLogin(s: State, ls: seq<Login>, k: nat, user: string) {
    && k < |ls| && ls[k].user == user && Lock(Exec(s, ls[..k]).attempts, user, ls[k].check).None?
    && !(ls[k].credentialsOk && user in s.existing) && ls[k].record.insertOk
  }

  /** The wrong logins of a run that were recorded less than ten minutes before. */
  function WrongLogins(s: State, ls: seq<Login>, user: string, now: int): set<nat> {
    set k: nat | k < |ls| && WrongLogin(s, ls, k, user) && ls[k].record.at > now - 600
  }

  lemma {:induction false} SameUsers(s: State, ls: seq<Login>)
    ensures Exec(s, ls).existing == s.existing
  {
    if ls != [] {
      SameUsers(s, ls[..|ls| - 1]);
    }
  }

  lemma WrongLoginsSnoc(s: State, ls: seq<Login>, user: string, now: int)
    requires ls != []
    ensures var n := |ls| - 1;
      WrongLogins(s, ls, user, now) == WrongLogins(s, ls[..n], user, now) + if WrongLogin(s, ls, n, user) && ls[n].record.at > now - 600 then {n} else {}
  {
    var n := |ls| - 1;
    var front := ls[..n];
    forall k: nat | k < n
      ensures WrongLogin(s, ls, k, user) <==> WrongLogin(s, front, k, user)
    {
      assert ls[..k] == front[..k];
    }
  }

  /** One login adds a failure of the user exactly when it is a wrong login that is recorded. */
  lemma LoginAddsFailure(s: State, l: Login, user: string, now: int)
    ensures |FailedRows(Apply(s, l).attempts, user, now)| == |FailedRows(s.attempts, user, now)| +
      if l.user == user && Lock(s.attempts, user, l.check).None? && !(l.credentialsOk && user in s.existing) && l.record.insertOk && l.record.at > now - 600 then 1 else 0
  {
    hide Lock;
    if !OutcomeOf(s, l).Refused? && l.record.insertOk {
      FailedRowsSnoc(s.attempts, Attempt(l.user, OutcomeOf(s, l).LoggedIn?, l.record.at), user, now);
    }
  }

  lemma {:induction false} FailuresAreWrongLogins(s: State, ls: seq<Login>, user: string, now: int)
    requires s.attempts == []
    ensures |FailedRows(Exec(s, ls).attempts, user, now)| == |WrongLogins(s, ls, user, now)|
  {
    if ls == [] {
      assert FailedRows([], user, now) == {} && WrongLogins(s, [], user, now) == {};
    } else {
      var n := |ls| - 1;
      FailuresAreWrongLogins(s, ls[..n], user, now);
      LoginAddsFailure(Exec(s, ls[..n]), ls[n], user, now);
      SameUsers(s, ls[..n]);
      hide FailedRows, WrongLogins, Apply;
      WrongLoginsSnoc(s, ls, user, now);
      NotIn(s, ls[..n], user, now, n);
    }
  }

  lemma NotIn(s: State, ls: seq<Login>, user: string, now: int, n: nat)
    requires n >= |ls|
    ensures n !in WrongLogins(s, ls, user, now)
  {
  }

  /**
   * Over every run from an empty table, with whatever failures and overlaps: a check of
   * the user at an instant refuses if and only if five of its logins that got past their
   * checks were wrong and were recorded less than ten minutes before.
   */
  lemma RefusedAfterFive(s: State, ls: seq<Login>, user: string, now: int, l: Login)
    requires Initial(s) && l.user == user && l.check == Check(now, true, now, true, now)
    ensures OutcomeOf(Exec(s, ls), l).Refused? <==> |WrongLogins(s, ls, user, now)| >= 5
  {
    FailuresAreWrongLogins(s, ls, user, now);
    RefusedMeans(Exec(s, ls).attempts, user, now);
  }

  /** A notice goes out exactly when a login takes an existing user's account from unlocked to locked, the hook is set and the lookups for it succeed. */
  lemma NotifiedOnLocking(s: State, l: Login)
    requires InOrder(l.check) && l.check.compareAt <= l.record.at
    ensures var t, now := Apply(s, l), Instant(l.record.at);
      var locks := Lock(s.attempts, l.user, now).None? && Lock(t.attempts, l.user, now).Some?;
      && (t.notified != s.notified <==> locks && l.user in s.existing && l.record.hookSet && l.record.lookupsOk)
      && (t.notified != s.notified ==> t.notified == s.notified + [(l.user, l.record.at + LOCKOUT_DURATION)])
  {
    if OutcomeOf(s, l).Refused? || !l.record.insertOk {
      assert Apply(s, l) == s;
    } else {
      LockingAttempt(s.attempts, Attempt(l.user, OutcomeOf(s, l).LoggedIn?, l.record.at), l);
    }
  }

  /** An attempt after a check that let it through locks the account exactly when it is the fifth recent failure. */
  lemma LockingAttempt(attempts: seq<Attempt>, a: Attempt, l: Login)
    requires InOrder(l.check) && l.check.compareAt <= a.at && a.user == l.user && Lock(attempts, l.user, l.check).None?
    ensures Lock(attempts, l.user, Instant(a.at)).None?
    ensures Lock(attempts + [a], l.user, Instant(a.at)).Some? <==> !a.success && |Recent(attempts + [a], l.user, a.at)| == LOCKOUT_FAILURES
  {
    hide After, Failures, Latest, Lock;
    CheckMeans(attempts, l.user, l.check);
    AfterShrinks(Failures(attempts, l.user), l.check.compareAt - LOCKOUT_WINDOW, a.at - LOCKOUT_WINDOW);
    RefusedExactly(attempts, l.user, a.at);
    RefusedExactly(attempts + [a], l.user, a.at);
    RecentSnoc(attempts, a, l.user, a.at);
  }

  // --------------------------------------------------------------- the service

  class Service {
    var attempts: seq<Attempt>
    var existing: set<string>
    var notified: seq<(string, int)>

    ghost function Tables(): State
      reads this
    {
      State(attempts, existing, notified)
    }

    /** The COUNT(*) query over recent failures. */
    method CountRecent(user: string, now: int) returns (count: nat)
      ensures count == |Recent(attempts, user, now)|
    {
      count := 0;
      for i := 0 to |attempts|
        invariant count == |Recent(attempts[..i], user, now)|
      {
        var a := attempts[i];
        assert attempts[..i + 1] == attempts[..i] + [a];
        RecentSnoc(attempts[..i], a, user, now);
        if a.user == user && !a.success && a.at > now - LOCKOUT_WINDOW {
          count := count + 1;
        }
      }
      assert attempts[..|attempts|] == attempts;
    }

    /** The MAX(attempted_at) query over recent failures; NULL when there are none. */
    method NewestRecent(user: string, now: int) returns (latest: Option<int>)
      ensures latest == Newest(Recent(attempts, user, now))
    {
      latest := None;
      for i := 0 to |attempts|
        invariant latest == Newest(Recent(attempts[..i], user, now))
      {
        var a := attempts[i];
        assert attempts[..i + 1] == attempts[..i] + [a];
        RecentSnoc(attempts[..i], a, user, now);
        if a.user == user && !a.success && a.at > now - LOCKOUT_WINDOW {
          NewestSnoc(Recent(attempts[..i], user, now), a.at);
          latest := if latest.None? || latest.value < a.at then Some(a.at) else latest;
        } else {
          assert Recent(attempts[..i + 1], user, now) == Recent(attempts[..i], user, now);
        }
      }
      assert attempts[..|attempts|] == attempts;
    }

    /** checkLockout: two queries and a comparison, each at its own time; a query that fails lets the login go on. */
    method CheckLockout(user: string, c: Check) returns (until: Option<int>)
      ensures until == Lock(attempts, user, c)
      ensures until.Some? ==> c.countOk && c.maxOk && |FailedRows(attempts, user, c.countAt)| >= 5 && c.compareAt < until.value
      ensures until.Some? ==> exists i :: i in FailedRows(attempts, user, c.maxAt) && until.value == attempts[i].at + 900
    {
      LockMeans(attempts, user, c);
      if !c.countOk {
        return None;
      }
      var count := CountRecent(user, c.countAt);
      if count < LOCKOUT_FAILURES {
        return None;
      }
      if !c.maxOk {
        return None;
      }
      var lastFailure := NewestRecent(user, c.maxAt);
      if lastFailure.None? {
        return None;
      }
      var lockoutUntil := lastFailure.value + LOCKOUT_DURATION;
      if c.compareAt < lockoutUntil {
        return Some(lockoutUntil);
      }
      return None;
    }

    /** recordAttempt: a count that cannot be read stays 0. */
    method RecordAttempt(user: string, r: Record, success: bool)
      modifies this`attempts, this`notified
      ensures Tables() == Recorded(old(Tables()), user, r, success)
    {
      if !r.insertOk {
        return;
      }
      attempts := attempts + [Attempt(user, success, r.at)];
      if !success && r.hookSet {
        var count := 0;
        if r.lookupsOk {
          count := CountRecent(user, r.at);
        }
        if count == LOCKOUT_FAILURES {
          if user in existing {
            notified := notified + [(user, r.at + LOCKOUT_DURATION)];
          }
        }
      }
    }

    method LogIn(l: Login) returns (outcome: Outcome)
      modifies this`attempts, this`notified
      ensures Tables() == Apply(old(Tables()), l)
      ensures outcome == OutcomeOf(old(Tables()), l)
      ensures !outcome.Refused? ==> (outcome == LoggedIn <==> l.credentialsOk && l.user in existing)
      ensures attempts == old(attempts) + if outcome.Refused? || !l.record.insertOk then [] else [Attempt(l.user, outcome == LoggedIn, l.record.at)]
      ensures l.check == Check(l.check.countAt, true, l.check.countAt, true, l.check.countAt) ==>
        (outcome.Refused? <==> |FailedRows(old(attempts), l.user, l.check.countAt)| >= 5)
      ensures notified == old(notified) || (outcome == Invalid && notified == old(notified) + [(l.user, l.record.at + 900)])
      ensures !l.check.countOk || !l.check.maxOk ==> !outcome.Refused?
      ensures notified != old(notified) <==>
        && outcome == Invalid && l.record.insertOk && l.record.hookSet && l.record.lookupsOk
        && l.user in existing && |FailedRows(attempts, l.user, l.record.at)| == 5
    {
      RefusedMeans(attempts, l.user, l.check.countAt);
      RecentMeans(attempts + [Attempt(l.user, false, l.record.at)], l.user, l.record.at);
      var until := CheckLockout(l.user, l.check);
      if until.Some? {
        return Refused(until.value);
      }
      outcome := if l.user in existing && l.credentialsOk then LoggedIn else Invalid;
      RecordAttempt(l.user, l.record, outcome.LoggedIn?);
    }
  }
}
