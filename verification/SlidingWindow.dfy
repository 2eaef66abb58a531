/**
 * The limiter that the rate limiter stands for: it keeps every admission for ever
 * and admits a request while fewer than `limit` of them lie in the window before it.
 */
module SlidingWindow {

  /** The entries of a log later than `cutoff`, in order: Go's `t.After(cutoff)` filter. */
  function After(log: seq<int>, cutoff: int): (r: seq<int>)
    ensures |r| <= |log|
  {
    if log == [] then []
    else After(log[..|log| - 1], cutoff) + if log[|log| - 1] > cutoff then [log[|log| - 1]] else []
  }

  predicate Admits(log: seq<int>, now: int, limit: int, window: nat) {
    |After(log, now - window)| < limit
  }

  function Record(log: seq<int>, now: int, limit: int, window: nat): seq<int> {
    if Admits(log, now, limit, window) then log + [now] else log
  }

  /** The log after a sequence of requests. */
  function Replay(requests: seq<int>, limit: int, window: nat): seq<int> {
    if requests == [] then []
    else Record(Replay(requests[..|requests| - 1], limit, window), requests[|requests| - 1], limit, window)
  }

  predicate Nondecreasing(s: seq<int>) {
    forall i, j :: 0 <= i < j < |s| ==> s[i] <= s[j]
  }

  /** How many entries lie in the window `(end - window, end]`. */
  function InWindow(log: seq<int>, end: int, window: nat): nat {
    if log == [] then 0
    else InWindow(log[..|log| - 1], end, window) + if end - window < log[|log| - 1] <= end then 1 else 0
  }

  lemma AfterSnoc(log: seq<int>, t: int, cutoff: int)
    ensures After(log + [t], cutoff) == After(log, cutoff) + if t > cutoff then [t] else []
  {
    assert (log + [t])[..|log|] == log;
  }

  /** The entries of a log that are later than `from` and not later than `end`. */
  function Between(log: seq<int>, from: int, end: int): set<nat> {
    set i: nat | i < |log| && from < log[i] <= end
  }

  lemma BetweenSnoc(log: seq<int>, t: int, from: int, end: int)
    ensures |Between(log + [t], from, end)| == |Between(log, from, end)| + if from < t <= end then 1 else 0
  {
    assert Between(log + [t], from, end) == Between(log, from, end) + if from < t <= end then {|log|} else {};
  }

  /** The count of a window is the number of entries in it. */
  lemma {:induction false} InWindowMeans(log: seq<int>, end: int, window: nat)
    ensures InWindow(log, end, window) == |Between(log, end - window, end)|
  {
    if log != [] {
      var front, t := log[..|log| - 1], log[|log| - 1];
      InWindowMeans(front, end, window);
      BetweenSnoc(front, t, end - window, end);
      assert log == front + [t];
    }
  }

  /** No window of this length, wherever it lies, holds more than `limit` entries. */
  ghost predicate NeverMore(log: seq<int>, limit: int, window: nat) {
    forall from, end :: end == from + window ==> |Between(log, from, end)| <= limit
  }

  lemma SpacedMeans(log: seq<int>, now: int, limit: int, window: nat)
    requires Spaced(log, now, limit, window)
    ensures NeverMore(log, limit, window)
  {
    forall from, end | end == from + window
      ensures |Between(log, from, end)| <= limit
    {
      InWindowMeans(log, end, window);
    }
  }

  /** The filter keeps one entry for each that is later than the cutoff. */
  lemma {:induction false} AfterMeans(log: seq<int>, cutoff: int)
    ensures |After(log, cutoff)| == |set i: nat | i < |log| && log[i] > cutoff|
    ensures forall x :: x in After(log, cutoff) <==> x in log && x > cutoff
  {
    if log != [] {
      var front, t := log[..|log| - 1], log[|log| - 1];
      AfterMeans(front, cutoff);
      assert log == front + [t];
      assert (set i: nat | i < |log| && log[i] > cutoff) == (set i: nat | i < |front| && front[i] > cutoff) + if t > cutoff then {|front|} else {};
    }
  }

  /** A request is admitted if and only if fewer than `limit` admissions are later than its window's start. */
  lemma AdmitsMeans(log: seq<int>, now: int, limit: int, window: nat)
    ensures Admits(log, now, limit, window) <==> |set i: nat | i < |log| && log[i] > now - window| < limit
  {
    AfterMeans(log, now - window);
  }

  /** Filtered at any cutoff from `start` on, the bucket gives what the whole log gives. */
  ghost predicate StandsFor(bucket: seq<int>, log: seq<int>, start: int) {
    forall cutoff :: start <= cutoff ==> After(bucket, cutoff) == After(log, cutoff)
  }

  /** Filtering twice with a later cutoff is filtering once with it. */
  lemma {:induction false} AfterTwice(log: seq<int>, early: int, late: int)
    requires early <= late
    ensures After(After(log, early), late) == After(log, late)
  {
    if log != [] {
      var front, t := log[..|log| - 1], log[|log| - 1];
      AfterTwice(front, early, late);
      if t > early {
        AfterSnoc(After(front, early), t, late);
      } else {
        assert After(log, early) == After(front, early);
        assert After(log, late) == After(front, late);
      }
    }
  }

  /** A filter that drops nothing returns the log itself. */
  lemma {:induction false} AfterFull(log: seq<int>, cutoff: int)
    requires |After(log, cutoff)| == |log|
    ensures After(log, cutoff) == log
  {
    if log != [] {
      AfterFull(log[..|log| - 1], cutoff);
    }
  }

  /** Times in order, not after `now`, with no more than `limit` in any window, wherever it ends. */
  ghost predicate Spaced(log: seq<int>, now: int, limit: int, window: nat) {
    && Nondecreasing(log)
    && (forall i :: 0 <= i < |log| ==> log[i] <= now)
    && (forall end :: InWindow(log, end, window) <= limit)
  }

  lemma {:induction false} AfterShrinks(log: seq<int>, early: int, late: int)
    requires early <= late
    ensures |After(log, late)| <= |After(log, early)|
  {
    if log != [] {
      AfterShrinks(log[..|log| - 1], early, late);
    }
  }

  lemma AdmissionFits(log: seq<int>, at: int, end: int, limit: int, window: nat)
    requires InWindow(log, end, window) <= limit && |After(log, at - window)| < limit
    ensures InWindow(log + [at], end, window) <= limit
  {
    assert (log + [at])[..|log|] == log;
    if end - window < at <= end {
      WindowEndsAtNow(log, at, end, window);
    }
  }

  /** An admission decided at one instant and recorded at a later one keeps the log spaced. */
  lemma AdmissionKeepsSpaced(log: seq<int>, now: int, checkAt: int, at: int, limit: int, window: nat)
    requires Spaced(log, now, limit, window) && now <= checkAt <= at
    requires |After(log, checkAt - window)| < limit
    ensures Spaced(log + [at], at, limit, window)
  {
    AfterShrinks(log, checkAt - window, at - window);
    forall end
      ensures InWindow(log + [at], end, window) <= limit
    {
      AdmissionFits(log, at, end, limit, window);
    }
  }

  lemma SpacedLater(log: seq<int>, now: int, later: int, limit: int, window: nat)
    requires Spaced(log, now, limit, window) && now <= later
    ensures Spaced(log, later, limit, window)
  {
  }

  /**
   * With a clock that does not go back, no window of the given length ever holds more
   * than `limit` admissions, wherever it ends.
   */
  lemma {:induction false} NeverOverLimit(requests: seq<int>, limit: int, window: nat)
    requires Nondecreasing(requests) && limit >= 0
    ensures forall end :: InWindow(Replay(requests, limit, window), end, window) <= limit
    ensures requests != [] ==> Spaced(Replay(requests, limit, window), requests[|requests| - 1], limit, window)
  {
    if requests != [] {
      var front, now := requests[..|requests| - 1], requests[|requests| - 1];
      var log := Replay(front, limit, window);
      NeverOverLimit(front, limit, window);
      var last := if front == [] then now else front[|front| - 1];
      SpacedLater(log, last, now, limit, window);
      if Admits(log, now, limit, window) {
        AdmissionKeepsSpaced(log, now, now, now, limit, window);
      }
    }
  }

  /** Up to `now` the window that ends later holds no more than the filter before `now` keeps. */
  lemma {:induction false} WindowEndsAtNow(log: seq<int>, now: int, end: int, window: nat)
    requires now <= end
    ensures InWindow(log, end, window) <= |After(log, now - window)|
  {
    if log != [] {
      WindowEndsAtNow(log[..|log| - 1], now, end, window);
    }
  }

  /** The trimmed bucket with a new admission stands for the log with the new admission. */
  lemma StandsForLonger(bucket: seq<int>, log: seq<int>, now: int, cutoff: int)
    requires After(bucket, cutoff) == After(log, cutoff)
    ensures StandsFor(After(bucket, cutoff) + [now], log + [now], cutoff)
  {
    forall c | cutoff <= c
      ensures After(After(bucket, cutoff) + [now], c) == After(log + [now], c)
    {
      AfterSnoc(After(bucket, cutoff), now, c);
      AfterSnoc(log, now, c);
      AfterTwice(log, cutoff, c);
    }
  }
}
