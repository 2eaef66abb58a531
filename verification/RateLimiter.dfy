/** The in-memory rate limiter: one growing buffer of admission times per client key. */
module RateLimiter {
  import opened SlidingWindow

  /** Moves the entries later than `cutoff` to the front of the first `n`, in order and in place. */
  method Compact(a: array<int>, n: nat, cutoff: int) returns (kept: nat)
    requires n <= a.Length
    modifies a
    ensures kept <= n && a[..kept] == After(old(a[..n]), cutoff)
    ensures kept == n ==> a[..n] == old(a[..n])
  {
    ghost var was := a[..n];
    kept := 0;
    for i := 0 to n
      invariant kept <= i
      invariant a[..kept] == After(was[..i], cutoff)
      invariant forall k :: i <= k < n ==> a[k] == was[k]
    {
      assert was[..i + 1][..i] == was[..i];
      if a[i] > cutoff {
        a[kept] := a[i];
        kept := kept + 1;
      }
    }
    assert was[..n] == was;
    if kept == n {
      AfterFull(was, cutoff);
    }
  }

  /** Go's append on a slice of length `n`: in place while there is capacity, else into a larger copy. */
  method Append(a: array<int>, n: nat, x: int) returns (b: array<int>)
    requires n <= a.Length
    modifies a
    ensures n < b.Length && b[..n + 1] == old(a[..n]) + [x]
    ensures b == a || fresh(b)
  {
    if n < a.Length {
      b := a;
    } else {
      b := new int[2 * n + 1];
      for i := 0 to n
        invariant forall k :: 0 <= k < i ==> b[k] == old(a[k])
        invariant a[..] == old(a[..])
      {
        assert a[i] == a[..][i];
        b[i] := a[i];
      }
    }
    b[n] := x;
  }

  ghost predicate LogsSpaced(log: map<string, seq<int>>, last: int, limit: int, window: nat) {
    forall k :: k in log ==> Spaced(log[k], last, limit, window)
  }

  /** However the next request is decided, by the full log, the logs stay spaced. */
  lemma LogsStaySpaced(log: map<string, seq<int>>, key: string, last: int, now: int, limit: int, window: nat)
    requires LogsSpaced(log, last, limit, window) && last <= now
    ensures LogsSpaced(log, now, limit, window)
    ensures var entries := if key in log then log[key] else [];
      Admits(entries, now, limit, window) ==> LogsSpaced(log[key := entries + [now]], now, limit, window)
  {
    var entries := if key in log then log[key] else [];
    forall k | k in log
      ensures Spaced(log[k], now, limit, window)
    {
      SpacedLater(log[k], last, now, limit, window);
    }
    if Admits(entries, now, limit, window) {
      AdmissionKeepsSpaced(entries, now, now, now, limit, window);
    }
  }

  lemma NeverMoreOfAny(log: map<string, seq<int>>, now: int, limit: int, window: nat)
    requires LogsSpaced(log, now, limit, window)
    ensures forall k :: k in log ==> Spaced(log[k], now, limit, window) && NeverMore(log[k], limit, window)
  {
    forall k | k in log
      ensures Spaced(log[k], now, limit, window) && NeverMore(log[k], limit, window)
    {
      SpacedMeans(log[k], now, limit, window);
    }
  }

  class Limiter {
    const limit: int
    const window: nat
    var buffers: map<string, array<int>>
    var lengths: map<string, nat>

    /** Every admission there ever was, per key, and the time of the latest request. */
    ghost var log: map<string, seq<int>>
    ghost var last: int
    /** How far each bucket has been trimmed. */
    ghost var trimmed: map<string, int>

    ghost function LogOf(key: string): seq<int>
      reads this
    {
      if key in log then log[key] else []
    }

    ghost function Repr(): set<object>
      reads this
    {
      set k | k in buffers :: buffers[k] as object
    }

    /** At every cutoff it may still be filtered with, the bucket of a key stands for its whole log. */
    ghost predicate BucketOk(key: string)
      requires key in buffers
      reads this, buffers[key]
    {
      && key in lengths && key in log && key in trimmed
      && lengths[key] <= buffers[key].Length
      && lengths[key] <= limit
      && trimmed[key] <= last - window
      && StandsFor(buffers[key][..lengths[key]], log[key], trimmed[key])
    }

    /** No two keys share a buffer. */
    ghost predicate Apart()
      reads this
    {
      forall k, l :: k in buffers && l in buffers && k != l ==> buffers[k] != buffers[l]
    }

    /** Everything is in order except perhaps the bucket of `key`. */
    ghost predicate SoundBut(key: string)
      reads this, Repr()
    {
      log.Keys == buffers.Keys && Apart() && forall k :: k in buffers && k != key ==> BucketOk(k)
    }

    ghost predicate Sound()
      reads this, Repr()
    {
      log.Keys == buffers.Keys && Apart() && forall k :: k in buffers ==> BucketOk(k)
    }

    /** The buckets are in order, and of all admissions there ever were no window holds more than `limit` of one key. */
    ghost predicate Valid()
      reads this, Repr()
    {
      Sound() && LogsSpaced(log, last, limit, window)
    }

    constructor (limit: int, window: nat, now: int)
      ensures Valid() && this.limit == limit && this.window == window && log == map[] && last == now
    {
      this.limit, this.window := limit, window;
      buffers, lengths := map[], map[];
      log, trimmed, last := map[], map[], now;
    }

    /** Stores an admission: the new bucket of `key`, and the log it stands for. */
    method Store(key: string, b: array<int>, n: nat, ghost entries: seq<int>, ghost cutoff: int)
      requires SoundBut(key)
      requires forall k :: k in buffers && k != key ==> buffers[k] != b
      requires n <= b.Length && n <= limit && cutoff <= last - window
      requires StandsFor(b[..n], entries, cutoff)
      modifies this`buffers, this`lengths, this`log, this`trimmed
      ensures Sound() && Repr() <= old(Repr()) + {b}
      ensures log == old(log)[key := entries]
    {
      buffers, lengths := buffers[key := b], lengths[key := n];
      log, trimmed := log[key := entries], trimmed[key := cutoff];
      forall k | k in buffers && k != key
        ensures BucketOk(k)
      {
        assert old(BucketOk(k));
      }
    }

    /** Drops what has left the window from the buffer of `key`, in place; the stored length stays as it was. */
    method Trim(key: string, now: int) returns (kept: nat)
      requires Sound() && key in buffers && last == now
      modifies buffers[key]
      ensures SoundBut(key)
      ensures kept <= lengths[key] <= limit && lengths[key] <= buffers[key].Length
      ensures buffers[key][..kept] == After(log[key], now - window)
      ensures kept < limit <==> Admits(log[key], now, limit, window)
      ensures kept >= limit ==> Sound()
    {
      var cutoff := now - window;
      assert BucketOk(key);
      kept := Compact(buffers[key], lengths[key], cutoff);
      assert forall k :: k in buffers && k != key ==> old(BucketOk(k)) && BucketOk(k);
    }

    /** The clock moves on; no bucket is touched. */
    ghost method Observe(now: int)
      requires Sound() && last <= now
      modifies this`last
      ensures Sound() && last == now
    {
      last := now;
      forall k | k in buffers
        ensures BucketOk(k)
      {
        assert old(BucketOk(k));
      }
    }

    /** The first request of a key finds no bucket. */
    method First(key: string, now: int) returns (admitted: bool)
      requires Sound() && key !in buffers && last == now
      modifies this`buffers, this`lengths, this`log, this`trimmed
      ensures Sound() && fresh(Repr() - old(Repr()))
      ensures admitted == (0 < limit)
      ensures log == if admitted then old(log)[key := [now]] else old(log)
    {
      admitted := 0 < limit;
      if admitted {
        var b := new int[1];
        b[0] := now;
        assert b[..1] == [now];
        Store(key, b, 1, [now], now - window);
      }
    }

    /** Appends the admission to the trimmed bucket and stores it. */
    method Grow(key: string, kept: nat, now: int, ghost cutoff: int)
      requires SoundBut(key) && key in buffers && kept <= buffers[key].Length && kept < limit && cutoff <= last - window
      requires buffers[key][..kept] == After(log[key], cutoff)
      modifies this`buffers, this`lengths, this`log, this`trimmed, buffers[key]
      ensures Sound() && fresh(Repr() - old(Repr()))
      ensures log == old(log)[key := old(log[key]) + [now]]
    {
      var b := Append(buffers[key], kept, now);
      assert forall k :: k in buffers && k != key ==> old(BucketOk(k)) && BucketOk(k);
      StandsForLonger(log[key], log[key], now, cutoff);
      Store(key, b, kept + 1, log[key] + [now], cutoff);
    }

    /** A request of a key that has a bucket: trim it, then admit while it is not full. */
    method Later(key: string, now: int) returns (admitted: bool)
      requires Sound() && key in buffers && last == now
      modifies this`buffers, this`lengths, this`log, this`trimmed, buffers[key]
      ensures Sound() && fresh(Repr() - old(Repr()))
      ensures admitted == Admits(old(log[key]), now, limit, window)
      ensures log == if admitted then old(log)[key := old(log[key]) + [now]] else old(log)
    {
      var kept := Trim(key, now);
      admitted := kept < limit;
      if admitted {
        Grow(key, kept, now, now - window);
      }
    }

    /**
     * One request: trim the bucket, then admit or deny. The decision is the one the
     * full log gives; a denial leaves the trimmed bucket unstored, and that loses
     * nothing because a full bucket had nothing to trim. No window of time, wherever
     * it ends, holds more than `limit` admissions of a key.
     */
    method Limit(key: string, now: int) returns (admitted: bool)
      requires Valid() && last <= now
      modifies this, Repr()
      ensures Valid() && fresh(Repr() - old(Repr()))
      ensures admitted == Admits(old(LogOf(key)), now, limit, window)
      ensures admitted <==> |set i: nat | i < |old(LogOf(key))| && old(LogOf(key))[i] > now - window| < limit
      ensures log == if admitted then old(log)[key := old(LogOf(key)) + [now]] else old(log)
      ensures last == now
      ensures forall k :: k in log ==> Spaced(log[k], now, limit, window)
      ensures forall k :: k in log ==> NeverMore(log[k], limit, window)
    {
      hide Admits, NeverMore, After;
      AdmitsMeans(LogOf(key), now, limit, window);
      LogsStaySpaced(log, key, last, now, limit, window);
      admitted := Decide(key, now);
      assert LogsSpaced(log, now, limit, window);
      NeverMoreOfAny(log, now, limit, window);
    }

    /** The same, as far as the buckets go. */
    method Decide(key: string, now: int) returns (admitted: bool)
      requires Sound() && last <= now
      modifies this, Repr()
      ensures Sound() && fresh(Repr() - old(Repr()))
      ensures admitted == Admits(old(LogOf(key)), now, limit, window)
      ensures log == if admitted then old(log)[key := old(LogOf(key)) + [now]] else old(log)
      ensures last == now
    {
      hide StandsFor, BucketOk;
      Observe(now);
      assert [] + [now] == [now];
      if key !in buffers {
        admitted := First(key, now);
      } else {
        admitted := Later(key, now);
      }
    }
  }
}
