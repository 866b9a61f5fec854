/** The fixed-window limiter of lib/rate-limit.ts: one map from key to
    `{count, resetTime}`, shared by every caller.  The clock is a parameter. */
module RateLimit {

  const DefaultLimit: int := 10
  const DefaultWindowMs: int := 60000

  /** One key's window: calls counted so far and the instant it closes. */
  datatype Entry = Entry(count: int, resetTime: int)

  /** `{ success, remaining }`. */
  datatype Verdict = Verdict(success: bool, remaining: int)

  /** A call at `now` opens a new window: no entry yet, or strictly past the
      old window's end (at `now == resetTime` the old window still holds). */
  predicate OpensWindow(entries: map<string, Entry>, key: string, now: int) {
    key !in entries || now > entries[key].resetTime
  }

  /** The map after one `rateLimit(key, limit, windowMs)` at `now`, and its answer. */
  function Step(entries: map<string, Entry>, key: string, limit: int, windowMs: int, now: int)
    : (r: (map<string, Entry>, Verdict))
    ensures key in r.0
    ensures forall k :: k != key ==> (k in r.0 <==> k in entries)
    ensures forall k :: k != key && k in entries ==> r.0[k] == entries[k]
    ensures OpensWindow(entries, key, now) ==>
              r.1.success && r.0[key] == Entry(1, now + windowMs)
    ensures !OpensWindow(entries, key, now) ==>
              r.0[key].resetTime == entries[key].resetTime &&
              (r.1.success <==> entries[key].count < limit) &&
              r.0[key].count == entries[key].count + (if r.1.success then 1 else 0)
    ensures r.1.success ==> r.1.remaining == limit - r.0[key].count
    ensures !r.1.success ==> r.0 == entries && r.1.remaining == 0
    ensures limit >= 1 ==> r.1.remaining >= 0
  {
    if OpensWindow(entries, key, now) then
      (entries[key := Entry(1, now + windowMs)], Verdict(true, limit - 1))
    else
      var e := entries[key];
      if e.count >= limit then
        (entries, Verdict(false, 0))
      else
        (entries[key := Entry(e.count + 1, e.resetTime)], Verdict(true, limit - (e.count + 1)))
  }

  /** The module-level `rateLimitMap` together with the `rateLimit` function
      that updates it. */
  class RateLimiter {
    var entries: map<string, Entry>

    constructor()
      ensures entries == map[]
    {
      entries := map[];
    }

    method Check(key: string, limit: int, windowMs: int, now: int) returns (v: Verdict)
      modifies this
      ensures (entries, v) == Step(old(entries), key, limit, windowMs, now)
    {
      if key !in entries || now > entries[key].resetTime {
        entries := entries[key := Entry(1, now + windowMs)];
        return Verdict(true, limit - 1);
      }
      var entry := entries[key];
      if entry.count >= limit {
        return Verdict(false, 0);
      }
      entry := entry.(count := entry.count + 1);
      entries := entries[key := entry];
      v := Verdict(true, limit - entry.count);
    }
  }

  /** Calls at the given instants, in order: the final map and how many
      calls succeeded. */
  function Replay(entries: map<string, Entry>, key: string, limit: int, windowMs: int, times: seq<int>)
    : (r: (map<string, Entry>, nat))
    ensures r.1 <= |times|
    decreases |times|
  {
    if times == [] then (entries, 0)
    else
      var (m, v) := Step(entries, key, limit, windowMs, times[0]);
      var (m', n) := Replay(m, key, limit, windowMs, times[1..]);
      (m', n + (if v.success then 1 else 0))
  }

  /** Inside one window (no call later than its end) the key gets at most
      `limit - count` more successes, and the window's end never moves. */
  lemma {:induction false} WithinWindowBound(entries: map<string, Entry>, key: string, limit: int,
                                             windowMs: int, times: seq<int>)
    requires key in entries
    requires forall i :: 0 <= i < |times| ==> times[i] <= entries[key].resetTime
    ensures var r := Replay(entries, key, limit, windowMs, times);
            key in r.0 && r.0[key].resetTime == entries[key].resetTime &&
            r.1 <= (if limit - entries[key].count >= 0 then limit - entries[key].count else 0)
    decreases |times|
  {
    if times != [] {
      var (m, v) := Step(entries, key, limit, windowMs, times[0]);
      assert !OpensWindow(entries, key, times[0]);
      WithinWindowBound(m, key, limit, windowMs, times[1..]);
    }
  }

  /** A window opened by a call at `start` grants at most `max(limit, 1)`
      successes to that call and all later calls up to the window's end:
      the opening call always succeeds, even with a limit of 0. */
  lemma WindowBound(entries: map<string, Entry>, key: string, limit: int, windowMs: int,
                    start: int, times: seq<int>)
    requires OpensWindow(entries, key, start)
    requires forall i :: 0 <= i < |times| ==> times[i] <= start + windowMs
    ensures Replay(entries, key, limit, windowMs, [start] + times).1
         <= (if limit >= 1 then limit else 1)
  {
    var all := [start] + times;
    assert all[1..] == times;
    var (m, v) := Step(entries, key, limit, windowMs, start);
    WithinWindowBound(m, key, limit, windowMs, times);
  }

  /** Calls for other keys never touch this key's entry. */
  lemma {:induction false} OtherKeysUntouched(entries: map<string, Entry>, key: string, other: string,
                                              limit: int, windowMs: int, times: seq<int>)
    requires other != key
    ensures var r := Replay(entries, key, limit, windowMs, times).0;
            (other in r <==> other in entries) && (other in entries ==> r[other] == entries[other])
    decreases |times|
  {
    if times != [] {
      var (m, v) := Step(entries, key, limit, windowMs, times[0]);
      OtherKeysUntouched(m, key, other, limit, windowMs, times[1..]);
    }
  }
}
