/** The sliding-window limiter of app/api/auth.py and the short-circuit that charges a request once.
    Clock readings are real numbers of seconds; floating-point rounding is not modelled. */
module RateLimiter {

  const WINDOW: real := 60.0

  // ------------------------------------------------------------------ one check

  /** `while log and (now - log[0]) > window: log.popleft()`. */
  function Expire(log: seq<real>, now: real): seq<real> {
    if log != [] && now - log[0] > WINDOW then Expire(log[1..], now) else log
  }

  /** The locked part of `_rate_limit_check`: the new log and the verdict. */
  function CheckLog(log: seq<real>, now: real, limit: nat): (seq<real>, bool) {
    var live := Expire(log, now);
    if |live| >= limit then (live, false) else (live + [now], true)
  }

  function LogOf(logs: map<string, seq<real>>, key: string): seq<real> {
    if key in logs then logs[key] else []
  }

  /** `_rate_log`, a dictionary of deques shared by every request. */
  class Limiter {
    var logs: map<string, seq<real>>

    constructor ()
      ensures logs == map[]
    {
      logs := map[];
    }

    method Check(key: string, limit: int, now: real, testing: bool) returns (allowed: bool)
      modifies this
      ensures testing || limit <= 0 ==> allowed && logs == old(logs)
      ensures !testing && limit > 0 ==>
                var (log, verdict) := CheckLog(LogOf(old(logs), key), now, limit);
                allowed == verdict && logs == old(logs)[key := log]
    {
      if testing || limit <= 0 { return true; }
      var log := LogOf(logs, key);
      while log != [] && now - log[0] > WINDOW
        invariant Expire(log, now) == Expire(LogOf(old(logs), key), now)
        decreases |log|
      {
        log := log[1..];
      }
      allowed := |log| < limit;
      if allowed { log := log + [now]; }
      logs := logs[key := log];
    }
  }

  // ------------------------------------------------------------------ whole runs

  /** A call of the limiter by some request. */
  datatype Call = Call(key: string, now: real)

  /** The log of a key and the times of its accepted calls so far. */
  datatype Trace = Trace(log: seq<real>, accepted: seq<real>)

  function Step(t: Trace, now: real, limit: nat): Trace {
    var (log, ok) := CheckLog(t.log, now, limit);
    Trace(log, if ok then t.accepted + [now] else t.accepted)
  }

  /** All calls of one key, in the order in which they take the lock. */
  function Run(times: seq<real>, limit: nat): Trace {
    if times == [] then Trace([], [])
    else Step(Run(times[..|times| - 1], limit), times[|times| - 1], limit)
  }

  /** The shared dictionary after a run of calls with any keys. */
  function RunAll(calls: seq<Call>, limit: nat): map<string, seq<real>> {
    if calls == [] then map[]
    else
      var logs, c := RunAll(calls[..|calls| - 1], limit), calls[|calls| - 1];
      logs[c.key := CheckLog(LogOf(logs, c.key), c.now, limit).0]
  }

  function TimesOf(calls: seq<Call>, key: string): seq<real> {
    if calls == [] then []
    else
      var c := calls[|calls| - 1];
      TimesOf(calls[..|calls| - 1], key) + (if c.key == key then [c.now] else [])
  }

  /** Keys do not interfere: the log of a key is what its own calls alone would have left. */
  lemma {:induction false} KeysAreIndependent(calls: seq<Call>, limit: nat, key: string)
    ensures LogOf(RunAll(calls, limit), key) == Run(TimesOf(calls, key), limit).log
  {
    if calls != [] {
      var front, c := calls[..|calls| - 1], calls[|calls| - 1];
      KeysAreIndependent(front, limit, key);
      if c.key == key {
        var times := TimesOf(front, key);
        assert (times + [c.now])[..|times|] == times;
      } else {
        assert TimesOf(front, key) + [] == TimesOf(front, key);
      }
    }
  }

  predicate Increasing(ts: seq<real>) {
    forall i, j :: 0 <= i < j < |ts| ==> ts[i] <= ts[j]
  }

  /** The clock is read before the lock is taken, so readings may take the lock out of order: no reading lies more
      than d seconds before an earlier one. With d == 0 the readings do not decrease. */
  predicate Skewed(ts: seq<real>, d: real) {
    forall i, j :: 0 <= i < j < |ts| ==> ts[j] >= ts[i] - d
  }

  /** Any accepted call and those `limit` or more places later are more than w seconds apart. */
  predicate Spaced(ts: seq<real>, limit: nat, w: real) {
    forall i, j :: 0 <= i && i + limit <= j < |ts| ==> ts[j] - ts[i] > w
  }

  /** The log is the last part of the accepted calls. */
  predicate IsSuffix(t: Trace) {
    |t.log| <= |t.accepted| && t.log == t.accepted[|t.accepted| - |t.log|..]
  }

  /** What holds after all readings ts: entries dropped from the log are more than a window older than some reading. */
  predicate Inv(t: Trace, ts: seq<real>, limit: nat, d: real) {
    && IsSuffix(t) && |t.log| <= limit && Spaced(t.accepted, limit, WINDOW - d)
    && forall i :: 0 <= i < |t.accepted| - |t.log| ==> OlderThanSome(t.accepted[i], ts)
  }

  predicate OlderThanSome(a: real, ts: seq<real>) {
    exists m :: 0 <= m < |ts| && ts[m] - a > WINDOW
  }

  /** Expiring takes entries more than a window old from the front. */
  lemma {:induction false} ExpireDrops(log: seq<real>, now: real)
    ensures var live := Expire(log, now);
            && |live| <= |log| && live == log[|log| - |live|..]
            && (forall i :: 0 <= i < |log| - |live| ==> now - log[i] > WINDOW)
            && (live != [] ==> now - live[0] <= WINDOW)
  {
    if log != [] && now - log[0] > WINDOW {
      ExpireDrops(log[1..], now);
      var live := Expire(log[1..], now);
      assert log[1..][|log| - 1 - |live|..] == log[|log| - |live|..];
    }
  }

  /** After expiring at a new reading, the log is still the last part, and what is dropped is old. */
  lemma LivePart(t: Trace, ts: seq<real>, now: real, limit: nat, d: real) returns (k: nat)
    requires Inv(t, ts, limit, d)
    ensures k <= |t.accepted| && |t.accepted| - k <= |t.log| && Expire(t.log, now) == t.accepted[k..]
    ensures forall i :: 0 <= i < k ==> OlderThanSome(t.accepted[i], ts + [now])
    ensures k < |t.accepted| ==> now - t.accepted[k] <= WINDOW
  {
    ExpireDrops(t.log, now);
    var n, live := |t.accepted|, Expire(t.log, now);
    k := n - |live|;
    assert live != [] ==> live[0] == t.accepted[k];
    forall i | 0 <= i < k ensures OlderThanSome(t.accepted[i], ts + [now]) {
      if i < n - |t.log| {
        OlderStays(t.accepted[i], ts, now);
      } else {
        assert t.accepted[i] == t.log[i - (n - |t.log|)];
        assert (ts + [now])[|ts|] - t.accepted[i] > WINDOW;
      }
    }
  }

  lemma OlderStays(a: real, ts: seq<real>, now: real)
    requires OlderThanSome(a, ts)
    ensures OlderThanSome(a, ts + [now])
  {
    var m :| 0 <= m < |ts| && ts[m] - a > WINDOW;
    assert (ts + [now])[m] == ts[m];
  }

  /** A reading that is not more than d seconds before the earlier ones is more than 60 - d seconds after what is
      dropped. */
  lemma OldForNow(a: real, ts: seq<real>, now: real, d: real)
    requires OlderThanSome(a, ts + [now]) && Skewed(ts + [now], d) && d >= 0.0
    ensures now - a > WINDOW - d
  {
    var m :| 0 <= m < |ts + [now]| && (ts + [now])[m] - a > WINDOW;
    assert (ts + [now])[|ts|] == now;
  }

  lemma SpacedSnoc(acc: seq<real>, k: nat, ts: seq<real>, now: real, limit: nat, d: real)
    requires Spaced(acc, limit, WINDOW - d) && k <= |acc| && |acc| - k < limit
    requires forall i :: 0 <= i < k ==> OlderThanSome(acc[i], ts + [now])
    requires Skewed(ts + [now], d) && d >= 0.0
    ensures Spaced(acc + [now], limit, WINDOW - d)
  {
    forall i | 0 <= i && i + limit <= |acc| ensures now - acc[i] > WINDOW - d {
      OldForNow(acc[i], ts, now, d);
    }
  }

  lemma StepKeepsInv(t: Trace, ts: seq<real>, now: real, limit: nat, d: real)
    requires Inv(t, ts, limit, d) && Skewed(ts + [now], d) && d >= 0.0 && limit > 0
    ensures Inv(Step(t, now, limit), ts + [now], limit, d)
  {
    var k := LivePart(t, ts, now, limit, d);
    var acc, live := t.accepted, Expire(t.log, now);
    if |live| < limit {
      SpacedSnoc(acc, k, ts, now, limit, d);
      var acc' := acc + [now];
      assert acc[k..] + [now] == acc'[k..];
      assert forall i :: 0 <= i < k ==> acc'[i] == acc[i];
    }
  }

  lemma {:induction false} RunKeepsInv(times: seq<real>, limit: nat, d: real)
    requires Skewed(times, d) && d >= 0.0 && limit > 0
    ensures Inv(Run(times, limit), times, limit, d)
  {
    if times != [] {
      var n := |times| - 1;
      RunKeepsInv(times[..n], limit, d);
      assert times == times[..n] + [times[n]];
      StepKeepsInv(Run(times[..n], limit), times[..n], times[n], limit, d);
    }
  }

  /** How many of the times lie in the closed interval [lo, hi]. */
  function Count(ts: seq<real>, lo: real, hi: real): nat {
    if ts == [] then 0
    else Count(ts[..|ts| - 1], lo, hi) + (if lo <= ts[|ts| - 1] <= hi then 1 else 0)
  }

  lemma {:induction false} CountOfParts(ts: seq<real>, k: nat, lo: real, hi: real)
    requires k <= |ts| && forall i :: 0 <= i < k ==> !(lo <= ts[i] <= hi)
    ensures Count(ts, lo, hi) <= |ts| - k
    ensures (forall i :: k <= i < |ts| ==> lo <= ts[i] <= hi) ==> Count(ts, lo, hi) == |ts| - k
  {
    if ts != [] {
      var front := ts[..|ts| - 1];
      CountOfParts(front, if k == |ts| then k - 1 else k, lo, hi);
    }
  }

  lemma {:induction false} SpacedCount(ts: seq<real>, limit: nat, w: real, lo: real)
    requires Spaced(ts, limit, w) && limit > 0
    ensures Count(ts, lo, lo + w) <= limit
  {
    if ts != [] {
      var n := |ts| - 1;
      if lo <= ts[n] <= lo + w {
        CountOfParts(ts, if n + 1 > limit then n + 1 - limit else 0, lo, lo + w);
      } else {
        SpacedCount(ts[..n], limit, w, lo);
      }
    }
  }

  /** In every run in which no reading lies more than d seconds before an earlier one, every closed interval of 60 - d
      seconds holds at most `limit` accepted calls of a key; with a non-decreasing clock, every interval of 60
      seconds. */
  lemma WindowBound(calls: seq<Call>, key: string, limit: nat, d: real, lo: real)
    requires Skewed(TimesOf(calls, key), d) && d >= 0.0 && limit > 0
    ensures Count(Run(TimesOf(calls, key), limit).accepted, lo, lo + (60.0 - d)) <= limit
  {
    var times := TimesOf(calls, key);
    RunKeepsInv(times, limit, d);
    BoundFromInv(Run(times, limit), times, limit, d, lo);
  }

  lemma BoundFromInv(t: Trace, ts: seq<real>, limit: nat, d: real, lo: real)
    requires Inv(t, ts, limit, d) && limit > 0
    ensures Count(t.accepted, lo, lo + (60.0 - d)) <= limit
  {
    SpacedCount(t.accepted, limit, WINDOW - d, lo);
  }

  // ------------------------------------------------------------------ the bound is exact

  /** `limit` calls at time 0, then one at `late`, which empties the log, then one that read the clock d seconds
      before. */
  function LateRun(limit: nat, late: real, d: real): seq<real> {
    seq(limit, _ => 0.0) + [late] + [late - d]
  }

  /** Readings that fit into the limit and do not age the first one are all accepted. */
  lemma {:induction false} AllAccepted(times: seq<real>, limit: nat)
    requires |times| <= limit && forall j :: 0 <= j < |times| ==> times[j] - times[0] <= WINDOW
    ensures Run(times, limit) == Trace(times, times)
  {
    if times != [] {
      var front := times[..|times| - 1];
      AllAccepted(front, limit);
      assert times == front + [times[|times| - 1]];
    }
  }

  lemma {:induction false} ZerosExpire(n: nat, now: real)
    requires now > WINDOW
    ensures Expire(seq(n, _ => 0.0), now) == []
  {
    if n > 0 {
      assert seq(n, _ => 0.0)[1..] == seq(n - 1, _ => 0.0);
      ZerosExpire(n - 1, now);
    }
  }

  lemma LateRunAccepted(limit: nat, late: real, d: real)
    requires limit >= 2 && late > WINDOW && d >= 0.0
    ensures Run(LateRun(limit, late, d), limit).accepted == LateRun(limit, late, d)
  {
    var zeros := seq(limit, _ => 0.0);
    AllAccepted(zeros, limit);
    ZerosExpire(limit, late);
    RunSnoc(zeros, late, limit);
    assert [] + [late] == [late];
    assert Run(zeros + [late], limit) == Trace([late], zeros + [late]);
    RunSnoc(zeros + [late], late - d, limit);
    assert Expire([late], late - d) == [late];
  }

  lemma LateRunCount(limit: nat, late: real, d: real)
    requires late - d >= 0.0 && d >= 0.0
    ensures Count(LateRun(limit, late, d), 0.0, late - d) > limit
  {
    var zeros := seq(limit, _ => 0.0);
    CountOfParts(zeros, 0, 0.0, late - d);
    CountSnoc(zeros, late, 0.0, late - d);
    CountSnoc(zeros + [late], late - d, 0.0, late - d);
  }

  predicate WithinLimit(times: seq<real>, limit: nat, lo: real, w: real) {
    Count(Run(times, limit).accepted, lo, lo + w) <= limit
  }

  /** Every run with readings at most d seconds out of order keeps every closed interval of w seconds within the
      limit. */
  ghost predicate BoundHolds(limit: nat, d: real, w: real) {
    forall times, lo :: Skewed(times, d) ==> WithinLimit(times, limit, lo, w)
  }

  /** With a limit of at least two calls, 60 - d seconds is exactly the length of interval that is kept within the
      limit when readings may be d seconds out of order: every longer one is exceeded by some run. */
  lemma SkewBoundIff(limit: nat, d: real, w: real)
    requires limit >= 2 && 0.0 <= d <= 60.0 && w >= 0.0
    ensures BoundHolds(limit, d, w) <==> w <= 60.0 - d
  {
    if w <= WINDOW - d {
      forall times, lo | Skewed(times, d) ensures WithinLimit(times, limit, lo, w) {
        RunKeepsInv(times, limit, d);
        SpacedCount(Run(times, limit).accepted, limit, w, lo);
      }
    } else {
      var late := w + d;
      var times := LateRun(limit, late, d);
      LateRunAccepted(limit, late, d);
      LateRunCount(limit, late, d);
      assert Skewed(times, d);
      assert 0.0 + w == late - d;
      assert !WithinLimit(times, limit, 0.0, w);
    }
  }

  /** What holds with a limit of one, for whatever readings: the log is the last accepted call. */
  predicate OneInv(t: Trace) {
    && (t.accepted == [] ==> t.log == []) && (t.accepted != [] ==> t.log == [t.accepted[|t.accepted| - 1]])
    && Spaced(t.accepted, 1, WINDOW) && Increasing(t.accepted)
  }

  lemma OneStep(t: Trace, now: real)
    requires OneInv(t)
    ensures OneInv(Step(t, now, 1))
  {
    if t.accepted != [] {
      var last := t.accepted[|t.accepted| - 1];
      assert [last][1..] == [];
      assert Expire([last], now) == (if now - last > WINDOW then [] else [last]);
      if now - last > WINDOW { OneAccepted(t.accepted, now); }
    }
  }

  lemma OneAccepted(acc: seq<real>, now: real)
    requires Spaced(acc, 1, WINDOW) && Increasing(acc) && acc != [] && now - acc[|acc| - 1] > WINDOW
    ensures Spaced(acc + [now], 1, WINDOW) && Increasing(acc + [now])
  {
    assert forall i :: 0 <= i < |acc| ==> acc[i] <= acc[|acc| - 1];
  }

  lemma {:induction false} OneRun(times: seq<real>)
    ensures OneInv(Run(times, 1))
  {
    if times != [] {
      OneRun(times[..|times| - 1]);
      OneStep(Run(times[..|times| - 1], 1), times[|times| - 1]);
    }
  }

  /** With a limit of one call the order of the readings does not matter: 60 seconds hold one accepted call in every
      run. */
  lemma LimitOneBound(times: seq<real>, lo: real)
    ensures Count(Run(times, 1).accepted, lo, lo + 60.0) <= 1
  {
    OneRun(times);
    SpacedCount(Run(times, 1).accepted, 1, WINDOW, lo);
  }

  // ------------------------------------------------------------------ refusals

  /** A call is refused exactly when `limit` accepted calls lie in the 60 seconds up to and including it. */
  lemma RefusedExactly(times: seq<real>, now: real, limit: nat)
    requires Increasing(times + [now]) && limit > 0
    ensures var before := Run(times, limit);
            !CheckLog(before.log, now, limit).1 <==> Count(before.accepted, now - 60.0, now) == limit
  {
    var all := times + [now];
    assert Skewed(times, 0.0) && Increasing(times) by { assert forall i :: 0 <= i < |times| ==> times[i] == all[i]; }
    RunKeepsInv(times, limit, 0.0);
    AcceptedIncrease(times, limit);
    assert forall i :: 0 <= i < |times| ==> all[i] == times[i] && all[i] <= all[|times|];
    RefusedAfter(Run(times, limit), times, now, limit);
  }

  lemma RefusedAfter(t: Trace, ts: seq<real>, now: real, limit: nat)
    requires Inv(t, ts, limit, 0.0) && Skewed(ts + [now], 0.0) && limit > 0
    requires Increasing(t.accepted) && forall i :: 0 <= i < |t.accepted| ==> t.accepted[i] <= now
    ensures !CheckLog(t.log, now, limit).1 <==> Count(t.accepted, now - 60.0, now) == limit
  {
    var k := LivePart(t, ts, now, limit, 0.0);
    forall i | 0 <= i < k ensures now - t.accepted[i] > WINDOW {
      OldForNow(t.accepted[i], ts, now, 0.0);
    }
    forall i | k <= i < |t.accepted| ensures now - WINDOW <= t.accepted[i] {
      assert t.accepted[k] <= t.accepted[i];
    }
    CountOfParts(t.accepted, k, now - WINDOW, now);
  }

  lemma {:induction false} AcceptedIncrease(times: seq<real>, limit: nat)
    requires Increasing(times)
    ensures var acc := Run(times, limit).accepted;
            Increasing(acc) && forall i :: 0 <= i < |acc| ==> acc[i] <= times[|times| - 1] && times != []
  {
    if times != [] {
      var n := |times| - 1;
      AcceptedIncrease(times[..n], limit);
      assert n > 0 ==> times[n - 1] <= times[n];
    }
  }

  /** With readings at most d seconds out of order, a call is refused only when `limit` accepted calls lie between 60
      + d seconds before it and d seconds after it. */
  lemma RefusedUnderSkew(times: seq<real>, now: real, limit: nat, d: real)
    requires Skewed(times + [now], d) && d >= 0.0 && limit > 0
    requires !CheckLog(Run(times, limit).log, now, limit).1
    ensures Count(Run(times, limit).accepted, now - 60.0 - d, now + d) >= limit
  {
    var all := times + [now];
    assert Skewed(times, d) by { assert forall i :: 0 <= i < |times| ==> times[i] == all[i]; }
    RunKeepsInv(times, limit, d);
    AcceptedAreReadings(times, limit, d);
    var acc := Run(times, limit).accepted;
    forall i | 0 <= i < |acc| ensures acc[i] <= now + d {
      var m :| 0 <= m < |times| && times[m] == acc[i];
      assert all[m] == times[m] && all[|times|] == now;
    }
    var k := LivePart(Run(times, limit), times, now, limit, d);
    RecentCount(acc, k, now, d);
  }

  lemma RecentCount(acc: seq<real>, k: nat, now: real, d: real)
    requires Skewed(acc, d) && d >= 0.0 && k <= |acc| && (k < |acc| ==> now - WINDOW <= acc[k])
    requires forall i :: 0 <= i < |acc| ==> acc[i] <= now + d
    ensures Count(acc, now - WINDOW - d, now + d) >= |acc| - k
  {
    if k < |acc| { SkewedFrom(acc, k, now - WINDOW, d); }
    CountAtLeast(acc, k, now - WINDOW - d, now + d);
  }

  lemma SkewedFrom(ts: seq<real>, k: nat, lo: real, d: real)
    requires Skewed(ts, d) && d >= 0.0 && k < |ts| && lo <= ts[k]
    ensures forall i :: k <= i < |ts| ==> lo - d <= ts[i]
  {
    forall i | k <= i < |ts| ensures lo - d <= ts[i] {
      if k < i { assert ts[i] >= ts[k] - d; }
    }
  }

  /** In every run with readings at most d seconds out of order, a call that is refused at reading `now` has the limit
      of accepted calls between `back` seconds before it and `ahead` seconds after it. */
  ghost predicate RefusalsFound(limit: nat, d: real, back: real, ahead: real) {
    forall times, now :: Skewed(times + [now], d) ==> RefusalFound(times, now, limit, back, ahead)
  }

  predicate RefusalFound(times: seq<real>, now: real, limit: nat, back: real, ahead: real) {
    !CheckLog(Run(times, limit).log, now, limit).1 ==>
      Count(Run(times, limit).accepted, now - back, now + ahead) >= limit
  }

  lemma {:induction false} WiderCountsMore(ts: seq<real>, lo: real, hi: real, lo': real, hi': real)
    requires lo' <= lo && hi <= hi'
    ensures Count(ts, lo, hi) <= Count(ts, lo', hi')
  {
    if ts != [] { WiderCountsMore(ts[..|ts| - 1], lo, hi, lo', hi'); }
  }

  /** The bounds are sharp: with a limit of at least two calls, exactly the intervals from 60 + d seconds before a
      refused call to d seconds after it, and those that hold them, are sure to hold the limit of accepted calls. */
  lemma RefusalWindowIff(limit: nat, d: real, back: real, ahead: real)
    requires limit >= 2 && d >= 0.0
    ensures RefusalsFound(limit, d, back, ahead) <==> back >= 60.0 + d && ahead >= d
  {
    if back >= WINDOW + d && ahead >= d {
      forall times, now | Skewed(times + [now], d) ensures RefusalFound(times, now, limit, back, ahead) {
        if !CheckLog(Run(times, limit).log, now, limit).1 {
          RefusedUnderSkew(times, now, limit, d);
          WiderCountsMore(Run(times, limit).accepted, now - WINDOW - d, now + d, now - back, now + ahead);
        }
      }
    } else if back < WINDOW + d {
      EarlyCallsMissed(limit, d, back, ahead);
    } else {
      LateCallsMissed(limit, d, back, ahead);
    }
  }

  /** One call at 0, the others at -d, refused at 60: the others lie 60 + d seconds back. */
  lemma EarlyCallsMissed(limit: nat, d: real, back: real, ahead: real)
    requires limit >= 2 && d >= 0.0 && back < WINDOW + d
    ensures !RefusalsFound(limit, d, back, ahead)
  {
    var times := [0.0] + seq(limit - 1, _ => -d);
    AllAccepted(times, limit);
    assert Expire(times, WINDOW) == times;
    MostOutside(times, WINDOW - back, WINDOW + ahead);
    assert Skewed(times + [WINDOW], d);
    assert !RefusalFound(times, WINDOW, limit, back, ahead);
  }

  lemma {:induction false} MostOutside(ts: seq<real>, lo: real, hi: real)
    requires |ts| >= 1 && forall i :: 1 <= i < |ts| ==> !(lo <= ts[i] <= hi)
    ensures Count(ts, lo, hi) <= 1
  {
    if |ts| > 1 { MostOutside(ts[..|ts| - 1], lo, hi); } else { assert ts[..0] == []; }
  }

  /** All calls at d, refused at 0: they lie d seconds ahead. */
  lemma LateCallsMissed(limit: nat, d: real, back: real, ahead: real)
    requires limit >= 2 && d >= 0.0 && ahead < d
    ensures !RefusalsFound(limit, d, back, ahead)
  {
    var times := seq(limit, _ => d);
    AllAccepted(times, limit);
    assert Expire(times, 0.0) == times;
    MostOutside(times, 0.0 - back, 0.0 + ahead);
    assert Skewed(times + [0.0], d);
    assert !RefusalFound(times, 0.0, limit, back, ahead);
  }

  lemma {:induction false} AcceptedAreReadings(times: seq<real>, limit: nat, d: real)
    requires Skewed(times, d) && d >= 0.0
    ensures var acc := Run(times, limit).accepted;
            Skewed(acc, d) && forall i :: 0 <= i < |acc| ==> exists m :: 0 <= m < |times| && times[m] == acc[i]
  {
    if times != [] {
      var n := |times| - 1;
      AcceptedAreReadings(times[..n], limit, d);
      var acc := Run(times[..n], limit).accepted;
      forall i | 0 <= i < |acc| ensures times[n] >= acc[i] - d && exists m :: 0 <= m < |times| && times[m] == acc[i] {
        var m :| 0 <= m < |times[..n]| && times[..n][m] == acc[i];
        assert times[m] == acc[i];
      }
    }
  }

  lemma {:induction false} CountAtLeast(ts: seq<real>, k: nat, lo: real, hi: real)
    requires k <= |ts| && forall i :: k <= i < |ts| ==> lo <= ts[i] <= hi
    ensures Count(ts, lo, hi) >= |ts| - k
  {
    if |ts| > k { CountAtLeast(ts[..|ts| - 1], k, lo, hi); }
  }

  lemma RunSnoc(times: seq<real>, now: real, limit: nat)
    ensures Run(times + [now], limit) == Step(Run(times, limit), now, limit)
  {
    assert (times + [now])[..|times|] == times;
  }

  lemma CountSnoc(ts: seq<real>, t: real, lo: real, hi: real)
    ensures Count(ts + [t], lo, hi) == Count(ts, lo, hi) + (if lo <= t <= hi then 1 else 0)
  {
    assert (ts + [t])[..|ts|] == ts;
  }

  // ------------------------------------------------------------------ one charge per request

  /** What credentials resolve to; token and password look-ups are outside the model. */
  datatype Credential = Rejected | Caller(rateKey: string, rpm: int)

  datatype Reply = Pass | Unauthorized | RateLimited | Denied

  /** The per-request context `g`, as far as this code writes it. */
  class Context {
    var authed: bool
    constructor () ensures !authed { authed := false; }
  }

  /** `enforce_api_auth`. The permission guard's answer is a parameter. */
  method EnforceApiAuth(g: Context, limiter: Limiter, who: Credential, permitted: bool, now: real, testing: bool)
    returns (reply: Reply)
    modifies g, limiter
    ensures old(g.authed) ==> reply == Pass && g.authed && limiter.logs == old(limiter.logs)
    ensures !old(g.authed) && who.Rejected? ==> reply == Unauthorized && !g.authed && limiter.logs == old(limiter.logs)
    ensures !old(g.authed) && who.Caller? ==>
              var (log, ok) := if testing || who.rpm <= 0 then (LogOf(old(limiter.logs), who.rateKey), true)
                               else CheckLog(LogOf(old(limiter.logs), who.rateKey), now, who.rpm);
              && g.authed == ok
              && reply == (if !ok then RateLimited else if permitted then Pass else Denied)
              && LogOf(limiter.logs, who.rateKey) == log
              && forall k :: k != who.rateKey ==> LogOf(limiter.logs, k) == LogOf(old(limiter.logs), k)
  {
    if g.authed { return Pass; }
    if who.Rejected? { return Unauthorized; }
    if who.rpm > 0 {
      var ok := limiter.Check(who.rateKey, who.rpm, now, testing);
      if !ok { return RateLimited; }
    }
    g.authed := true;
    return if permitted then Pass else Denied;
  }

  /** A request that meets the central guard and then the decorator consumes one slot: its key's log is what a single
      check at the guard's clock reading leaves, and the decorator adds nothing. */
  method HandleRequest(limiter: Limiter, who: Credential, permitted: bool, atGuard: real, atDecorator: real,
                       central: bool)
    returns (reply: Reply)
    modifies limiter
    ensures who.Caller? && who.rpm > 0 ==>
              var now := if central then atGuard else atDecorator;
              var (log, ok) := CheckLog(LogOf(old(limiter.logs), who.rateKey), now, who.rpm);
              && LogOf(limiter.logs, who.rateKey) == log
              && (reply == Pass <==> ok && permitted)
    ensures forall k :: who.Rejected? || k != who.rateKey ==> LogOf(limiter.logs, k) == LogOf(old(limiter.logs), k)
  {
    var g := new Context();
    if central {
      reply := EnforceApiAuth(g, limiter, who, permitted, atGuard, false);
      if reply != Pass { return; }
    }
    reply := EnforceApiAuth(g, limiter, who, permitted, atDecorator, false);
  }
}
