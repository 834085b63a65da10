/**
 The token-bucket rate limiter (src/security/attack_prevention.cpp:13-95), with
 real numbers for doubles.  A bucket last updated at time zero counts as new, so the
 guarantees are for clocks that have passed zero; `ClockZeroBreaks` shows why.
 */
module RateLimiter {
  import opened Bytes

  /** A clock reading after time zero. */
  type Time = t: int | 1 <= t < 0x8000_0000_0000_0000 witness 1

  datatype Policy = Policy(perMinute: nat, perHour: nat, burst: nat)

  datatype Bucket = Bucket(tokens: real, last: Clock, minuteCount: nat, hourCount: nat,
    minuteStart: Clock, hourStart: Clock)

  const STALE: nat := 7200

  function NewBucket(): Bucket {
    Bucket(0.0, 0, 0, 0, 0, 0)
  }

  /** The tokens that `seconds` bring in. */
  function Gain(p: Policy, seconds: nat): real {
    seconds as real * (p.perMinute as real / 60.0)
  }

  function Refill(p: Policy, b: Bucket, now: Clock): Bucket {
    if b.last == 0 then b.(tokens := p.burst as real, last := now, minuteStart := now, hourStart := now)
    else
      var full := b.tokens + Gain(p, SubU64(now, b.last));
      b.(tokens := if full <= p.burst as real then full else p.burst as real, last := now)
  }

  /** Counters whose window is over start again. */
  function Roll(b: Bucket, now: Clock): Bucket {
    var m := if SubU64(now, b.minuteStart) >= 60 then b.(minuteCount := 0, minuteStart := now) else b;
    if SubU64(now, m.hourStart) >= 3600 then m.(hourCount := 0, hourStart := now) else m
  }

  predicate Blocked(p: Policy, b: Bucket) {
    b.minuteCount >= p.perMinute || b.hourCount >= p.perHour || b.tokens < 1.0
  }

  function Ready(p: Policy, b: Bucket, now: Clock): Bucket {
    Roll(Refill(p, b, now), now)
  }

  predicate Allows(p: Policy, b: Bucket, now: Clock) {
    !Blocked(p, Ready(p, b, now))
  }

  /** The bucket after a request at `now`, admitted or not. */
  function After(p: Policy, b: Bucket, now: Clock): Bucket {
    var r := Ready(p, b, now);
    if Blocked(p, r) then r
    else r.(tokens := r.tokens - 1.0, minuteCount := r.minuteCount + 1, hourCount := r.hourCount + 1)
  }

  /** The number of requests admitted out of those made at the given times. */
  function Admitted(p: Policy, b: Bucket, times: seq<Clock>): nat
    decreases |times|
  {
    if times == [] then 0
    else (if Allows(p, b, times[0]) then 1 else 0) + Admitted(p, After(p, b, times[0]), times[1..])
  }

  // ---------------------------------------------------------- invariant

  function Max0(x: real): real {
    if x < 0.0 then 0.0 else x
  }

  /** How much of the last window's spending the current window has not yet earned back. */
  function Debt(p: Policy, b: Bucket): real
    requires b.minuteStart <= b.last
  {
    Max0(p.perMinute as real - Gain(p, b.last - b.minuteStart))
  }

  /**
   What holds of every bucket in use: tokens between zero and burst, windows that
   began in the past, counts within limits, and a deficit of at most one window's
   debt plus what the current window has spent.
   */
  ghost predicate Sane(p: Policy, b: Bucket, now: Clock) {
    if b.last == 0 then b == NewBucket()
    else
      && b.last <= now && b.minuteStart <= b.last && b.hourStart <= b.last
      && b.minuteCount <= p.perMinute && b.hourCount <= p.perHour
      && 0.0 <= b.tokens <= p.burst as real
      && p.burst as real - b.tokens <= Debt(p, b) + b.minuteCount as real
  }

  lemma GainFacts(p: Policy, m: nat, n: nat)
    ensures Gain(p, m + n) == Gain(p, m) + Gain(p, n)
    ensures Gain(p, m) >= 0.0
    ensures Gain(p, 60) == p.perMinute as real
  {
    var rate := p.perMinute as real / 60.0;
    assert (m + n) as real * rate == m as real * rate + n as real * rate;
    GainNonNegative(m as real, rate);
  }

  lemma GainNonNegative(x: real, y: real)
    requires x >= 0.0 && y >= 0.0
    ensures x * y >= 0.0
  {
  }

  lemma GainMonotone(p: Policy, m: nat, n: nat)
    requires m <= n
    ensures Gain(p, m) <= Gain(p, n)
  {
    hide Gain;
    GainFacts(p, m, n - m);
    GainFacts(p, n - m, m);
  }

  lemma RefillSane(p: Policy, b: Bucket, before: Clock, now: Time)
    requires Sane(p, b, before) && before <= now
    ensures Sane(p, Refill(p, b, now), now)
  {
    hide Gain;
    GainFacts(p, 0, 0);
    if b.last != 0 {
      GainFacts(p, now - b.last, 0);
      GainFacts(p, b.last - b.minuteStart, now - b.last);
      assert (b.last - b.minuteStart) + (now - b.last) == now - b.minuteStart;
    }
  }

  lemma RollSane(p: Policy, b: Bucket, now: Time)
    requires Sane(p, b, now) && b.last == now
    ensures Sane(p, Roll(b, now), now)
  {
    hide Gain;
    GainFacts(p, 0, 0);
    if now - b.minuteStart >= 60 { GainMonotone(p, 60, now - b.minuteStart); }
  }

  lemma AfterSane(p: Policy, b: Bucket, before: Clock, now: Time)
    requires Sane(p, b, before) && before <= now
    ensures Sane(p, After(p, b, now), now) && After(p, b, now).last == now
  {
    hide Gain, Refill, Roll;
    RefillSane(p, b, before, now);
    RefillStamps(p, b, now);
    RollSane(p, Refill(p, b, now), now);
    RollStamps(Refill(p, b, now), now);
  }

  lemma RefillStamps(p: Policy, b: Bucket, now: Clock)
    ensures Refill(p, b, now).last == now
  {
  }

  lemma RollStamps(b: Bucket, now: Clock)
    ensures Roll(b, now).last == b.last && Roll(b, now).tokens == b.tokens
  {
  }

  // ----------------------------------------------- the token-bucket bound

  /** What holds of every bucket at any time, zero included. */
  ghost predicate Metered(p: Policy, b: Bucket, now: Clock) {
    && b.last <= now && b.minuteStart <= b.last && b.hourStart <= b.last
    && b.minuteCount <= p.perMinute && b.hourCount <= p.perHour
    && 0.0 <= b.tokens <= p.burst as real
  }

  lemma AfterMetered(p: Policy, b: Bucket, before: Clock, now: Clock)
    requires Metered(p, b, before) && before <= now
    ensures Metered(p, After(p, b, now), now) && After(p, b, now).last == now
    ensures 0.0 <= Available(p, b, now) <= p.burst as real
  {
    hide Gain;
    GainFacts(p, now - b.last, 0);
  }

  ghost predicate Monotone(times: seq<Clock>, from: Clock) {
    && (forall i :: 0 <= i < |times| ==> from <= times[i])
    && (forall i, j :: 0 <= i <= j < |times| ==> times[i] <= times[j])
  }

  /** The tokens a bucket can spend at `now`. */
  function Available(p: Policy, b: Bucket, now: Clock): real {
    Refill(p, b, now).tokens
  }

  /** Between two requests after time zero at most the elapsed time's gain is added. */
  lemma AvailableLater(p: Policy, b: Bucket, u: Time, v: Time)
    requires Metered(p, b, u) && b.last == u && u <= v
    ensures Available(p, b, v) <= b.tokens + Gain(p, v - u)
  {
    hide Gain;
    GainFacts(p, v - u, 0);
  }

  lemma SpendOne(p: Policy, b: Bucket, now: Clock)
    ensures After(p, b, now).tokens == Available(p, b, now) - (if Allows(p, b, now) then 1.0 else 0.0)
  {
    hide Gain, Refill, Roll;
    RollStamps(Refill(p, b, now), now);
  }

  lemma {:induction false} AdmittedWithin(p: Policy, b: Bucket, times: seq<Clock>, before: Clock, until: Clock)
    requires Metered(p, b, before) && times != [] && Monotone(times, before) && 1 <= times[0]
    requires times[|times| - 1] <= until
    ensures Admitted(p, b, times) as real <= Available(p, b, times[0]) + Gain(p, until - times[0])
    decreases |times|
  {
    hide Gain, Allows, After, Metered, Available;
    var u, b' := times[0], After(p, b, times[0]);
    AfterMetered(p, b, before, u);
    SpendOne(p, b, u);
    GainFacts(p, until - u, 0);
    TokensNonNegative(p, b', u);
    if |times| > 1 {
      var v := times[1];
      AdmittedWithin(p, b', times[1..], u, until);
      AvailableLater(p, b', u, v);
      GainFacts(p, v - u, until - v);
      assert (v - u) + (until - v) == until - u;
    }
  }

  lemma TokensNonNegative(p: Policy, b: Bucket, now: Clock)
    requires Metered(p, b, now)
    ensures 0.0 <= b.tokens
  {
  }

  ghost predicate Between(times: seq<Clock>, s: Clock, t: Clock) {
    s <= t && Monotone(times, s) && forall i :: 0 <= i < |times| ==> times[i] <= t
  }

  /**
   Token-bucket bound: out of any requests of one client between `s` and `t`,
   starting from any reachable bucket, at most burst + (t - s) * rpm / 60 are admitted.
   */
  lemma TokenBucketBound(p: Policy, b: Bucket, times: seq<Clock>, s: Time, t: Clock)
    requires Metered(p, b, s) && Between(times, s, t)
    ensures Admitted(p, b, times) as real <= p.burst as real + Gain(p, t - s)
  {
    hide Gain, Allows, After, Available;
    GainFacts(p, t - s, 0);
    if times != [] {
      AdmittedWithin(p, b, times, s, t);
      AfterMetered(p, b, s, times[0]);
      GainMonotone(p, t - times[0], t - s);
    }
  }

  // ------------------------------------------------------ the window bound

  /** The two fixed windows share their logic: `hour` picks one. */
  function Span(hour: bool): nat { if hour then 3600 else 60 }
  function Limit(p: Policy, hour: bool): nat { if hour then p.perHour else p.perMinute }
  function Count(b: Bucket, hour: bool): nat { if hour then b.hourCount else b.minuteCount }
  function Start(b: Bucket, hour: bool): Clock { if hour then b.hourStart else b.minuteStart }

  /** A request stays in the window, counting if admitted, or opens a new one; a bucket as of time zero
    keeps its count. */
  lemma WindowStep(p: Policy, b: Bucket, before: Clock, now: Clock, hour: bool)
    requires Metered(p, b, before) && before <= now
    ensures var b', one := After(p, b, now), if Allows(p, b, now) then 1 else 0;
            && Count(b', hour) <= Limit(p, hour)
            && Start(b', hour) == (if b.last != 0 && now - Start(b, hour) < Span(hour) then Start(b, hour) else now)
            && Count(b', hour)
               == (if b.last == 0 || now - Start(b, hour) < Span(hour) then Count(b, hour) else 0) + one
  {
    hide Gain;
  }

  lemma {:induction false} AdmittedInWindow(p: Policy, b: Bucket, times: seq<Clock>, before: Clock, hour: bool)
    requires Metered(p, b, before) && b.last != 0 && Monotone(times, before)
    requires forall i :: 0 <= i < |times| ==> times[i] - Start(b, hour) < Span(hour)
    ensures Admitted(p, b, times) + Count(b, hour) <= Limit(p, hour)
    decreases |times|
  {
    hide Gain, Allows, After;
    if times != [] {
      var b' := After(p, b, times[0]);
      WindowStep(p, b, before, times[0], hour);
      AfterMetered(p, b, before, times[0]);
      AdmittedInWindow(p, b', times[1..], times[0], hour);
    }
  }

  /** In any interval shorter than the window, at most twice the window's limit is admitted, at whatever time. */
  lemma {:induction false} WindowBound(p: Policy, b: Bucket, times: seq<Clock>, s: Clock, hour: bool)
    requires Metered(p, b, s) && Monotone(times, s)
    requires forall i :: 0 <= i < |times| ==> times[i] < s + Span(hour)
    ensures Admitted(p, b, times) <= 2 * Limit(p, hour) - Count(b, hour)
    decreases |times|
  {
    hide Gain, Allows, After;
    CountWithin(p, b, s, hour);
    if times != [] {
      var u, b' := times[0], After(p, b, times[0]);
      WindowStep(p, b, s, u, hour);
      AfterMetered(p, b, s, u);
      if u == 0 || (b.last != 0 && u - Start(b, hour) < Span(hour)) {
        // still the old window: the rest lies in an interval that starts no earlier
        WindowBound(p, b', times[1..], u, hour);
      } else {
        AdmittedInWindow(p, b', times[1..], u, hour);
      }
    }
  }

  lemma CountWithin(p: Policy, b: Bucket, s: Clock, hour: bool)
    requires Metered(p, b, s)
    ensures Count(b, hour) <= Limit(p, hour)
  {
  }

  function AfterAll(p: Policy, times: seq<Clock>): Bucket {
    if times == [] then NewBucket() else After(p, AfterAll(p, times[..|times| - 1]), times[|times| - 1])
  }

  lemma {:induction false} AfterAllMetered(p: Policy, times: seq<Clock>, now: Clock)
    requires Between(times, 0, now)
    ensures Metered(p, AfterAll(p, times), now)
  {
    hide Gain, After;
    if times != [] {
      var n := |times| - 1;
      AfterAllMetered(p, times[..n], times[n]);
      AfterMetered(p, AfterAll(p, times[..n]), times[n], times[n]);
    }
  }

  /** The bound as the policy states it. */
  ghost predicate WithinBurst(p: Policy, history: seq<Clock>, times: seq<Clock>, s: Clock, t: Clock) {
    Admitted(p, AfterAll(p, history), times) as real
    <= p.burst as real + (t - s) as real * (p.perMinute as real / 60.0)
  }

  /**
   The bounds for any stretch [s, t] of any run: `history` is what the client did before.
   Only the burst bound needs the stretch to begin after time zero.
   */
  lemma SegmentBounds(p: Policy, history: seq<Clock>, times: seq<Clock>, s: Clock, t: Clock)
    requires Between(history, 0, s) && Between(times, s, t)
    ensures s != 0 ==> WithinBurst(p, history, times, s, t)
    ensures t - s < 60 ==> Admitted(p, AfterAll(p, history), times) <= 2 * p.perMinute
    ensures t - s < 3600 ==> Admitted(p, AfterAll(p, history), times) <= 2 * p.perHour
  {
    hide AfterAll, Admitted, Metered;
    AfterAllMetered(p, history, s);
    if s != 0 { TokenBucketBound(p, AfterAll(p, history), times, s, t); }
    if t - s < 60 { WindowBound(p, AfterAll(p, history), times, s, false); }
    if t - s < 3600 { WindowBound(p, AfterAll(p, history), times, s, true); }
  }

  /** The burst bound holds of every client, policy and run from a given time on exactly if that time is not zero. */
  lemma TokenBucketBoundIff(s: Clock)
    ensures s != 0
       <==> forall p: Policy, history, times, t: Clock ::
              Between(history, 0, s) && Between(times, s, t) ==> WithinBurst(p, history, times, s, t)
  {
    hide WithinBurst, Between;
    if s != 0 {
      forall p: Policy, history, times, t: Clock | Between(history, 0, s) && Between(times, s, t)
        ensures WithinBurst(p, history, times, s, t)
      {
        SegmentBounds(p, history, times, s, t);
      }
    } else {
      TwiceAtZero();
    }
  }

  /** With a burst of one, two requests at time zero are both admitted. */
  lemma TwiceAtZero()
    ensures Between([], 0, 0) && Between([0, 0], 0, 0) && !WithinBurst(Policy(2, 2, 1), [], [0, 0], 0, 0)
  {
    hide Allows, After;
    ClockZeroBreaks();
  }

  // ------------------------------------------------- what a refusal takes

  /** The request at position `i` of a client's history was admitted. */
  predicate AdmittedAt(p: Policy, history: seq<Clock>, i: nat)
    requires i < |history|
  {
    Allows(p, AfterAll(p, history[..i]), history[i])
  }

  /** How many of the requests from position `k` on were admitted. */
  function AdmittedFrom(p: Policy, history: seq<Clock>, k: nat): nat
    requires k <= |history|
  {
    if k == |history| then 0
    else
      var n := |history| - 1;
      AdmittedFrom(p, history[..n], k) + if AdmittedAt(p, history, n) then 1 else 0
  }

  /** How many of the requests made at or after `since` were admitted. */
  function AdmittedSince(p: Policy, history: seq<Clock>, since: int): nat {
    if history == [] then 0
    else
      var n := |history| - 1;
      AdmittedSince(p, history[..n], since) + if AdmittedAt(p, history, n) && history[n] >= since then 1 else 0
  }

  lemma {:induction false} SinceEarlier(p: Policy, history: seq<Clock>, s: int, t: int)
    requires s <= t
    ensures AdmittedSince(p, history, t) <= AdmittedSince(p, history, s)
  {
    hide AdmittedAt;
    if history != [] { SinceEarlier(p, history[..|history| - 1], s, t); }
  }

  /** A window's count is of requests admitted since the window began. */
  lemma {:induction false} CountIsSince(p: Policy, history: seq<Clock>, hour: bool)
    requires history != [] && Between(history, 1, history[|history| - 1])
    ensures var b := AfterAll(p, history);
            && Metered(p, b, history[|history| - 1]) && b.last == history[|history| - 1]
            && Count(b, hour) <= AdmittedSince(p, history, Start(b, hour))
  {
    hide Gain, Allows, After;
    var n := |history| - 1;
    var front, now := history[..n], history[n];
    assert front != [] ==> Between(front, 1, front[n - 1]);
    AfterAllMetered(p, front, if n == 0 then 0 else front[n - 1]);
    WindowStep(p, AfterAll(p, front), if n == 0 then 0 else front[n - 1], now, hour);
    AfterMetered(p, AfterAll(p, front), if n == 0 then 0 else front[n - 1], now);
    if front != [] {
      CountIsSince(p, front, hour);
    }
  }

  /** What a bucket would hold if it had been full at request `k` and not capped since. */
  function Balance(p: Policy, history: seq<Clock>, k: nat, now: Clock): real
    requires k < |history| && history[k] <= now
  {
    p.burst as real + Gain(p, now - history[k]) - AdmittedFrom(p, history, k) as real
  }

  lemma BalanceNext(p: Policy, history: seq<Clock>, k: nat)
    requires k < |history| - 1 && Between(history, 1, history[|history| - 1])
    ensures var n := |history| - 1;
            && history[..n][k] <= history[n - 1]
            && Balance(p, history, k, history[n])
               == Balance(p, history[..n], k, history[n - 1]) + Gain(p, history[n] - history[n - 1])
                  - (if AdmittedAt(p, history, n) then 1.0 else 0.0)
  {
    hide Gain, AdmittedAt;
    var n := |history| - 1;
    GainFacts(p, history[n - 1] - history[k], history[n] - history[n - 1]);
    assert (history[n - 1] - history[k]) + (history[n] - history[n - 1]) == history[n] - history[k];
  }

  lemma TokensNext(p: Policy, history: seq<Clock>)
    requires |history| > 1 && Between(history, 1, history[|history| - 1])
    ensures var n := |history| - 1;
            var full := AfterAll(p, history[..n]).tokens + Gain(p, history[n] - history[n - 1]);
            AfterAll(p, history).tokens
            == (if full <= p.burst as real then full else p.burst as real)
               - (if AdmittedAt(p, history, n) then 1.0 else 0.0)
  {
    hide Gain, Allows, After, Available, Metered, Start, Count, AdmittedSince;
    var n := |history| - 1;
    var b := AfterAll(p, history[..n]);
    CountIsSince(p, history[..n], false);
    SpendOne(p, b, history[n]);
    AvailableIs(p, b, history[n]);
  }

  lemma TokensFirst(p: Policy, now: Time)
    ensures AfterAll(p, [now]).tokens == p.burst as real - (if AdmittedAt(p, [now], 0) then 1.0 else 0.0)
    ensures Balance(p, [now], 0, now) == AfterAll(p, [now]).tokens
  {
    hide Allows, After;
    assert [now][..0] == [];
    SpendOne(p, NewBucket(), now);
    BalanceNow(p, [now]);
  }

  /** The tokens of a bucket are the least of these balances. */
  lemma {:induction false} TokensAreLeast(p: Policy, history: seq<Clock>, now: Clock) returns (k: nat)
    requires history != [] && now == history[|history| - 1] && Between(history, 1, now)
    ensures k < |history| && AfterAll(p, history).tokens == Balance(p, history, k, now)
    ensures forall i :: 0 <= i < |history| ==> AfterAll(p, history).tokens <= Balance(p, history, i, now)
  {
    hide Gain, AfterAll, AdmittedAt, Balance;
    var n := |history| - 1;
    if n == 0 {
      TokensFirst(p, history[0]);
      assert history == [history[0]];
      k := 0;
    } else {
      var front := history[..n];
      var m := TokensAreLeast(p, front, history[n - 1]);
      TokensNext(p, history);
      BalanceNow(p, history);
      forall i | 0 <= i < n
        ensures AfterAll(p, history).tokens <= Balance(p, history, i, now)
      {
        BalanceNext(p, history, i);
      }
      BalanceNext(p, history, m);
      var full := AfterAll(p, front).tokens + Gain(p, now - history[n - 1]);
      k := if full <= p.burst as real then m else n;
    }
  }

  lemma BalanceNow(p: Policy, history: seq<Clock>)
    requires history != []
    ensures var n := |history| - 1;
            Balance(p, history, n, history[n]) == p.burst as real - (if AdmittedAt(p, history, n) then 1.0 else 0.0)
  {
    hide AdmittedAt, Gain;
    GainFacts(p, 0, 0);
    var n := |history| - 1;
    assert AdmittedFrom(p, history[..n], n) == 0;
  }

  /** Too little is left of the burst and the gain since some earlier request. */
  ghost predicate Spent(p: Policy, history: seq<Clock>, now: Clock) {
    p.burst < 1 || exists k :: 0 <= k < |history| && history[k] <= now && Balance(p, history, k, now) < 1.0
  }

  lemma AvailableIs(p: Policy, b: Bucket, now: Time)
    requires b.last <= now
    ensures Available(p, b, now)
         == if b.last == 0 || b.tokens + Gain(p, now - b.last) > p.burst as real then p.burst as real
            else b.tokens + Gain(p, now - b.last)
  {
    hide Gain;
  }

  /** The tokens run out exactly if, since some request, all but less than one of what came in was spent. */
  lemma SpentIff(p: Policy, history: seq<Clock>, now: Time)
    requires Between(history, 1, now)
    ensures Available(p, AfterAll(p, history), now) < 1.0 <==> Spent(p, history, now)
  {
    hide Gain, AfterAll, Balance, Available;
    if history == [] {
      NoHistory(p);
      AvailableIs(p, NewBucket(), now);
    } else {
      SpentLater(p, history, history[|history| - 1], now);
    }
  }

  lemma SpentLater(p: Policy, history: seq<Clock>, last: Clock, now: Time)
    requires history != [] && last == history[|history| - 1] && Between(history, 1, now)
    ensures Available(p, AfterAll(p, history), now) < 1.0 <==> Spent(p, history, now)
  {
    hide Gain, AfterAll, Balance, Available, Metered, Start, Count;
    var b := AfterAll(p, history);
    CountIsSince(p, history, false);
    AvailableIs(p, b, now);
    var k := TokensAreLeast(p, history, last);
    BalanceLater(p, history, k, last, now);
    if i :| 0 <= i < |history| && history[i] <= now && Balance(p, history, i, now) < 1.0 {
      BalanceLater(p, history, i, last, now);
    }
  }

  lemma BalanceLater(p: Policy, history: seq<Clock>, k: nat, last: Clock, now: Clock)
    requires k < |history| && history[k] <= last <= now
    ensures Balance(p, history, k, now) == Balance(p, history, k, last) + Gain(p, now - last)
  {
    hide Gain;
    GainFacts(p, last - history[k], now - last);
    assert (last - history[k]) + (now - last) == now - history[k];
  }

  /**
   A request after time zero is refused only for cause: the minute's allowance was used
   within the last 60 s, or the hour's within the last 3600 s, or the burst and the gain
   since some earlier request are spent; and in the last case it always is.
   */
  lemma RefusedOnlyForCause(p: Policy, history: seq<Clock>, now: Time)
    requires Between(history, 1, now)
    ensures !Allows(p, AfterAll(p, history), now) ==>
              || AdmittedSince(p, history, now - 59) >= p.perMinute
              || AdmittedSince(p, history, now - 3599) >= p.perHour
              || Spent(p, history, now)
    ensures Spent(p, history, now) ==> !Allows(p, AfterAll(p, history), now)
  {
    hide Gain, AfterAll, Balance, Spent, AdmittedSince;
    SpentIff(p, history, now);
    var b := AfterAll(p, history);
    if history == [] {
      assert b == NewBucket() by { NoHistory(p); }
      assert Available(p, b, now) == Ready(p, b, now).tokens;
    } else {
      CountIsSince(p, history, false);
      CountIsSince(p, history, true);
      RollStamps(Refill(p, b, now), now);
      if now - b.minuteStart < 60 { SinceEarlier(p, history, now - 59, b.minuteStart); }
      if now - b.hourStart < 3600 { SinceEarlier(p, history, now - 3599, b.hourStart); }
    }
  }

  lemma NoHistory(p: Policy)
    ensures AfterAll(p, []) == NewBucket()
  {
  }

  // ------------------------------------------------- cleanup is unobservable

  predicate Stale(b: Bucket, now: Clock) {
    SubU64(now, b.last) > STALE
  }

  /** After more than two hours of silence a bucket is full again: its deficit never exceeds two windows' spending. */
  lemma StaleIsNew(p: Policy, b: Bucket, before: Clock, now: Time)
    requires Sane(p, b, before) && b.last != 0 && before <= now && b.last + STALE < now
    ensures Ready(p, b, now) == Ready(p, NewBucket(), now)
  {
    hide Gain;
    GainFacts(p, b.last - b.minuteStart, 0);
    GainFacts(p, 60, 60);
    GainMonotone(p, 120, now - b.last);
    assert p.burst as real - b.tokens <= 2.0 * p.perMinute as real;
  }

  type Buckets = map<Hash, Bucket>

  /** Cleanup removes exactly the clients not heard of for over two hours (or, the clock having gone back, at all). */
  lemma CleanupIff(p: Policy, m: Buckets, now: Clock, client: Hash)
    ensures client in Apply(p, m, Cleanup(now)) <==> client in m && m[client].last <= now <= m[client].last + 7200
    ensures client in Apply(p, m, Cleanup(now)) ==> Apply(p, m, Cleanup(now))[client] == m[client]
  {
  }

  datatype Op =
    | Request(client: Hash, now: Clock)
    | Cleanup(now: Clock)

  function BucketOf(m: Buckets, client: Hash): Bucket {
    if client in m then m[client] else NewBucket()
  }

  function Apply(p: Policy, m: Buckets, op: Op): Buckets {
    match op
    case Request(client, now) => m[client := After(p, BucketOf(m, client), now)]
    case Cleanup(now) => map client | client in m && !Stale(m[client], now) :: m[client]
  }

  /** The answers a limiter gives to the requests of a run. */
  function Answers(p: Policy, m: Buckets, ops: seq<Op>): seq<bool>
    decreases |ops|
  {
    if ops == [] then []
    else
      var rest := Answers(p, Apply(p, m, ops[0]), ops[1..]);
      if ops[0].Request? then [Allows(p, BucketOf(m, ops[0].client), ops[0].now)] + rest else rest
  }

  function WithoutCleanup(ops: seq<Op>): seq<Op> {
    if ops == [] then []
    else (if ops[0].Request? then [ops[0]] else []) + WithoutCleanup(ops[1..])
  }

  ghost predicate InOrder(ops: seq<Op>, from: Clock) {
    && (forall i :: 0 <= i < |ops| ==> from <= ops[i].now)
    && (forall i, j :: 0 <= i <= j < |ops| ==> ops[i].now <= ops[j].now)
  }

  /** `x` is `y` minus some buckets that have been idle for over two hours. */
  ghost predicate Trimmed(p: Policy, x: Buckets, y: Buckets, now: Clock) {
    && (forall c :: c in y ==> Sane(p, y[c], now) && y[c].last != 0)
    && (forall c :: c in x ==> c in y && x[c] == y[c])
    && (forall c :: c in y && c !in x ==> y[c].last + STALE < now)
  }

  lemma RequestAgrees(p: Policy, x: Buckets, y: Buckets, before: Clock, client: Hash, now: Time)
    requires Trimmed(p, x, y, before) && before <= now
    ensures Allows(p, BucketOf(x, client), now) == Allows(p, BucketOf(y, client), now)
    ensures Trimmed(p, Apply(p, x, Request(client, now)), Apply(p, y, Request(client, now)), now)
  {
    hide Ready, Gain;
    if client in y && client !in x { StaleIsNew(p, y[client], before, now); }
    if client in y { AfterSane(p, y[client], before, now); } else { AfterSane(p, NewBucket(), before, now); }
  }

  lemma CleanupTrims(p: Policy, x: Buckets, y: Buckets, before: Clock, now: Time)
    requires Trimmed(p, x, y, before) && before <= now
    ensures Trimmed(p, Apply(p, x, Cleanup(now)), y, now)
  {
    hide Gain;
  }

  lemma {:induction false} SameAnswers(p: Policy, x: Buckets, y: Buckets, ops: seq<Op>, before: Clock)
    requires Trimmed(p, x, y, before) && InOrder(ops, before) && 1 <= before
    ensures Answers(p, x, ops) == Answers(p, y, WithoutCleanup(ops))
    decreases |ops|
  {
    hide Apply, Allows, Trimmed;
    if ops != [] {
      var now := ops[0].now;
      if ops[0].Request? {
        var client := ops[0].client;
        RequestAgrees(p, x, y, before, client, now);
        SameAnswers(p, Apply(p, x, ops[0]), Apply(p, y, ops[0]), ops[1..], now);
        assert WithoutCleanup(ops)[1..] == WithoutCleanup(ops[1..]);
      } else {
        CleanupTrims(p, x, y, before, now);
        assert WithoutCleanup(ops) == WithoutCleanup(ops[1..]);
        SameAnswers(p, Apply(p, x, ops[0]), y, ops[1..], now);
      }
    }
  }

  /**
   Stale-bucket cleanup is unobservable: whatever the policy, and wherever in a run
   it happens, a limiter that cleans up answers every request as one that never does.
   */
  lemma CleanupUnobservable(p: Policy, ops: seq<Op>)
    requires InOrder(ops, 1)
    ensures Answers(p, map[], ops) == Answers(p, map[], WithoutCleanup(ops))
  {
    SameAnswers(p, map[], map[], ops, 1);
  }

  /** One request at time zero, a cleanup two hours later, and a second request. */
  function AroundZero(): seq<Op> {
    [Request(0, 0), Cleanup(7201), Request(0, 7201)]
  }

  /** A bucket after one admitted request at time zero. */
  function UsedAtZero(): Bucket {
    Bucket(0.0, 0, 1, 1, 0, 0)
  }

  lemma AtZero(p: Policy)
    requires p.burst == 1 && p.perMinute > 0 && p.perHour > 0
    ensures After(p, NewBucket(), 0) == UsedAtZero()
    ensures Allows(p, NewBucket(), 0) && Allows(p, NewBucket(), 7201)
    ensures Allows(p, UsedAtZero(), 0) <==> p.perMinute > 1 && p.perHour > 1
    ensures Allows(p, UsedAtZero(), 7201) <==> p.perMinute > 1 && p.perHour > 1
  {
  }

  lemma CleanedAtZero(p: Policy)
    requires p == Policy(1, 1, 1)
    ensures Answers(p, map[], AroundZero()) == [true, true]
  {
    hide Allows, After;
    AtZero(p);
    var ops, one, none: Buckets := AroundZero(), map[0 := UsedAtZero()], map[];
    assert Apply(p, none, Request(0, 0)) == one && Apply(p, one, Cleanup(7201)) == none;
    assert ops[1..] == [Cleanup(7201), Request(0, 7201)] && ops[1..][1..] == [Request(0, 7201)];
    LastAnswer(p, none, 0, 7201);
  }

  lemma UncleanedAtZero(p: Policy)
    requires p == Policy(1, 1, 1)
    ensures Answers(p, map[], WithoutCleanup(AroundZero())) == [true, false]
  {
    hide Allows, After;
    AtZero(p);
    var one, none: Buckets := map[0 := UsedAtZero()], map[];
    assert Apply(p, none, Request(0, 0)) == one;
    RequestsAroundZero();
    assert [Request(0, 0), Request(0, 7201)][1..] == [Request(0, 7201)];
    LastAnswer(p, one, 0, 7201);
  }

  lemma RequestsAroundZero()
    ensures WithoutCleanup(AroundZero()) == [Request(0, 0), Request(0, 7201)]
  {
    var ops := AroundZero();
    assert ops[1..] == [Cleanup(7201), Request(0, 7201)] && ops[1..][1..] == [Request(0, 7201)];
    assert [Request(0, 7201)][1..] == [];
  }

  /**
   The counts of time zero are kept when the bucket is refilled as a new one, but not
   when it is cleaned up; and at time zero every request finds the bucket full.
   */
  lemma ClockZeroBreaks()
    ensures var p := Policy(1, 1, 1);
            && Answers(p, map[], AroundZero()) == [true, true]
            && Answers(p, map[], WithoutCleanup(AroundZero())) == [true, false]
    ensures Admitted(Policy(2, 2, 1), NewBucket(), [0, 0]) == 2
  {
    hide Allows, After, Answers, WithoutCleanup, AroundZero;
    CleanedAtZero(Policy(1, 1, 1));
    UncleanedAtZero(Policy(1, 1, 1));
    AtZero(Policy(2, 2, 1));
    assert [0, 0][1..] == [0] && [0][1..] == [];
  }

  lemma LastAnswer(p: Policy, m: Buckets, client: Hash, now: Clock)
    ensures Answers(p, m, [Request(client, now)]) == [Allows(p, BucketOf(m, client), now)]
  {
    hide Allows, Apply;
    assert [Request(client, now)][1..] == [];
  }

  /** Cleanup is unobservable in all runs from a given time on exactly if that time is not zero. */
  lemma CleanupUnobservableIff(from: Clock)
    ensures from != 0 <==>
              forall p: Policy, ops :: InOrder(ops, from) ==>
                Answers(p, map[], ops) == Answers(p, map[], WithoutCleanup(ops))
  {
    hide Answers, WithoutCleanup, InOrder;
    if from != 0 {
      forall p: Policy, ops | InOrder(ops, from)
        ensures Answers(p, map[], ops) == Answers(p, map[], WithoutCleanup(ops))
      {
        LaterIsFine(ops, from);
        CleanupUnobservable(p, ops);
      }
    } else {
      ClockZeroBreaks();
      AroundZeroInOrder();
      assert [true, true][1] != [true, false][1];
      assert Answers(Policy(1, 1, 1), map[], AroundZero())
          != Answers(Policy(1, 1, 1), map[], WithoutCleanup(AroundZero()));
    }
  }

  lemma LaterIsFine(ops: seq<Op>, from: Clock)
    requires InOrder(ops, from) && from != 0
    ensures InOrder(ops, 1)
  {
  }

  lemma AroundZeroInOrder()
    ensures InOrder(AroundZero(), 0)
  {
  }

  // ------------------------------------------------------------ the object

  class Limiter {
    const policy: Policy
    var buckets: Buckets
    var total: nat
    var blocked: nat

    constructor (policy: Policy)
      ensures this.policy == policy && buckets == map[] && total == 0 && blocked == 0
    {
      this.policy := policy;
      buckets, total, blocked := map[], 0, 0;
    }

    method AllowRequest(client: Hash, now: Clock) returns (ok: bool)
      modifies this
      ensures ok == Allows(policy, BucketOf(old(buckets), client), now)
      ensures buckets == Apply(policy, old(buckets), Request(client, now))
      ensures total == old(total) + 1 && blocked == old(blocked) + if ok then 0 else 1
    {
      hide Gain;
      total := total + 1;
      var b := if client in buckets then buckets[client] else NewBucket();
      b := RefillTokens(b, now);
      if SubU64(now, b.minuteStart) >= 60 {
        b := b.(minuteCount := 0, minuteStart := now);
      }
      if SubU64(now, b.hourStart) >= 3600 {
        b := b.(hourCount := 0, hourStart := now);
      }
      if b.minuteCount >= policy.perMinute || b.hourCount >= policy.perHour || b.tokens < 1.0 {
        blocked := blocked + 1;
        buckets := buckets[client := b];
        return false;
      }
      b := b.(tokens := b.tokens - 1.0, minuteCount := b.minuteCount + 1, hourCount := b.hourCount + 1);
      buckets := buckets[client := b];
      return true;
    }

    method RefillTokens(b: Bucket, now: Clock) returns (r: Bucket)
      ensures r == Refill(policy, b, now)
    {
      if b.last == 0 {
        return b.(tokens := policy.burst as real, last := now, minuteStart := now, hourStart := now);
      }
      var elapsed := SubU64(now, b.last);
      var full := b.tokens + elapsed as real * (policy.perMinute as real / 60.0);
      r := b.(tokens := if full <= policy.burst as real then full else policy.burst as real, last := now);
    }

    method CleanupStaleEntries(now: Clock)
      modifies this`buckets
      ensures buckets == Apply(policy, old(buckets), Cleanup(now))
    {
      var left, kept := buckets.Keys, buckets;
      while left != {}
        invariant left <= buckets.Keys && buckets == old(buckets)
        invariant forall c :: c in kept <==> c in buckets && (c in left || !Stale(buckets[c], now))
        invariant forall c :: c in kept ==> kept[c] == buckets[c]
        decreases left
      {
        var c :| c in left;
        left := left - {c};
        if SubU64(now, buckets[c].last) > STALE { kept := kept - {c}; }
      }
      buckets := kept;
    }
  }
}
