/** What the quotas mean in numbers: how many calls are admitted at once, and how many later. */
module QuotaRates {
  import opened Text
  import opened Runs
  import opened TokenBucket
  import opened RateLimit
  import opened LimiterRuns
  import opened RefusedCalls
  import opened InitializeRuns

  // ---- One bucket

  /** The fill of a bucket after `n` checks at one instant. */
  function Spent(q: Quota, fill: nat, now: nat, n: nat): nat {
    if n == 0 then fill
    else
      var before := Spent(q, fill, now, n - 1);
      if HasToken(q, before, now) then before + q.period else before
  }

  lemma {:induction false} SpentExactly(q: Quota, fill: nat, now: nat, n: nat, tokens: nat)
    requires fill + q.period * tokens <= now + Capacity(q) < fill + q.period * tokens + q.period
    ensures Spent(q, fill, now, n) == fill + q.period * (if n < tokens then n else tokens)
    ensures HasToken(q, Spent(q, fill, now, n), now) <==> n < tokens
  {
    if n > 0 {
      SpentExactly(q, fill, now, n - 1, tokens);
      OnePeriodMore(q.period, n - 1);
    }
    if n < tokens {
      OnePeriodMore(q.period, n);
      MorePeriods(q.period, n + 1, tokens);
    }
  }

  /** The tokens of a bucket that was drained `elapsed` ago: one per period, at most the burst. */
  function TokensAfter(q: Quota, elapsed: nat): nat
    requires ValidQuota(q)
  {
    if elapsed / q.period < q.burst then elapsed / q.period else q.burst
  }

  lemma FullHasBurst(q: Quota, now: nat)
    requires ValidQuota(q)
    ensures now + q.period * q.burst <= now + Capacity(q) < now + q.period * q.burst + q.period
  {
  }

  lemma DrainedHasTokens(q: Quota, now: nat, elapsed: nat)
    requires ValidQuota(q)
    ensures var fill, tokens := Max(now + Capacity(q), now + elapsed), TokensAfter(q, elapsed);
      fill + q.period * tokens <= now + elapsed + Capacity(q) < fill + q.period * tokens + q.period
  {
    var n := elapsed / q.period;
    assert elapsed == q.period * n + elapsed % q.period;
    if n < q.burst {
      OnePeriodMore(q.period, n);
      MorePeriods(q.period, n + 1, q.burst);
    } else {
      MorePeriods(q.period, q.burst, n);
    }
  }

  // ---- The tool-call limiter

  /** The same bearer and subject, `n` times at one instant. */
  function Same(bearer: string, subject: string, now: nat, n: nat): (calls: seq<Call>)
    ensures |calls| == n && forall i :: 0 <= i < n ==> calls[i] == Call(bearer, Some(subject), now, "", "")
  {
    seq(n, _ => Call(bearer, Some(subject), now, "", ""))
  }

  lemma {:induction false} BothSpend(q: Quota, fill: nat, now: nat, n: nat)
    ensures ChargedTimes(q, Fills(fill, fill), now, n) == Fills(Spent(q, fill, now, n), Spent(q, fill, now, n))
  {
    if n > 0 {
      BothSpend(q, fill, now, n - 1);
    }
  }

  /** The calls are a storm, whose end is out of sight. */
  lemma SameIsStorm(bearer: string, subject: string, now: nat, n: nat)
    ensures Same(bearer, subject, now, n) == Storm(bearer, subject, n, now, now)[..n]
  {
  }

  lemma SameSpends(q: Quota, calls: seq<Call>, bearer: string, subject: string, now: nat, n: nat, fill: nat)
    requires FillsAt(MapsAfter(q, calls), bearer, subject, now) == Fills(fill, fill)
    ensures FillsAt(MapsAfter(q, calls + Same(bearer, subject, now, n)), bearer, subject, now) ==
            Fills(Spent(q, fill, now, n), Spent(q, fill, now, n))
  {
    SameIsStorm(bearer, subject, now, n);
    StormCharges(q, calls, bearer, subject, n, now, now, n);
    BothSpend(q, fill, now, n);
  }

  /** Of any number of calls at one instant, exactly the first `tokens` are admitted. */
  lemma FirstAreAdmitted(
    q: Quota, calls: seq<Call>, bearer: string, subject: string, now: nat, n: nat, fill: nat, tokens: nat)
    requires FillsAt(MapsAfter(q, calls), bearer, subject, now) == Fills(fill, fill)
    requires fill + q.period * tokens <= now + Capacity(q) < fill + q.period * tokens + q.period
    ensures IsAdmitted(q, calls + Same(bearer, subject, now, n + 1)) <==> n < tokens
  {
    var front, c := calls + Same(bearer, subject, now, n), Call(bearer, Some(subject), now, "", "");
    assert calls + Same(bearer, subject, now, n + 1) == front + [c];
    OneMoreCall(q, front, c);
    SameSpends(q, calls, bearer, subject, now, n, fill);
    FillsAfterCall(q, MapsAfter(q, front), c, subject, now);
    SpentExactly(q, fill, now, n, tokens);
  }

  /** With a number per minute, the first so many calls of a new bearer with a new subject are admitted at
      one instant, and no more. */
  lemma BurstIsTheNumber(perMinute: nat, bearer: string, subject: string, now: nat, k: nat)
    requires 0 < perMinute < U32_LIMIT
    ensures var q := Quota(60_000_000_000 / perMinute, perMinute);
      IsAdmitted(q, Same(bearer, subject, now, k + 1)) <==> k < perMinute
  {
    var q := PerMinute(perMinute);
    QuotasRefillWithinIdleTtl(perMinute);
    FullHasBurst(q, now);
    assert MapsAfter(q, []) == Maps(map[], map[]);
    FirstAreAdmitted(q, [], bearer, subject, now, k, now, perMinute);
    assert [] + Same(bearer, subject, now, k + 1) == Same(bearer, subject, now, k + 1);
  }

  /** Once they are spent, exactly one more call is admitted for each full 60 seconds over the number that
      have passed, up to the number again. */
  lemma OneMorePerPeriod(perMinute: nat, bearer: string, subject: string, now: nat, elapsed: nat, k: nat)
    requires 0 < perMinute < U32_LIMIT
    ensures var q := Quota(60_000_000_000 / perMinute, perMinute);
      q.period > 0 &&
      (IsAdmitted(q, Same(bearer, subject, now, perMinute) + Same(bearer, subject, now + elapsed, k + 1)) <==>
       k < perMinute && k < elapsed / q.period)
  {
    var q, later := PerMinute(perMinute), now + elapsed;
    QuotasRefillWithinIdleTtl(perMinute);
    var drained := Same(bearer, subject, now, perMinute);
    DrainedFills(q, bearer, subject, now, later);
    DrainedHasTokens(q, now, elapsed);
    FirstAreAdmitted(q, drained, bearer, subject, later, k, Max(now + Capacity(q), later), TokensAfter(q, elapsed));
  }

  lemma DrainedFills(q: Quota, bearer: string, subject: string, now: nat, later: nat)
    requires ValidQuota(q) && now <= later
    ensures var fill := Max(now + Capacity(q), later);
      FillsAt(MapsAfter(q, Same(bearer, subject, now, q.burst)), bearer, subject, later) == Fills(fill, fill)
  {
    var drained := Same(bearer, subject, now, q.burst);
    assert MapsAfter(q, []) == Maps(map[], map[]);
    SameSpends(q, [], bearer, subject, now, q.burst, now);
    assert [] + drained == drained;
    FullHasBurst(q, now);
    SpentExactly(q, now, now, q.burst, q.burst);
    var maps := MapsAfter(q, drained);
    FillAfterRequest(q, maps.bearer, bearer, now, "", later);
    FillAfterRequest(q, maps.sub, subject, now, "", later);
  }

  // ---- The initialize limiter

  /** The same bearer and subject, or no subject, `n` times at one instant. */
  function Sessions(bearer: string, sub: Option<string>, now: nat, n: nat): (calls: seq<Call>)
    ensures |calls| == n && forall i :: 0 <= i < n ==> calls[i] == Call(bearer, sub, now, "", "")
  {
    seq(n, _ => Call(bearer, sub, now, "", ""))
  }

  /** The fill of the one bucket that is charged. */
  function SessionFill(maps: Maps, bearer: string, sub: Option<string>, now: nat): nat {
    match sub
    case Some(s) => Fill(maps.sub, s, now)
    case None => Fill(maps.bearer, bearer, now)
  }

  lemma OneMoreSession(q: Quota, front: seq<Call>, c: Call, later: nat)
    requires c.now <= later
    ensures var fill := SessionFill(InitializeMapsAfter(q, front), c.bearer, c.sub, c.now);
      && Initialized(q, front + [c]) == HasToken(q, fill, c.now)
      && SessionFill(InitializeMapsAfter(q, front + [c]), c.bearer, c.sub, later) ==
         Max(if HasToken(q, fill, c.now) then fill + q.period else fill, later)
  {
    assert Before(front + [c]) == front;
    var maps := InitializeMapsAfter(q, front);
    match c.sub
    case Some(s) => FillAfterRequest(q, maps.sub, s, c.now, c.subVictim, later);
    case None => FillAfterRequest(q, maps.bearer, c.bearer, c.now, c.bearerVictim, later);
  }

  lemma {:induction false} SessionsSpend(
    q: Quota, calls: seq<Call>, bearer: string, sub: Option<string>, now: nat, n: nat, fill: nat)
    requires SessionFill(InitializeMapsAfter(q, calls), bearer, sub, now) == fill && fill >= now
    ensures SessionFill(InitializeMapsAfter(q, calls + Sessions(bearer, sub, now, n)), bearer, sub, now) ==
            Spent(q, fill, now, n) >= now
  {
    var all := calls + Sessions(bearer, sub, now, n);
    if n == 0 {
      assert all == calls;
    } else {
      SessionsSpend(q, calls, bearer, sub, now, n - 1, fill);
      var c := Call(bearer, sub, now, "", "");
      assert all == calls + Sessions(bearer, sub, now, n - 1) + [c];
      OneMoreSession(q, calls + Sessions(bearer, sub, now, n - 1), c, now);
    }
  }

  lemma FirstSessionsOpen(
    q: Quota, calls: seq<Call>, bearer: string, sub: Option<string>, now: nat, n: nat, fill: nat, tokens: nat)
    requires SessionFill(InitializeMapsAfter(q, calls), bearer, sub, now) == fill && fill >= now
    requires fill + q.period * tokens <= now + Capacity(q) < fill + q.period * tokens + q.period
    ensures Initialized(q, calls + Sessions(bearer, sub, now, n + 1)) <==> n < tokens
  {
    var front, c := calls + Sessions(bearer, sub, now, n), Call(bearer, sub, now, "", "");
    assert calls + Sessions(bearer, sub, now, n + 1) == front + [c];
    SessionsSpend(q, calls, bearer, sub, now, n, fill);
    OneMoreSession(q, front, c, now);
    SpentExactly(q, fill, now, n, tokens);
  }

  lemma SessionBurst(q: Quota, bearer: string, sub: Option<string>, now: nat, k: nat)
    requires ValidQuota(q)
    ensures Initialized(q, Sessions(bearer, sub, now, k + 1)) <==> k < q.burst
  {
    FullHasBurst(q, now);
    assert InitializeMapsAfter(q, []) == Maps(map[], map[]);
    assert [] + Sessions(bearer, sub, now, k + 1) == Sessions(bearer, sub, now, k + 1);
    FirstSessionsOpen(q, [], bearer, sub, now, k, now, q.burst);
  }

  lemma SessionRefill(q: Quota, bearer: string, sub: Option<string>, now: nat, elapsed: nat, k: nat)
    requires ValidQuota(q)
    ensures Initialized(q, Sessions(bearer, sub, now, q.burst) + Sessions(bearer, sub, now + elapsed, k + 1)) <==>
            k < TokensAfter(q, elapsed)
  {
    SpentSessions(q, bearer, sub, now, now + elapsed);
    DrainedHasTokens(q, now, elapsed);
    FirstSessionsOpen(q, Sessions(bearer, sub, now, q.burst), bearer, sub, now + elapsed, k,
                      Max(now + Capacity(q), now + elapsed), TokensAfter(q, elapsed));
  }

  /** With the service's constants, 32 sessions open at one instant, and then one for each full minute. */
  lemma SessionsInNumbers(bearer: string, sub: Option<string>, now: nat, elapsed: nat, k: nat)
    ensures var q := InitializeQuota(INITIALIZE_REPLENISH, MAX_INITIALIZES_PER_IDENTITY);
      && (Initialized(q, Sessions(bearer, sub, now, k + 1)) <==> k < 32)
      && (Initialized(q, Sessions(bearer, sub, now, 32) + Sessions(bearer, sub, now + elapsed, k + 1)) <==>
          k < 32 && k < elapsed / 60_000_000_000)
  {
    var q := Quota(60_000_000_000, 32);
    SessionBurst(q, bearer, sub, now, k);
    SessionRefill(q, bearer, sub, now, elapsed, k);
  }

  lemma SpentSessions(q: Quota, bearer: string, sub: Option<string>, now: nat, later: nat)
    requires ValidQuota(q) && now <= later
    ensures SessionFill(InitializeMapsAfter(q, Sessions(bearer, sub, now, q.burst)), bearer, sub, later) ==
            Max(now + Capacity(q), later)
  {
    var all := Sessions(bearer, sub, now, q.burst);
    assert InitializeMapsAfter(q, []) == Maps(map[], map[]);
    assert [] + all == all;
    SessionsSpend(q, [], bearer, sub, now, q.burst, now);
    FullHasBurst(q, now);
    SpentExactly(q, now, now, q.burst, q.burst);
    var maps := InitializeMapsAfter(q, all);
    match sub
    case Some(s) => FillAfterRequest(q, maps.sub, s, now, "", later);
    case None => FillAfterRequest(q, maps.bearer, bearer, now, "", later);
  }
}
