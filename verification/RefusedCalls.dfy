/** Which refused calls of the tool-call limiter cost anything: those that the bearer bucket refuses
    can be deleted from a run, those that the subject bucket refuses cannot.
 */
module RefusedCalls {
  import opened Text
  import opened Runs
  import opened TokenBucket
  import opened BucketMap
  import opened MapRuns
  import opened RefusedRequests
  import opened RateLimit
  import opened LimiterRuns

  // ---- Calls that the bearer bucket refuses

  /** Only calls that the bearer bucket refuses are deleted. */
  predicate DeletesBearerRefused(q: Quota, calls: seq<Call>, keep: seq<bool>)
    requires |keep| == |calls|
  {
    calls != [] ==>
      && DeletesBearerRefused(q, Before(calls), Before(keep))
      && (Latest(keep) || !BearerGrants(q, MapsAfter(q, Before(calls)), Latest(calls)))
  }

  lemma BearerEventsOf(calls: seq<Call>)
    requires calls != []
    ensures var c := Latest(calls);
      && Before(BearerEvents(calls)) == BearerEvents(Before(calls))
      && Latest(BearerEvents(calls)) == Ask(c.bearer, c.now, c.bearerVictim)
  {
  }

  lemma {:induction false} MaskErasesBearerRefused(q: Quota, calls: seq<Call>, keep: seq<bool>)
    requires |keep| == |calls| && DeletesBearerRefused(q, calls, keep)
    ensures ErasesRefused(q, BearerEvents(calls), Masked(BearerEvents(calls), keep))
  {
    if calls != [] {
      MaskErasesBearerRefused(q, Before(calls), Before(keep));
      BearerEventsOf(calls);
      MaskedBefore(BearerEvents(calls), keep);
      LimiterIsTwoMaps(q, Before(calls));
    }
  }

  /** The shorter run has the bearer map of the masked run, and the very subject map of the longer one. */
  lemma {:induction false} RetainedMaps(q: Quota, calls: seq<Call>, keep: seq<bool>)
    requires ValidQuota(q) && Capacity(q) <= BUCKET_IDLE_TTL
    requires InOrder(calls) && NeverEvicts(q, BearerEvents(calls))
    requires |keep| == |calls| && DeletesBearerRefused(q, calls, keep)
    ensures var after := MapsAfter(q, Retained(calls, keep));
      && after.bearer == MapAfter(q, Masked(BearerEvents(calls), keep))
      && after.sub == MapsAfter(q, calls).sub
  {
    if calls != [] {
      var masked, c := Masked(BearerEvents(calls), keep), Latest(calls);
      BearerEventsOf(calls);
      RetainedMaps(q, Before(calls), Before(keep));
      MaskedBefore(BearerEvents(calls), keep);
      if Latest(keep) {
        RetainedLast(calls, keep);
        SameBearerDecision(q, calls, keep);
        AsksLast(q, masked, c.bearer, c.now, c.bearerVictim);
        SameSubjectMap(q, MapsAfter(q, Before(Retained(calls, keep))), MapsAfter(q, Before(calls)), c);
      } else {
        PassesOver(q, masked);
        assert MapsAfter(q, calls).sub == MapsAfter(q, Before(calls)).sub;
      }
    }
  }

  lemma SameSubjectMap(q: Quota, a: Maps, b: Maps, c: Call)
    requires a.sub == b.sub && BearerGrants(q, a, c) == BearerGrants(q, b, c)
    ensures AfterCheck(q, a, c).sub == AfterCheck(q, b, c).sub
  {
  }

  /** Deleting calls that the bearer bucket refused does not change what it grants. */
  lemma SameBearerDecision(q: Quota, calls: seq<Call>, keep: seq<bool>)
    requires ValidQuota(q) && Capacity(q) <= BUCKET_IDLE_TTL
    requires InOrder(calls) && calls != [] && NeverEvicts(q, BearerEvents(calls))
    requires |keep| == |calls| && DeletesBearerRefused(q, calls, keep) && Latest(keep)
    requires MapsAfter(q, Before(Retained(calls, keep))).bearer ==
             MapAfter(q, Masked(BearerEvents(Before(calls)), Before(keep)))
    ensures BearerGrants(q, MapsAfter(q, Before(Retained(calls, keep))), Latest(calls)) ==
            BearerGrants(q, MapsAfter(q, Before(calls)), Latest(calls))
  {
    var run := BearerEvents(calls);
    BearerEventsOf(calls);
    MaskedBefore(run, keep);
    MaskErasesBearerRefused(q, calls, keep);
    EventsAreWellTimed(q, calls);
    RefusedRequestsAreErasable(q, run, Masked(run, keep));
    LimiterIsTwoMaps(q, Before(calls));
  }

  /** Deleting any set of calls that the bearer bucket refused leaves every other decision unchanged. */
  lemma BearerRefusalsAreErasable(q: Quota, calls: seq<Call>, keep: seq<bool>)
    requires ValidQuota(q) && Capacity(q) <= BUCKET_IDLE_TTL
    requires InOrder(calls) && calls != []
    requires |keep| == |calls| && Latest(keep)
    ensures NeverEvicts(q, BearerEvents(calls)) && DeletesBearerRefused(q, calls, keep) ==>
      var less := Retained(calls, keep);
      less != [] && Latest(less) == Latest(calls) && IsAdmitted(q, less) == IsAdmitted(q, calls)
  {
    if NeverEvicts(q, BearerEvents(calls)) && DeletesBearerRefused(q, calls, keep) {
      RetainedLast(calls, keep);
      BearerEventsOf(calls);
      RetainedMaps(q, Before(calls), Before(keep));
      SameBearerDecision(q, calls, keep);
    }
  }

  // ---- The two buckets of one bearer and its subject

  /** When the two buckets will be full again. */
  datatype Fills = Fills(bearer: nat, sub: nat)

  function Fill(m: Entries, key: string, now: nat): nat {
    Max(Found(m, key, now).fullAt, now)
  }

  function FillsAt(maps: Maps, bearer: string, subject: string, now: nat): Fills {
    Fills(Fill(maps.bearer, bearer, now), Fill(maps.sub, subject, now))
  }

  function Later(f: Fills, now: nat): Fills {
    Fills(Max(f.bearer, now), Max(f.sub, now))
  }

  predicate HasToken(q: Quota, fill: nat, now: nat) {
    fill + q.period <= now + Capacity(q)
  }

  predicate BothHaveTokens(q: Quota, f: Fills, now: nat) {
    HasToken(q, f.bearer, now) && HasToken(q, f.sub, now)
  }

  /** One call: the bearer bucket first, and the subject bucket only behind it. */
  function Charged(q: Quota, f: Fills, now: nat): Fills {
    if !HasToken(q, f.bearer, now) then f
    else Fills(f.bearer + q.period, if HasToken(q, f.sub, now) then f.sub + q.period else f.sub)
  }

  lemma FillAfterRequest(q: Quota, m: Entries, key: string, now: nat, victim: string, later: nat)
    requires now <= later
    ensures Fill(Requested(q, m, key, now, victim), key, later) ==
            Max(if HasToken(q, Fill(m, key, now), now) then Fill(m, key, now) + q.period else Fill(m, key, now), later)
    ensures Fill(m, key, later) == Max(Fill(m, key, now), later)
    ensures Granted(q, m, key, now) == HasToken(q, Fill(m, key, now), now)
  {
    RequestedEntries(q, m, key, now, victim);
  }

  lemma FillsAfterCall(q: Quota, maps: Maps, c: Call, subject: string, later: nat)
    requires c.sub == Some(subject) && c.now <= later
    ensures var f := FillsAt(maps, c.bearer, subject, c.now);
      && Allows(q, maps, c) == BothHaveTokens(q, f, c.now)
      && FillsAt(AfterCheck(q, maps, c), c.bearer, subject, later) == Later(Charged(q, f, c.now), later)
  {
    FillAfterRequest(q, maps.bearer, c.bearer, c.now, c.bearerVictim, later);
    FillAfterRequest(q, maps.sub, subject, c.now, c.subVictim, later);
  }

  // ---- A storm of retries

  function ChargedTimes(q: Quota, f: Fills, now: nat, n: nat): Fills {
    if n == 0 then f else Charged(q, ChargedTimes(q, f, now, n - 1), now)
  }

  /** `n` calls of one bearer with one subject at one instant, and one more at the end. */
  function Storm(bearer: string, subject: string, n: nat, at: nat, end: nat): (more: seq<Call>)
    ensures |more| == n + 1
    ensures forall i :: 0 <= i <= n ==>
      more[i] == Call(bearer, Some(subject), if i < n then at else end, "", "")
  {
    seq(n + 1, i => Call(bearer, Some(subject), if i < n then at else end, "", ""))
  }

  lemma OneMoreCall(q: Quota, front: seq<Call>, c: Call)
    ensures MapsAfter(q, front + [c]) == AfterCheck(q, MapsAfter(q, front), c)
    ensures IsAdmitted(q, front + [c]) == Allows(q, MapsAfter(q, front), c)
  {
    assert Before(front + [c]) == front;
  }

  lemma {:induction false} StormCharges(
    q: Quota, calls: seq<Call>, bearer: string, subject: string, n: nat, at: nat, end: nat, k: nat)
    requires k <= n
    ensures var f := FillsAt(MapsAfter(q, calls), bearer, subject, at);
      FillsAt(MapsAfter(q, calls + Storm(bearer, subject, n, at, end)[..k]), bearer, subject, at) ==
      ChargedTimes(q, f, at, k)
    decreases k
  {
    var more := Storm(bearer, subject, n, at, end);
    if k == 0 {
      assert calls + more[..0] == calls;
    } else {
      StormCharges(q, calls, bearer, subject, n, at, end, k - 1);
      var f := FillsAt(MapsAfter(q, calls), bearer, subject, at);
      ChargedStays(q, f, at, k - 1);
      assert calls + more[..k] == calls + more[..k - 1] + [more[k - 1]];
      StormStep(q, calls + more[..k - 1], more[k - 1], subject, ChargedTimes(q, f, at, k - 1));
    }
  }

  lemma StormStep(q: Quota, front: seq<Call>, c: Call, subject: string, f: Fills)
    requires c.sub == Some(subject)
    requires f == FillsAt(MapsAfter(q, front), c.bearer, subject, c.now)
    ensures FillsAt(MapsAfter(q, front + [c]), c.bearer, subject, c.now) == Charged(q, f, c.now)
  {
    OneMoreCall(q, front, c);
    FillsAfterCall(q, MapsAfter(q, front), c, subject, c.now);
    ChargedIsLater(q, f, c.now);
  }

  lemma ChargedIsLater(q: Quota, f: Fills, now: nat)
    requires f == Later(f, now)
    ensures Later(Charged(q, f, now), now) == Charged(q, f, now)
  {
  }

  lemma {:induction false} ChargedStays(q: Quota, f: Fills, now: nat, n: nat)
    requires f == Later(f, now)
    ensures ChargedTimes(q, f, now, n) == Later(ChargedTimes(q, f, now, n), now)
  {
    if n > 0 {
      ChargedStays(q, f, now, n - 1);
    }
  }

  /** The decision on the last call of a storm, from the two buckets before it. */
  lemma StormDecision(q: Quota, calls: seq<Call>, bearer: string, subject: string, n: nat, at: nat, end: nat)
    requires at <= end
    ensures var f := FillsAt(MapsAfter(q, calls), bearer, subject, at);
      IsAdmitted(q, calls + Storm(bearer, subject, n, at, end)) ==
      BothHaveTokens(q, Later(ChargedTimes(q, f, at, n), end), end)
  {
    var more := Storm(bearer, subject, n, at, end);
    var front := calls + more[..n];
    StormCharges(q, calls, bearer, subject, n, at, end, n);
    assert calls + more == front + [more[n]];
    OneMoreCall(q, front, more[n]);
    var maps := MapsAfter(q, front);
    FillsAfterCall(q, maps, more[n], subject, end);
    FillAfterRequest(q, maps.bearer, bearer, at, "", end);
    FillAfterRequest(q, maps.sub, subject, at, "", end);
  }

  lemma OnePeriodMore(period: nat, n: nat)
    ensures period * (n + 1) == period * n + period
  {
  }

  lemma MorePeriods(period: nat, n: nat, k: nat)
    requires n <= k
    ensures period * n <= period * k
  {
  }

  /** Calls that the bearer bucket grants all charge it; the subject bucket is charged until it is empty. */
  lemma {:induction false} StormDrains(q: Quota, f: Fills, now: nat, n: nat, k: nat)
    requires f.bearer + q.period * n <= now + Capacity(q)
    requires f.sub + q.period * k <= now + Capacity(q) < f.sub + q.period * k + q.period
    ensures ChargedTimes(q, f, now, n) ==
            Fills(f.bearer + q.period * n, f.sub + q.period * (if n < k then n else k))
  {
    if n > 0 {
      OnePeriodMore(q.period, n - 1);
      StormDrains(q, f, now, n - 1, k);
      var before := ChargedTimes(q, f, now, n - 1);
      assert HasToken(q, before.bearer, now);
      if n <= k {
        MorePeriods(q.period, n, k);
        assert before.sub == f.sub + q.period * (n - 1) && HasToken(q, before.sub, now);
      } else {
        assert before.sub == f.sub + q.period * k && !HasToken(q, before.sub, now);
      }
    }
  }

  // ---- Calls that the subject bucket refuses

  /** How far the refill of the subject bucket is out of step with that of the bearer bucket. */
  function Phase(q: Quota, f: Fills): nat
    requires ValidQuota(q)
  {
    (f.sub - f.bearer) % q.period
  }

  function StormSize(q: Quota, f: Fills): nat
    requires ValidQuota(q)
  {
    if Phase(q, f) != 0 then q.burst - 1 else q.burst
  }

  function StormStart(q: Quota, f: Fills): nat
    requires ValidQuota(q)
  {
    if Phase(q, f) != 0 then f.bearer else f.bearer + 1
  }

  function StormEnd(q: Quota, f: Fills): nat
    requires ValidQuota(q)
  {
    if Phase(q, f) != 0 then f.bearer + Phase(q, f) else f.bearer + q.period
  }

  /** The two buckets are such that the bearer bucket grants and the subject bucket refuses. */
  predicate RefusedBySubject(q: Quota, f: Fills, now: nat) {
    && now <= f.bearer && HasToken(q, f.bearer, now)
    && !HasToken(q, f.sub, now) && f.sub <= now + Capacity(q)
  }

  lemma BurstOfPeriods(q: Quota)
    requires ValidQuota(q)
    ensures q.period * (q.burst - 1) + q.period == Capacity(q)
  {
  }

  /** Out of step, the refused call leaves the bearer bucket the emptier of the two, so that the last
      call of the storm is refused, and admitted without the refused call. */
  lemma OutOfStep(q: Quota, f: Fills, now: nat)
    requires ValidQuota(q) && RefusedBySubject(q, f, now) && Phase(q, f) != 0
    ensures var n, at, end := StormSize(q, f), StormStart(q, f), StormEnd(q, f);
      && !BothHaveTokens(q, Later(ChargedTimes(q, Later(Charged(q, f, now), at), at, n), end), end)
      && BothHaveTokens(q, Later(ChargedTimes(q, Later(f, at), at, n), end), end)
  {
    var p, cap, n, at, d := q.period, Capacity(q), q.burst - 1, f.bearer, Phase(q, f);
    BurstOfPeriods(q);
    var a := (f.sub - f.bearer) / p;
    assert f.sub == f.bearer + p * a + d;
    PeriodsLeft(q, a, d);
    var k := q.burst - 1 - a;
    assert f.sub + p * k == at + cap - p + d by {
      assert p * (a + k) == p * a + p * k;
    }
    StormDrains(q, Fills(f.bearer + p, f.sub), at, n, k);
    StormDrains(q, f, at, n, k);
  }

  lemma PeriodsLeft(q: Quota, a: int, d: nat)
    requires ValidQuota(q) && d < q.period
    requires 0 < q.period * a + d <= Capacity(q)
    ensures 0 <= a && (d != 0 ==> a < q.burst) && (d == 0 ==> 1 <= a <= q.burst)
  {
    var p, n := q.period as int, q.burst as int;
    assert a < 0 ==> p * a <= 0 - p;
    assert a > n ==> p * a >= p * (n + 1);
    assert a == n ==> p * a == Capacity(q);
  }

  /** In step, the refused call keeps the bearer bucket from filling up, and so from losing that step:
      the last call of the storm is admitted, and refused without the refused call. */
  lemma InStep(q: Quota, f: Fills, now: nat)
    requires ValidQuota(q) && q.period > 1 && RefusedBySubject(q, f, now) && Phase(q, f) == 0
    ensures var n, at, end := StormSize(q, f), StormStart(q, f), StormEnd(q, f);
      && BothHaveTokens(q, Later(ChargedTimes(q, Later(Charged(q, f, now), at), at, n), end), end)
      && !BothHaveTokens(q, Later(ChargedTimes(q, Later(f, at), at, n), end), end)
  {
    var p, cap, at := q.period, Capacity(q), f.bearer + 1;
    BurstOfPeriods(q);
    var a := (f.sub - f.bearer) / p;
    assert f.sub == f.bearer + p * a;
    PeriodsLeft(q, a, 0);
    var k := q.burst - a;
    assert f.sub + p * k == f.bearer + cap by {
      assert p * (a + k) == p * a + p * k;
    }
    assert p * a >= p;
    var charged, kept := Fills(f.bearer + p, f.sub), Fills(at, f.sub);
    StormDrains(q, charged, at, q.burst - 1, k);
    assert ChargedTimes(q, charged, at, q.burst) == ChargedTimes(q, charged, at, q.burst - 1);
    StormDrains(q, kept, at, q.burst, k);
  }

  /** The buckets that a call refused by its subject finds. */
  lemma FindsRefusal(q: Quota, calls: seq<Call>, subject: string)
    requires ValidQuota(q) && InOrder(calls) && calls != []
    requires Latest(calls).sub == Some(subject) && !IsAdmitted(q, calls)
    requires BearerGrants(q, MapsAfter(q, Before(calls)), Latest(calls))
    ensures var c := Latest(calls);
      RefusedBySubject(q, FillsAt(MapsAfter(q, Before(calls)), c.bearer, subject, c.now), c.now)
  {
    var c, front := Latest(calls), Before(calls);
    EventsAreWellTimed(q, front);
    LimiterIsTwoMaps(q, front);
    EntriesRefill(q, SubEvents(q, front));
    FullBucketAdmits(q, Fresh(c.now), c.now);
  }

  /** A call that its subject bucket refuses is felt later: some storm of the same bearer with the same
      subject ends differently without it. */
  lemma SubjectRefusalIsFelt(q: Quota, calls: seq<Call>, subject: string)
    requires ValidQuota(q) && q.period > 1 && InOrder(calls) && calls != []
    requires Latest(calls).sub == Some(subject) && !IsAdmitted(q, calls)
    requires BearerGrants(q, MapsAfter(q, Before(calls)), Latest(calls))
    ensures var c := Latest(calls);
      var f := FillsAt(MapsAfter(q, Before(calls)), c.bearer, subject, c.now);
      var storm := Storm(c.bearer, subject, StormSize(q, f), StormStart(q, f), StormEnd(q, f));
      && c.now <= StormStart(q, f) <= StormEnd(q, f)
      && IsAdmitted(q, calls + storm) != IsAdmitted(q, Before(calls) + storm)
  {
    var c, maps := Latest(calls), MapsAfter(q, Before(calls));
    var f := FillsAt(maps, c.bearer, subject, c.now);
    var n, at, end := StormSize(q, f), StormStart(q, f), StormEnd(q, f);
    FindsRefusal(q, calls, subject);
    FillsAfterCall(q, maps, c, subject, at);
    FillAfterRequest(q, maps.bearer, c.bearer, c.now, "", at);
    FillAfterRequest(q, maps.sub, subject, c.now, "", at);
    assert FillsAt(maps, c.bearer, subject, at) == Later(f, at);
    StormDecision(q, calls, c.bearer, subject, n, at, end);
    StormDecision(q, Before(calls), c.bearer, subject, n, at, end);
    if Phase(q, f) != 0 {
      OutOfStep(q, f, c.now);
    } else {
      InStep(q, f, c.now);
    }
  }

  // ---- Which refused calls can be deleted

  /** Whatever follows the last call, is every later decision the same without it? */
  ghost predicate Erasable(q: Quota, calls: seq<Call>)
    requires calls != []
  {
    forall more :: more != [] && InOrder(calls + more) && NeverEvicts(q, BearerEvents(calls + more)) ==>
      IsAdmitted(q, calls + more) == IsAdmitted(q, Before(calls) + more)
  }

  /** Flags that delete the event at one position. */
  function AllBut(n: nat, i: nat): (keep: seq<bool>)
    ensures |keep| == n && forall k :: 0 <= k < n ==> keep[k] == (k != i)
  {
    seq(n, k => k != i)
  }

  lemma {:induction false} KeepsAll(q: Quota, calls: seq<Call>, keep: seq<bool>)
    requires |keep| == |calls| && forall k :: 0 <= k < |keep| ==> keep[k]
    ensures Retained(calls, keep) == calls && DeletesBearerRefused(q, calls, keep)
  {
    if calls != [] {
      KeepsAll(q, Before(calls), Before(keep));
    }
  }

  lemma KeepsLast(q: Quota, calls: seq<Call>, keep: seq<bool>)
    requires |keep| == |calls| && calls != [] && Latest(keep)
    ensures Retained(calls, keep) == Retained(Before(calls), Before(keep)) + [Latest(calls)]
    ensures DeletesBearerRefused(q, calls, keep) == DeletesBearerRefused(q, Before(calls), Before(keep))
  {
  }

  lemma {:induction false} DeletesOne(q: Quota, calls: seq<Call>, more: seq<Call>)
    requires calls != [] && !BearerGrants(q, MapsAfter(q, Before(calls)), Latest(calls))
    ensures var all, keep := calls + more, AllBut(|calls + more|, |calls| - 1);
      Retained(all, keep) == Before(calls) + more && DeletesBearerRefused(q, all, keep)
    decreases |more|
  {
    var all, keep := calls + more, AllBut(|calls + more|, |calls| - 1);
    if more == [] {
      assert all == calls && Before(calls) + more == Before(calls);
      KeepsAll(q, Before(calls), Before(keep));
    } else {
      DeletesOne(q, calls, Before(more));
      assert Before(all) == calls + Before(more) && Latest(all) == Latest(more);
      assert Before(keep) == AllBut(|Before(all)|, |calls| - 1);
      KeepsLast(q, all, keep);
      assert Before(calls) + Before(more) + [Latest(more)] == Before(calls) + more;
    }
  }

  lemma {:induction false} StormEvictsNothing(
    q: Quota, calls: seq<Call>, bearer: string, subject: string, n: nat, at: nat, end: nat, k: nat)
    requires k <= n + 1
    requires bearer in MapsAfter(q, calls).bearer && NeverEvicts(q, BearerEvents(calls))
    ensures var all := calls + Storm(bearer, subject, n, at, end)[..k];
      bearer in MapsAfter(q, all).bearer && NeverEvicts(q, BearerEvents(all))
    decreases k
  {
    var more := Storm(bearer, subject, n, at, end);
    if k == 0 {
      assert calls + more[..0] == calls;
    } else {
      StormEvictsNothing(q, calls, bearer, subject, n, at, end, k - 1);
      assert calls + more[..k] == calls + more[..k - 1] + [more[k - 1]];
      KnownBearerEvictsNothing(q, calls + more[..k - 1], more[k - 1]);
    }
  }

  lemma KnownBearerEvictsNothing(q: Quota, front: seq<Call>, c: Call)
    requires c.bearer in MapsAfter(q, front).bearer && NeverEvicts(q, BearerEvents(front))
    ensures c.bearer in MapsAfter(q, front + [c]).bearer && NeverEvicts(q, BearerEvents(front + [c]))
  {
    var all := front + [c];
    assert Before(all) == front;
    BearerEventsOf(all);
    LimiterIsTwoMaps(q, front);
    assert !Evicts(MapAfter(q, BearerEvents(front)), c.bearer, c.now);
    RequestedEntries(q, MapsAfter(q, front).bearer, c.bearer, c.now, c.bearerVictim);
  }

  lemma StormInOrder(calls: seq<Call>, bearer: string, subject: string, n: nat, at: nat, end: nat)
    requires InOrder(calls) && calls != [] && Latest(calls).now <= at <= end
    ensures InOrder(calls + Storm(bearer, subject, n, at, end))
  {
    var all := calls + Storm(bearer, subject, n, at, end);
    forall i, j | 0 <= i < j < |all| ensures all[i].now <= all[j].now {
      assert i < |calls| ==> calls[i].now <= Latest(calls).now;
    }
  }

  /** A storm that tells the two runs apart is one that the definition of `Erasable` covers. */
  lemma StormSeparates(q: Quota, calls: seq<Call>, bearer: string, subject: string, n: nat, at: nat, end: nat)
    requires InOrder(calls) && calls != [] && NeverEvicts(q, BearerEvents(calls))
    requires Latest(calls).bearer == bearer && Latest(calls).now <= at <= end
    requires var storm := Storm(bearer, subject, n, at, end);
      IsAdmitted(q, calls + storm) != IsAdmitted(q, Before(calls) + storm)
    ensures !Erasable(q, calls)
  {
    var storm := Storm(bearer, subject, n, at, end);
    StormInOrder(calls, bearer, subject, n, at, end);
    BearerIsKnown(q, calls);
    StormEvictsNothing(q, calls, bearer, subject, n, at, end, n + 1);
    assert storm[..n + 1] == storm;
  }

  lemma SubjectRefusedStays(q: Quota, calls: seq<Call>, subject: string)
    requires ValidQuota(q) && q.period > 1 && InOrder(calls) && calls != []
    requires Latest(calls).sub == Some(subject) && !IsAdmitted(q, calls)
    requires BearerGrants(q, MapsAfter(q, Before(calls)), Latest(calls))
    requires NeverEvicts(q, BearerEvents(calls))
    ensures !Erasable(q, calls)
  {
    var c := Latest(calls);
    var f := FillsAt(MapsAfter(q, Before(calls)), c.bearer, subject, c.now);
    SubjectRefusalIsFelt(q, calls, subject);
    StormSeparates(q, calls, c.bearer, subject, StormSize(q, f), StormStart(q, f), StormEnd(q, f));
  }

  lemma BearerIsKnown(q: Quota, calls: seq<Call>)
    requires calls != []
    ensures Latest(calls).bearer in MapsAfter(q, calls).bearer
  {
    var c := Latest(calls);
    RequestedEntries(q, MapsAfter(q, Before(calls)).bearer, c.bearer, c.now, c.bearerVictim);
  }

  lemma BearerRefusedGoes(q: Quota, calls: seq<Call>)
    requires ValidQuota(q) && Capacity(q) <= BUCKET_IDLE_TTL && calls != []
    requires !BearerGrants(q, MapsAfter(q, Before(calls)), Latest(calls))
    ensures Erasable(q, calls)
  {
    forall more | more != [] && InOrder(calls + more) && NeverEvicts(q, BearerEvents(calls + more))
      ensures IsAdmitted(q, calls + more) == IsAdmitted(q, Before(calls) + more)
    {
      DeletesOne(q, calls, more);
      BearerRefusalsAreErasable(q, calls + more, AllBut(|calls + more|, |calls| - 1));
    }
  }

  /** A refused call can be deleted without any later effect exactly when its bearer bucket refused it. */
  lemma RefusedCallErasableIff(q: Quota, calls: seq<Call>)
    requires ValidQuota(q) && q.period > 1 && Capacity(q) <= BUCKET_IDLE_TTL
    requires InOrder(calls) && calls != [] && !IsAdmitted(q, calls)
    requires NeverEvicts(q, BearerEvents(calls))
    ensures Erasable(q, calls) <==> !BearerGrants(q, MapsAfter(q, Before(calls)), Latest(calls))
  {
    if BearerGrants(q, MapsAfter(q, Before(calls)), Latest(calls)) {
      SubjectRefusedStays(q, calls, Latest(calls).sub.value);
    } else {
      BearerRefusedGoes(q, calls);
    }
  }

  /** Every per-minute quota has periods of more than one nanosecond. */
  lemma PerMinutePeriods(n: nat)
    requires 0 < n < U32_LIMIT
    ensures PerMinute(n).period > 1
  {
    var period := 60 * SECOND / n;
    assert period * n + 60 * SECOND % n == 60 * SECOND;
    assert period <= 1 ==> period * n <= n;
  }

  /** A retry storm of two bearers with one subject: the retry of the second bearer that the subject
      refuses costs it the token it needs one period after the first call. */
  lemma RefusedCallsCostTheirBearer(period: nat, subject: string, first: string, second: string, now: nat)
    requires period > 1 && first != second
    ensures var q := Quota(period, 1);
      var taken := Call(first, Some(subject), now, "", "");
      var refused := Call(second, Some(subject), now + 1, "", "");
      var again := Call(second, Some(subject), now + period, "", "");
      && IsAdmitted(q, [taken]) && !IsAdmitted(q, [taken, refused])
      && IsAdmitted(q, [taken, again]) && !IsAdmitted(q, [taken, refused, again])
  {
    var q := Quota(period, 1);
    var taken := Call(first, Some(subject), now, "", "");
    var refused := Call(second, Some(subject), now + 1, "", "");
    var again := Call(second, Some(subject), now + period, "", "");
    assert Before([taken]) == [];
    assert Before([taken, refused]) == [taken];
    assert Before([taken, again]) == [taken];
    assert Before([taken, refused, again]) == [taken, refused];
    var none, once := Maps(map[], map[]), MapsAfter(q, [taken]);
    assert MapsAfter(q, []) == none && once == AfterCheck(q, none, taken);
    RequestedEntries(q, none.bearer, first, now, "");
    RequestedEntries(q, none.sub, subject, now, "");
    assert second !in once.bearer && once.sub[subject].bucket == Bucket(now + period);
    assert MapsAfter(q, [taken, refused]) == AfterCheck(q, once, refused);
    RequestedEntries(q, once.bearer, second, now + 1, "");
  }
}
