/** Runs of the tool-call limiter of one category: any calls at non-decreasing instants. */
module LimiterRuns {
  import opened Text
  import opened Runs
  import opened TokenBucket
  import opened BucketMap
  import opened MapRuns
  import opened AdmissionBound
  import opened RateLimit

  predicate InOrder(calls: seq<Call>) {
    forall i, j :: 0 <= i < j < |calls| ==> calls[i].now <= calls[j].now
  }

  function MapsAfter(q: Quota, calls: seq<Call>): Maps {
    if calls == [] then Maps(map[], map[])
    else AfterCheck(q, MapsAfter(q, Before(calls)), Latest(calls))
  }

  /** Is the last call admitted? */
  predicate IsAdmitted(q: Quota, calls: seq<Call>)
    requires calls != []
  {
    Allows(q, MapsAfter(q, Before(calls)), Latest(calls))
  }

  // ---- Each of the two maps sees its own run

  function BearerEvents(calls: seq<Call>): (run: seq<Event>)
    ensures |run| == |calls|
    ensures forall i :: 0 <= i < |run| ==> run[i].now == calls[i].now
  {
    if calls == [] then []
    else BearerEvents(Before(calls)) + [Ask(Latest(calls).bearer, Latest(calls).now, Latest(calls).bearerVictim)]
  }

  /** The subject map is asked only for calls that carry a subject and pass the bearer bucket. */
  function SubEvents(q: Quota, calls: seq<Call>): (run: seq<Event>)
    ensures |run| == |calls|
    ensures forall i :: 0 <= i < |run| ==> run[i].now == calls[i].now
  {
    if calls == [] then []
    else
      var c := Latest(calls);
      SubEvents(q, Before(calls))
      + [if c.sub.Some? && BearerGrants(q, MapsAfter(q, Before(calls)), c)
         then Ask(c.sub.value, c.now, c.subVictim) else Pass(c.now)]
  }

  lemma {:induction false} LimiterIsTwoMaps(q: Quota, calls: seq<Call>)
    ensures MapsAfter(q, calls) == Maps(MapAfter(q, BearerEvents(calls)), MapAfter(q, SubEvents(q, calls)))
    ensures calls != [] ==>
      var bearers, subs := BearerEvents(calls), SubEvents(q, calls);
      IsAdmitted(q, calls) == (Decision(q, bearers) && (Latest(calls).sub.Some? ==> Decision(q, subs)))
  {
    if calls != [] {
      LimiterIsTwoMaps(q, Before(calls));
      var bearers, subs := BearerEvents(calls), SubEvents(q, calls);
      assert Before(bearers) == BearerEvents(Before(calls));
      assert Before(subs) == SubEvents(q, Before(calls));
    }
  }

  lemma EventsAreWellTimed(q: Quota, calls: seq<Call>)
    requires InOrder(calls)
    ensures WellTimed(BearerEvents(calls)) && WellTimed(SubEvents(q, calls))
  {
  }

  // ---- The bound per subject

  /** Calls with this subject that are admitted from position `from` on, whatever their bearer. */
  function AdmittedFor(q: Quota, calls: seq<Call>, subject: string, from: nat): nat {
    if |calls| <= from then 0
    else AdmittedFor(q, Before(calls), subject, from)
         + (if IsAdmitted(q, calls) && Latest(calls).sub == Some(subject) then 1 else 0)
  }

  lemma {:induction false} AdmittedForIsAdmitted(q: Quota, calls: seq<Call>, subject: string, from: nat)
    ensures AdmittedFor(q, calls, subject, from) == Admitted(q, SubEvents(q, calls), subject, from)
  {
    if |calls| > from {
      AdmittedForIsAdmitted(q, Before(calls), subject, from);
      LimiterIsTwoMaps(q, calls);
      LimiterIsTwoMaps(q, Before(calls));
      assert Before(SubEvents(q, calls)) == SubEvents(q, Before(calls));
    }
  }

  /** In every window, one subject is admitted, across all its bearers, at most a burst plus one
      call per period, plus one burst for each least-recently-seen eviction of its bucket. */
  lemma SubjectAdmissionsAreBounded(
    q: Quota, calls: seq<Call>, subject: string, from: nat, start: nat, length: nat)
    requires ValidQuota(q) && Capacity(q) <= BUCKET_IDLE_TTL
    requires InOrder(calls) && from <= |calls|
    requires forall i :: from <= i < |calls| ==> start <= calls[i].now <= start + length
    ensures AdmittedFor(q, calls, subject, from)
            <= Allowance(q, Evictions(q, SubEvents(q, calls), subject, from), length)
  {
    var run := SubEvents(q, calls);
    assert AdmittedFor(q, calls, subject, from) == Admitted(q, run, subject, from) by {
      AdmittedForIsAdmitted(q, calls, subject, from);
    }
    EventsAreWellTimed(q, calls);
    AdmissionsAreBounded(q, run, subject, from, start, length);
  }

  // ---- The idle sweep is invisible to callers

  datatype UnboundedMaps = UnboundedMaps(bearer: Unbounded, sub: Unbounded)

  predicate UnboundedBearerGrants(q: Quota, u: UnboundedMaps, c: Call) {
    TokenBucket.Admits(q, Kept(u.bearer, c.bearer, c.now), c.now)
  }

  /** The same limiter over maps that never discard a bucket. */
  function UnboundedMapsAfter(q: Quota, calls: seq<Call>): UnboundedMaps {
    if calls == [] then UnboundedMaps(map[], map[]) else
      var u, c := UnboundedMapsAfter(q, Before(calls)), Latest(calls);
      UnboundedMaps(
        u.bearer[c.bearer := Checked(q, Kept(u.bearer, c.bearer, c.now), c.now)],
        if c.sub.Some? && UnboundedBearerGrants(q, u, c)
        then u.sub[c.sub.value := Checked(q, Kept(u.sub, c.sub.value, c.now), c.now)] else u.sub)
  }

  predicate UnboundedAdmits(q: Quota, calls: seq<Call>)
    requires calls != []
  {
    var u, c := UnboundedMapsAfter(q, Before(calls)), Latest(calls);
    && UnboundedBearerGrants(q, u, c)
    && (c.sub.Some? ==> TokenBucket.Admits(q, Kept(u.sub, c.sub.value, c.now), c.now))
  }

  lemma {:induction false} UnboundedLimiterIsTwoMaps(q: Quota, calls: seq<Call>)
    requires ValidQuota(q) && Capacity(q) <= BUCKET_IDLE_TTL && InOrder(calls)
    requires NeverEvicts(q, BearerEvents(calls)) && NeverEvicts(q, SubEvents(q, calls))
    ensures UnboundedMapsAfter(q, calls) ==
            UnboundedMaps(UnboundedAfter(q, BearerEvents(calls)), UnboundedAfter(q, SubEvents(q, calls)))
  {
    if calls != [] {
      var bearers, subs := BearerEvents(calls), SubEvents(q, calls);
      assert Before(bearers) == BearerEvents(Before(calls));
      assert Before(subs) == SubEvents(q, Before(calls));
      UnboundedLimiterIsTwoMaps(q, Before(calls));
      LimiterIsTwoMaps(q, Before(calls));
      EventsAreWellTimed(q, calls);
      IdleSweepIsInvisible(q, bearers);
    }
  }

  /** With no least-recently-seen eviction, the bounded limiter admits exactly the calls that a
      limiter with ever-growing maps would admit. */
  lemma LimiterSweepIsInvisible(q: Quota, calls: seq<Call>)
    requires ValidQuota(q) && Capacity(q) <= BUCKET_IDLE_TTL && InOrder(calls) && calls != []
    requires NeverEvicts(q, BearerEvents(calls)) && NeverEvicts(q, SubEvents(q, calls))
    ensures IsAdmitted(q, calls) == UnboundedAdmits(q, calls)
  {
    var bearers, subs := BearerEvents(calls), SubEvents(q, calls);
    EventsOfBefore(q, calls);
    UnboundedLimiterIsTwoMaps(q, Before(calls));
    LimiterIsTwoMaps(q, calls);
    EventsAreWellTimed(q, calls);
    IdleSweepIsInvisible(q, bearers);
    IdleSweepIsInvisible(q, subs);
    var u := UnboundedMapsAfter(q, Before(calls));
    assert Decision(q, bearers) == UnboundedBearerGrants(q, u, Latest(calls));
    LatestSubEvent(q, calls);
  }

  lemma EventsOfBefore(q: Quota, calls: seq<Call>)
    requires calls != []
    ensures Before(BearerEvents(calls)) == BearerEvents(Before(calls))
    ensures Before(SubEvents(q, calls)) == SubEvents(q, Before(calls))
  {
  }

  lemma LatestSubEvent(q: Quota, calls: seq<Call>)
    requires calls != []
    ensures var c := Latest(calls);
      Latest(SubEvents(q, calls)) ==
      if c.sub.Some? && Decision(q, BearerEvents(calls)) then Ask(c.sub.value, c.now, c.subVictim) else Pass(c.now)
  {
    EventsOfBefore(q, calls);
    LimiterIsTwoMaps(q, Before(calls));
  }
}
