/** Runs of the initialize limiter, compared with an atomic limiter of two buckets. */
module InitializeRuns {
  import opened Text
  import opened Runs
  import opened TokenBucket
  import opened BucketMap
  import opened MapRuns
  import opened AdmissionBound
  import opened RateLimit
  import opened LimiterRuns

  function InitializeMapsAfter(q: Quota, calls: seq<Call>): Maps {
    if calls == [] then Maps(map[], map[])
    else AfterInitialize(q, InitializeMapsAfter(q, Before(calls)), Latest(calls))
  }

  predicate Initialized(q: Quota, calls: seq<Call>)
    requires calls != []
  {
    Initializes(q, InitializeMapsAfter(q, Before(calls)), Latest(calls))
  }

  /** The subject map is asked for calls with a subject, the bearer map for the others. */
  function SubjectEvent(c: Call): Event {
    match c.sub
    case Some(s) => Ask(s, c.now, c.subVictim)
    case None => Pass(c.now)
  }

  function BearerEvent(c: Call): Event {
    if c.sub.Some? then Pass(c.now) else Ask(c.bearer, c.now, c.bearerVictim)
  }

  function SubjectRun(calls: seq<Call>): (run: seq<Event>)
    ensures |run| == |calls|
    ensures forall i :: 0 <= i < |run| ==> run[i] == SubjectEvent(calls[i])
  {
    seq(|calls|, i requires 0 <= i < |calls| => SubjectEvent(calls[i]))
  }

  function BearerRun(calls: seq<Call>): (run: seq<Event>)
    ensures |run| == |calls|
    ensures forall i :: 0 <= i < |run| ==> run[i] == BearerEvent(calls[i])
  {
    seq(|calls|, i requires 0 <= i < |calls| => BearerEvent(calls[i]))
  }

  lemma RunsOfBefore(calls: seq<Call>)
    requires calls != []
    ensures Before(SubjectRun(calls)) == SubjectRun(Before(calls))
    ensures Before(BearerRun(calls)) == BearerRun(Before(calls))
    ensures InOrder(calls) ==> WellTimed(SubjectRun(calls)) && WellTimed(BearerRun(calls))
  {
  }

  lemma {:induction false} InitializeIsTwoMaps(q: Quota, calls: seq<Call>)
    ensures InitializeMapsAfter(q, calls) == Maps(MapAfter(q, BearerRun(calls)), MapAfter(q, SubjectRun(calls)))
    ensures calls != [] ==>
      Initialized(q, calls) == (Decision(q, SubjectRun(calls)) || Decision(q, BearerRun(calls)))
  {
    if calls != [] {
      InitializeIsTwoMaps(q, Before(calls));
      RunsOfBefore(calls);
    }
  }

  // ---- The atomic limiter: both buckets must admit, and both are charged only then

  datatype Atomic = Atomic(bearers: Unbounded, subs: Unbounded)

  predicate AtomicAdmits(q: Quota, a: Atomic, c: Call) {
    && TokenBucket.Admits(q, Kept(a.bearers, c.bearer, c.now), c.now)
    && (c.sub.Some? ==> TokenBucket.Admits(q, Kept(a.subs, c.sub.value, c.now), c.now))
  }

  function AtomicStep(q: Quota, a: Atomic, c: Call): Atomic {
    if !AtomicAdmits(q, a, c) then a
    else Atomic(
        a.bearers[c.bearer := Checked(q, Kept(a.bearers, c.bearer, c.now), c.now)],
        if c.sub.Some? then a.subs[c.sub.value := Checked(q, Kept(a.subs, c.sub.value, c.now), c.now)] else a.subs)
  }

  function AtomicAfter(q: Quota, calls: seq<Call>): Atomic {
    if calls == [] then Atomic(map[], map[])
    else AtomicStep(q, AtomicAfter(q, Before(calls)), Latest(calls))
  }

  predicate AtomicallyAdmitted(q: Quota, calls: seq<Call>)
    requires calls != []
  {
    AtomicAdmits(q, AtomicAfter(q, Before(calls)), Latest(calls))
  }

  /** Every bearer always comes with the same subject, or always without one. */
  predicate FixedSubjects(calls: seq<Call>) {
    forall i, j :: 0 <= i < |calls| && 0 <= j < |calls| && calls[i].bearer == calls[j].bearer ==>
      calls[i].sub == calls[j].sub
  }

  predicate OnlyWith(calls: seq<Call>, bearer: string, sub: Option<string>) {
    forall i :: 0 <= i < |calls| && calls[i].bearer == bearer ==> calls[i].sub == sub
  }

  /** The subject bucket never holds more than the bucket of any of its bearers. */
  lemma {:induction false} SubjectIsTighter(q: Quota, calls: seq<Call>, bearer: string, subject: string)
    requires OnlyWith(calls, bearer, Some(subject))
    ensures var a := AtomicAfter(q, calls);
      bearer in a.bearers ==> subject in a.subs && a.bearers[bearer].fullAt <= a.subs[subject].fullAt
  {
    if calls != [] {
      SubjectIsTighter(q, Before(calls), bearer, subject);
      assert Latest(calls).bearer == bearer ==> Latest(calls).sub == Some(subject);
    }
  }

  /** So a call that its subject bucket admits is never refused by its bearer bucket. */
  lemma SubjectDecides(q: Quota, calls: seq<Call>)
    requires calls != [] && FixedSubjects(calls) && Latest(calls).sub.Some?
    requires ValidQuota(q)
    ensures var a, c := AtomicAfter(q, Before(calls)), Latest(calls);
      AtomicallyAdmitted(q, calls) == TokenBucket.Admits(q, Kept(a.subs, c.sub.value, c.now), c.now)
  {
    var c := Latest(calls);
    SubjectIsTighter(q, Before(calls), c.bearer, c.sub.value);
    FullBucketAdmits(q, Fresh(c.now), c.now);
  }

  lemma {:induction false} AtomicSubjects(q: Quota, calls: seq<Call>)
    requires ValidQuota(q) && FixedSubjects(calls)
    ensures AtomicAfter(q, calls).subs == UnboundedAfter(q, SubjectRun(calls))
  {
    if calls != [] {
      AtomicSubjects(q, Before(calls));
      RunsOfBefore(calls);
      var c, u := Latest(calls), UnboundedAfter(q, SubjectRun(Before(calls)));
      if c.sub.Some? {
        SubjectDecides(q, calls);
        if !TokenBucket.Admits(q, Kept(u, c.sub.value, c.now), c.now) {
          RefusalKeeps(q, u, c.sub.value, c.now);
        }
      }
    }
  }

  /** A refused check leaves an unbounded map as it is. */
  lemma RefusalKeeps(q: Quota, u: Unbounded, key: string, now: nat)
    requires ValidQuota(q) && !TokenBucket.Admits(q, Kept(u, key, now), now)
    ensures u[key := Checked(q, Kept(u, key, now), now)] == u
  {
    FullBucketAdmits(q, Fresh(now), now);
  }

  /** Both maps hold the same bucket for a key, or none. */
  predicate SameAt(a: Unbounded, u: Unbounded, key: string) {
    (key in a <==> key in u) && (key in a ==> a[key] == u[key])
  }

  lemma OtherBearer(q: Quota, a: Atomic, c: Call, bearer: string)
    requires c.bearer != bearer
    ensures SameAt(AtomicStep(q, a, c).bearers, a.bearers, bearer)
  {
  }

  lemma OwnBearer(q: Quota, a: Atomic, u: Unbounded, c: Call)
    requires ValidQuota(q) && c.sub.None? && SameAt(a.bearers, u, c.bearer)
    ensures SameAt(AtomicStep(q, a, c).bearers, u[c.bearer := Checked(q, Kept(u, c.bearer, c.now), c.now)], c.bearer)
  {
    if !TokenBucket.Admits(q, Kept(u, c.bearer, c.now), c.now) {
      RefusalKeeps(q, u, c.bearer, c.now);
    }
  }

  lemma {:induction false} AtomicBearer(q: Quota, calls: seq<Call>, bearer: string)
    requires ValidQuota(q) && OnlyWith(calls, bearer, None)
    ensures SameAt(AtomicAfter(q, calls).bearers, UnboundedAfter(q, BearerRun(calls)), bearer)
  {
    if calls != [] {
      AtomicBearer(q, Before(calls), bearer);
      RunsOfBefore(calls);
      var c, a := Latest(calls), AtomicAfter(q, Before(calls));
      if c.bearer == bearer {
        assert c.sub == None;
        OwnBearer(q, a, UnboundedAfter(q, BearerRun(Before(calls))), c);
      } else {
        OtherBearer(q, a, c, bearer);
      }
    }
  }

  lemma SubjectDecision(q: Quota, calls: seq<Call>)
    requires ValidQuota(q) && Capacity(q) <= BUCKET_IDLE_TTL
    requires calls != [] && InOrder(calls) && FixedSubjects(calls) && Latest(calls).sub.Some?
    requires NeverEvicts(q, SubjectRun(calls))
    ensures Decision(q, SubjectRun(calls)) == AtomicallyAdmitted(q, calls)
  {
    RunsOfBefore(calls);
    IdleSweepIsInvisible(q, SubjectRun(calls));
    AtomicSubjects(q, Before(calls));
    SubjectDecides(q, calls);
  }

  lemma BearerDecision(q: Quota, calls: seq<Call>)
    requires ValidQuota(q) && Capacity(q) <= BUCKET_IDLE_TTL
    requires calls != [] && InOrder(calls) && FixedSubjects(calls) && Latest(calls).sub.None?
    requires NeverEvicts(q, BearerRun(calls))
    ensures Decision(q, BearerRun(calls)) == AtomicallyAdmitted(q, calls)
  {
    RunsOfBefore(calls);
    IdleSweepIsInvisible(q, BearerRun(calls));
    AtomicBearer(q, Before(calls), Latest(calls).bearer);
  }

  /** Charging only the subject loses nothing: when every bearer has one fixed subject and nothing
      is evicted, the initialize limiter admits exactly what the atomic limiter admits. */
  lemma OneChargeIsEnough(q: Quota, calls: seq<Call>)
    requires ValidQuota(q) && Capacity(q) <= BUCKET_IDLE_TTL
    requires calls != [] && InOrder(calls) && FixedSubjects(calls)
    requires NeverEvicts(q, SubjectRun(calls)) && NeverEvicts(q, BearerRun(calls))
    ensures Initialized(q, calls) == AtomicallyAdmitted(q, calls)
  {
    InitializeIsTwoMaps(q, calls);
    if Latest(calls).sub.Some? {
      assert Latest(BearerRun(calls)).Pass?;
      SubjectDecision(q, calls);
    } else {
      assert Latest(SubjectRun(calls)).Pass?;
      BearerDecision(q, calls);
    }
  }

  /** Neither map evicts a least recently seen entry anywhere in the run. */
  predicate Undisturbed(q: Quota, calls: seq<Call>) {
    NeverEvicts(q, SubjectRun(calls)) && NeverEvicts(q, BearerRun(calls))
  }

  // ---- When exactly one charge is enough

  /** `n` calls of one bearer and one subject at one instant. */
  function Repeated(bearer: string, subject: string, now: nat, n: nat): (calls: seq<Call>)
    ensures |calls| == n
    ensures forall i :: 0 <= i < n ==> calls[i] == Call(bearer, Some(subject), now, "", "")
  {
    seq(n, _ => Call(bearer, Some(subject), now, "", ""))
  }

  lemma RepeatedOneMore(bearer: string, subject: string, now: nat, n: nat)
    requires n > 0
    ensures Before(Repeated(bearer, subject, now, n)) == Repeated(bearer, subject, now, n - 1)
    ensures Latest(Repeated(bearer, subject, now, n)) == Call(bearer, Some(subject), now, "", "")
  {
  }

  lemma TokensLeft(q: Quota, n: nat)
    requires ValidQuota(q) && n < q.burst
    ensures q.period * (n + 1) == q.period * n + q.period <= Capacity(q)
  {
    assert Capacity(q) == q.period * (n + 1) + q.period * (q.burst - n - 1);
  }

  /** Charges that leave a bucket `n` periods from full. */
  function Drained(key: string, fullAt: nat, n: nat): Unbounded {
    if n == 0 then map[] else map[key := Bucket(fullAt)]
  }

  lemma DrainsOneMore(q: Quota, key: string, now: nat, n: nat)
    requires ValidQuota(q) && n < q.burst
    ensures var u := Drained(key, now + q.period * n, n);
      && TokenBucket.Admits(q, Kept(u, key, now), now)
      && u[key := Checked(q, Kept(u, key, now), now)] == Drained(key, now + q.period * (n + 1), n + 1)
  {
    TokensLeft(q, n);
  }

  lemma {:induction false} RepeatedDrains(q: Quota, bearer: string, subject: string, now: nat, n: nat)
    requires ValidQuota(q) && n <= q.burst
    ensures var calls, fullAt := Repeated(bearer, subject, now, n), now + q.period * n;
      AtomicAfter(q, calls) == Atomic(Drained(bearer, fullAt, n), Drained(subject, fullAt, n))
  {
    if n > 0 {
      RepeatedDrains(q, bearer, subject, now, n - 1);
      RepeatedOneMore(bearer, subject, now, n);
      DrainsOneMore(q, bearer, now, n - 1);
      DrainsOneMore(q, subject, now, n - 1);
    }
  }

  lemma {:induction false} RepeatedFills(q: Quota, bearer: string, subject: string, now: nat, n: nat)
    requires ValidQuota(q) && n <= q.burst
    ensures InitializeMapsAfter(q, Repeated(bearer, subject, now, n)) ==
            Maps(map[], if n == 0 then map[] else map[subject := Entry(Bucket(now + q.period * n), now)])
  {
    if n > 0 {
      RepeatedFills(q, bearer, subject, now, n - 1);
      RepeatedOneMore(bearer, subject, now, n);
      TokensLeft(q, n - 1);
    }
  }

  lemma SmallMapKeeps(m: Entries, key: string, now: nat)
    requires |m| <= 1
    ensures !Evicts(m, key, now)
  {
  }

  /** With one identity in each map there is nothing to evict. */
  lemma {:induction false} RepeatedEvictsNothing(q: Quota, bearer: string, subject: string, now: nat, n: nat)
    requires ValidQuota(q) && n <= q.burst
    ensures Undisturbed(q, Repeated(bearer, subject, now, n))
  {
    if n > 0 {
      var calls := Repeated(bearer, subject, now, n);
      RepeatedEvictsNothing(q, bearer, subject, now, n - 1);
      RepeatedOneMore(bearer, subject, now, n);
      RepeatedFills(q, bearer, subject, now, n - 1);
      RunsOfBefore(calls);
      InitializeIsTwoMaps(q, Before(calls));
      SmallMapKeeps(InitializeMapsAfter(q, Before(calls)).sub, subject, now);
    }
  }

  /** The run that tells the two limiters apart: a bearer spends its burst on one subject and then
      comes with another subject, or with none. */
  function SwitchingRun(q: Quota, bearer: string, subject: string, other: Option<string>, now: nat): seq<Call> {
    Repeated(bearer, subject, now, q.burst) + [Call(bearer, other, now, "", "")]
  }

  /** For every quota, the atomic limiter refuses the last call of that run, and the initialize
      limiter admits it. */
  lemma ChangingSubjectsDiffer(q: Quota, bearer: string, subject: string, other: Option<string>, now: nat)
    requires ValidQuota(q) && other != Some(subject)
    ensures var calls := SwitchingRun(q, bearer, subject, other, now);
      InOrder(calls) && Undisturbed(q, calls) && Initialized(q, calls) && !AtomicallyAdmitted(q, calls)
  {
    var front, calls := Repeated(bearer, subject, now, q.burst), SwitchingRun(q, bearer, subject, other, now);
    assert Before(calls) == front;
    RepeatedDrains(q, bearer, subject, now, q.burst);
    RepeatedFills(q, bearer, subject, now, q.burst);
    RepeatedEvictsNothing(q, bearer, subject, now, q.burst);
    FullBucketAdmits(q, Fresh(now), now);
    RunsOfBefore(calls);
    InitializeIsTwoMaps(q, front);
    var maps := InitializeMapsAfter(q, front);
    SmallMapKeeps(maps.bearer, bearer, now);
    if other.Some? {
      SmallMapKeeps(maps.sub, other.value, now);
    }
  }

  /** Which subjects, or none, each bearer may come with. */
  type Pairings = iset<(string, Option<string>)>

  ghost predicate DrawnFrom(calls: seq<Call>, pairings: Pairings) {
    forall i :: 0 <= i < |calls| ==> (calls[i].bearer, calls[i].sub) in pairings
  }

  ghost predicate OneSubjectEach(pairings: Pairings) {
    forall bearer, s, t :: (bearer, s) in pairings && (bearer, t) in pairings ==> s == t
  }

  ghost predicate AlwaysAgree(q: Quota, pairings: Pairings) {
    forall calls :: calls != [] && InOrder(calls) && DrawnFrom(calls, pairings) && Undisturbed(q, calls) ==>
      Initialized(q, calls) == AtomicallyAdmitted(q, calls)
  }

  lemma DrawnSubjectsAreFixed(calls: seq<Call>, pairings: Pairings)
    requires OneSubjectEach(pairings) && DrawnFrom(calls, pairings)
    ensures FixedSubjects(calls)
  {
  }

  lemma TwoSubjectsSeparate(q: Quota, pairings: Pairings, bearer: string, subject: string, other: Option<string>)
    requires ValidQuota(q) && other != Some(subject)
    requires (bearer, Some(subject)) in pairings && (bearer, other) in pairings
    ensures !AlwaysAgree(q, pairings)
  {
    var calls := SwitchingRun(q, bearer, subject, other, 0);
    ChangingSubjectsDiffer(q, bearer, subject, other, 0);
    assert DrawnFrom(calls, pairings);
  }

  /** One charge is enough exactly when each bearer has one subject, or never has one. */
  lemma OneChargeIsEnoughIff(q: Quota, pairings: Pairings)
    requires ValidQuota(q) && Capacity(q) <= BUCKET_IDLE_TTL
    ensures AlwaysAgree(q, pairings) <==> OneSubjectEach(pairings)
  {
    if OneSubjectEach(pairings) {
      forall calls | calls != [] && InOrder(calls) && DrawnFrom(calls, pairings) && Undisturbed(q, calls)
        ensures Initialized(q, calls) == AtomicallyAdmitted(q, calls)
      {
        DrawnSubjectsAreFixed(calls, pairings);
        OneChargeIsEnough(q, calls);
      }
    } else {
      var bearer, s, t :| (bearer, s) in pairings && (bearer, t) in pairings && s != t;
      if s.Some? {
        TwoSubjectsSeparate(q, pairings, bearer, s.value, t);
      } else {
        TwoSubjectsSeparate(q, pairings, bearer, t.value, s);
      }
    }
  }

  // ---- Bounds and refusals of the initialize limiter

  function InitializedFor(q: Quota, calls: seq<Call>, subject: string, from: nat): nat {
    if |calls| <= from then 0
    else InitializedFor(q, Before(calls), subject, from)
         + (if Initialized(q, calls) && Latest(calls).sub == Some(subject) then 1 else 0)
  }

  lemma {:induction false} InitializedForIsAdmitted(q: Quota, calls: seq<Call>, subject: string, from: nat)
    ensures InitializedFor(q, calls, subject, from) == Admitted(q, SubjectRun(calls), subject, from)
  {
    if |calls| > from {
      InitializedForIsAdmitted(q, Before(calls), subject, from);
      InitializeIsTwoMaps(q, calls);
      RunsOfBefore(calls);
    }
  }

  /** The bound on the sessions one subject may open in any window. */
  lemma InitializesAreBounded(q: Quota, calls: seq<Call>, subject: string, from: nat, start: nat, length: nat)
    requires ValidQuota(q) && Capacity(q) <= BUCKET_IDLE_TTL
    requires InOrder(calls) && from <= |calls|
    requires forall i :: from <= i < |calls| ==> start <= calls[i].now <= start + length
    ensures InitializedFor(q, calls, subject, from)
            <= Allowance(q, Evictions(q, SubjectRun(calls), subject, from), length)
  {
    InitializedForIsAdmitted(q, calls, subject, from);
    AdmissionsAreBounded(q, SubjectRun(calls), subject, from, start, length);
  }
}
