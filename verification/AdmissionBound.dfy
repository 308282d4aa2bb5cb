/** How many requests of one identity a bucket map can admit within a window of time. */
module AdmissionBound {
  import opened Runs
  import opened TokenBucket
  import opened BucketMap
  import opened MapRuns

  /** Requests of `key` admitted by the events of the run from position `from` on. */
  function Admitted(q: Quota, run: seq<Event>, key: string, from: nat): nat {
    if |run| <= from then 0
    else Admitted(q, Before(run), key, from)
         + (if Decision(q, run) && Latest(run).key == key then 1 else 0)
  }

  /** How often `key` itself is evicted as least recently seen from position `from` on. */
  function Evictions(q: Quota, run: seq<Event>, key: string, from: nat): nat {
    if |run| <= from then 0
    else Evictions(q, Before(run), key, from)
         + (if EvictsLast(q, run) && Latest(run).victim == key then 1 else 0)
  }

  /** The same two counts as sums of time: one period for each admission, one capacity for each eviction. */
  function PaidTime(q: Quota, run: seq<Event>, key: string, from: nat): nat {
    if |run| <= from then 0
    else PaidTime(q, Before(run), key, from)
         + (if Decision(q, run) && Latest(run).key == key then q.period else 0)
  }

  function LostTime(q: Quota, run: seq<Event>, key: string, from: nat): nat {
    if |run| <= from then 0
    else LostTime(q, Before(run), key, from)
         + (if EvictsLast(q, run) && Latest(run).victim == key then Capacity(q) else 0)
  }

  lemma {:induction false} PaidTimeIsProduct(q: Quota, run: seq<Event>, key: string, from: nat)
    ensures PaidTime(q, run, key, from) == q.period * Admitted(q, run, key, from)
  {
    if |run| > from {
      PaidTimeIsProduct(q, Before(run), key, from);
      OneMore(q.period, Admitted(q, Before(run), key, from), Decision(q, run) && Latest(run).key == key);
    }
  }

  lemma {:induction false} LostTimeIsProduct(q: Quota, run: seq<Event>, key: string, from: nat)
    ensures LostTime(q, run, key, from) == Capacity(q) * Evictions(q, run, key, from)
  {
    if |run| > from {
      LostTimeIsProduct(q, Before(run), key, from);
      OneMore(Capacity(q), Evictions(q, Before(run), key, from), EvictsLast(q, run) && Latest(run).victim == key);
    }
  }

  lemma OneMore(a: nat, n: nat, more: bool)
    ensures a * (n + (if more then 1 else 0)) == a * n + if more then a else 0
  {
  }

  function FullAt(m: Entries, key: string): nat {
    if key in m then m[key].bucket.fullAt else 0
  }

  /** The instant of the last event, or the start of the window before its first event. */
  function Clock(run: seq<Event>, from: nat, start: nat): nat {
    if |run| <= from then start else Latest(run).now
  }

  /** The instant at which the bucket will be full again moves one period ahead for each admitted
      request, and falls back by at most one capacity for each eviction. */
  lemma {:induction false} EveryAdmissionIsPaid(q: Quota, run: seq<Event>, key: string, from: nat, start: nat)
    requires ValidQuota(q) && Capacity(q) <= BUCKET_IDLE_TTL
    requires WellTimed(run) && from <= |run|
    requires forall i :: from <= i < |run| ==> start <= run[i].now
    ensures Max(FullAt(MapAfter(q, run), key), Clock(run, from, start)) + LostTime(q, run, key, from)
            >= start + PaidTime(q, run, key, from)
  {
    if |run| > from {
      BeforeIsWellTimed(run);
      EveryAdmissionIsPaid(q, Before(run), key, from, start);
      EntriesRefill(q, Before(run));
      var e, m := Latest(run), MapAfter(q, Before(run));
      assert Clock(Before(run), from, start) <= e.now;
      if e.Ask? {
        OneStep(q, m, e, key, Clock(Before(run), from, start), Decision(q, run) && e.key == key,
                EvictsLast(q, run) && e.victim == key);
      }
    }
  }

  lemma OneStep(q: Quota, m: Entries, e: Event, key: string, clock: nat, gained: bool, lost: bool)
    requires ValidQuota(q) && Capacity(q) <= BUCKET_IDLE_TTL
    requires e.Ask? && clock <= e.now
    requires forall k | k in m :: m[k].lastSeen <= e.now && Reachable(q, m[k].bucket, m[k].lastSeen)
    requires gained == (e.key == key && Granted(q, m, key, e.now))
    requires lost == (Evicts(m, e.key, e.now) && e.victim == key)
    ensures Max(FullAt(Requested(q, m, e.key, e.now, e.victim), key), e.now) + (if lost then Capacity(q) else 0)
            >= Max(FullAt(m, key), clock) + if gained then q.period else 0
  {
    RequestedEntries(q, m, e.key, e.now, e.victim);
    FullBucketAdmits(q, Fresh(e.now), e.now);
  }

  /** A burst for the start of the window and for each eviction, and one for each period. */
  function Allowance(q: Quota, evictions: nat, length: nat): nat
    requires ValidQuota(q)
  {
    q.burst * (1 + evictions) + length / q.period
  }

  /** In every window of length `length`, one identity is admitted at most `burst` times, plus once
      per period of the window, plus one more burst for each time its bucket is evicted. */
  lemma AdmissionsAreBounded(q: Quota, run: seq<Event>, key: string, from: nat, start: nat, length: nat)
    requires ValidQuota(q) && Capacity(q) <= BUCKET_IDLE_TTL
    requires WellTimed(run) && from <= |run|
    requires forall i :: from <= i < |run| ==> start <= run[i].now <= start + length
    ensures Admitted(q, run, key, from) <= Allowance(q, Evictions(q, run, key, from), length)
  {
    EveryAdmissionIsPaid(q, run, key, from, start);
    EntriesRefill(q, run);
    assert |run| > from ==> PaidTime(q, run, key, from) <= length + Capacity(q) + LostTime(q, run, key, from);
    PaidTimeIsProduct(q, run, key, from);
    LostTimeIsProduct(q, run, key, from);
    if |run| > from {
      PaidForAtMost(q, Admitted(q, run, key, from), Evictions(q, run, key, from), length);
    }
  }

  lemma PaidForAtMost(q: Quota, admitted: nat, evictions: nat, length: nat)
    requires ValidQuota(q)
    requires q.period * admitted <= length + Capacity(q) + Capacity(q) * evictions
    ensures admitted <= Allowance(q, evictions, length)
  {
    var bursts := q.burst * (1 + evictions);
    var extra := admitted - bursts;
    assert Capacity(q) + Capacity(q) * evictions == q.period * bursts by {
      assert q.period * q.burst * (1 + evictions) == q.period * bursts;
    }
    assert q.period * extra == q.period * admitted - q.period * bursts;
    AtMostQuotient(q.period, extra, length);
  }

  lemma AtMostQuotient(d: nat, x: int, n: nat)
    requires d > 0 && d * x <= n
    ensures x <= n / d
  {
    var y := n / d;
    assert n < d * (y + 1);
    assert x >= y + 1 ==> d * x >= d * (y + 1);
  }
}
