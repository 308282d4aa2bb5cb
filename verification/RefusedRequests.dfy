/** Deleting refused requests from a run of a bucket map changes nothing else. */
module RefusedRequests {
  import opened Runs
  import opened TokenBucket
  import opened BucketMap
  import opened MapRuns

  /** `less` is `run` with some of its refused requests deleted. */
  predicate ErasesRefused(q: Quota, run: seq<Event>, less: seq<Event>) {
    |run| == |less| &&
    (run != [] ==>
       && ErasesRefused(q, Before(run), Before(less))
       && (Latest(less) == Latest(run) || (Latest(less) == Pass(Latest(run).now) && !Decision(q, run))))
  }

  lemma {:induction false} ErasedKeepsTimes(q: Quota, run: seq<Event>, less: seq<Event>)
    requires ErasesRefused(q, run, less)
    ensures forall i :: 0 <= i < |run| ==> less[i].now == run[i].now
  {
    if run != [] {
      ErasedKeepsTimes(q, Before(run), Before(less));
    }
  }

  /** Whatever the shorter run has seen lately is in the map of the longer run, seen no earlier. */
  ghost predicate Covers(m: Entries, m': Entries, now: nat) {
    forall k | k in m' && !IsIdle(m'[k], now) :: k in m && m'[k].lastSeen <= m[k].lastSeen
  }

  lemma CoversAfterRequest(q: Quota, m: Entries, m': Entries, e: Event, erased: bool)
    requires e.Ask? && !Evicts(m, e.key, e.now) && !Evicts(m', e.key, e.now)
    requires Covers(m, m', e.now)
    requires forall k | k in m' :: m'[k].lastSeen <= e.now
    ensures Covers(Requested(q, m, e.key, e.now, e.victim),
                   if erased then m' else Requested(q, m', e.key, e.now, e.victim), e.now)
  {
    RequestedEntries(q, m, e.key, e.now, e.victim);
    RequestedEntries(q, m', e.key, e.now, e.victim);
  }

  /** A request that evicts in the shorter run would evict in the longer one as well. */
  lemma EvictionIsInherited(m: Entries, m': Entries, key: string, now: nat)
    requires Covers(m, m', now)
    requires |m| <= MAX_BUCKETS_PER_MAP
    requires Evicts(m', key, now)
    ensures Evicts(m, key, now)
  {
    var swept' := Swept(m', now);
    SubmapSize(swept', m');
    assert swept'.Keys <= m.Keys;
    SubmapSize(swept', m);
    assert m.Keys == swept'.Keys;
    forall k | k in m ensures !IsIdle(m[k], now) {
      assert k in swept';
    }
    assert Swept(m, now).Keys == m.Keys;
    SubmapSize(m, Swept(m, now));
  }

  lemma CoversLater(m: Entries, m': Entries, now: nat, later: nat)
    requires Covers(m, m', now) && now <= later
    ensures Covers(m, m', later)
  {
  }

  lemma {:induction false} ErasedRunIsCovered(q: Quota, run: seq<Event>, less: seq<Event>)
    requires ValidQuota(q) && WellTimed(run) && NeverEvicts(q, run)
    requires ErasesRefused(q, run, less)
    ensures NeverEvicts(q, less)
    ensures Covers(MapAfter(q, run), MapAfter(q, less), if run == [] then 0 else Latest(run).now)
  {
    if run != [] {
      BeforeIsWellTimed(run);
      ErasedRunIsCovered(q, Before(run), Before(less));
      var e := Latest(run);
      var m, m' := MapAfter(q, Before(run)), MapAfter(q, Before(less));
      CoversLater(m, m', if Before(run) == [] then 0 else Latest(Before(run)).now, e.now);
      NeverEvictsIsLegal(q, Before(run));
      RunStaysBounded(q, Before(run));
      if e.Ask? {
        if Evicts(m', e.key, e.now) {
          EvictionIsInherited(m, m', e.key, e.now);
        }
        ErasedKeepsTimes(q, Before(run), Before(less));
        EntriesRefill(q, Before(less));
        CoversAfterRequest(q, m, m', e, Latest(less).Pass?);
      }
    }
  }

  lemma {:induction false} NeverEvictsIsLegal(q: Quota, run: seq<Event>)
    requires NeverEvicts(q, run)
    ensures Legal(q, run)
  {
    if run != [] {
      NeverEvictsIsLegal(q, Before(run));
    }
  }

  /** A refused request leaves a never-discarding limiter unchanged. */
  lemma {:induction false} ErasedRunHasSameBuckets(q: Quota, run: seq<Event>, less: seq<Event>)
    requires ValidQuota(q) && Capacity(q) <= BUCKET_IDLE_TTL
    requires WellTimed(run) && NeverEvicts(q, run)
    requires ErasesRefused(q, run, less)
    ensures UnboundedAfter(q, less) == UnboundedAfter(q, run)
  {
    if run != [] {
      BeforeIsWellTimed(run);
      ErasedRunHasSameBuckets(q, Before(run), Before(less));
      var e, u := Latest(run), UnboundedAfter(q, Before(run));
      if e.Ask? && Latest(less).Pass? {
        IdleSweepIsInvisible(q, run);
        FullBucketAdmits(q, Fresh(e.now), e.now);
        assert e.key in u && Checked(q, u[e.key], e.now) == u[e.key];
      }
    }
  }

  /** With no least-recently-seen eviction, deleting any refused requests leaves every other
      decision as it was, and causes no eviction either. */
  lemma RefusedRequestsAreErasable(q: Quota, run: seq<Event>, less: seq<Event>)
    requires ValidQuota(q) && Capacity(q) <= BUCKET_IDLE_TTL
    requires WellTimed(run) && NeverEvicts(q, run) && run != []
    requires ErasesRefused(q, run, less)
    ensures NeverEvicts(q, less)
    ensures Latest(less).Ask? ==> Decision(q, less) == Decision(q, run)
  {
    ErasedRunIsCovered(q, run, less);
    ErasedKeepsTimes(q, run, less);
    BeforeIsWellTimed(run);
    ErasedRunHasSameBuckets(q, Before(run), Before(less));
    IdleSweepIsInvisible(q, run);
    IdleSweepIsInvisible(q, less);
  }

  // ---- Deleting by flags

  /** The same run with the deleted events passed over. */
  function Masked(run: seq<Event>, keep: seq<bool>): (less: seq<Event>)
    requires |keep| == |run|
    ensures |less| == |run|
    ensures forall i :: 0 <= i < |run| ==> less[i] == if keep[i] then run[i] else Pass(run[i].now)
  {
    seq(|run|, i requires 0 <= i < |run| => if keep[i] then run[i] else Pass(run[i].now))
  }

  lemma MaskedBefore(run: seq<Event>, keep: seq<bool>)
    requires |keep| == |run| && run != []
    ensures Before(Masked(run, keep)) == Masked(Before(run), Before(keep))
  {
  }

  lemma PassesOver(q: Quota, run: seq<Event>)
    requires run != [] && Latest(run).Pass?
    ensures MapAfter(q, run) == MapAfter(q, Before(run))
  {
  }

  lemma AsksLast(q: Quota, run: seq<Event>, key: string, now: nat, victim: string)
    requires run != [] && Latest(run) == Ask(key, now, victim)
    ensures MapAfter(q, run) == Requested(q, MapAfter(q, Before(run)), key, now, victim)
  {
  }
}
