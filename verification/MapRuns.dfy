/** Runs of one bounded bucket map: any number of requests of any identities at non-decreasing
    instants. A run is a sequence of events, so every prefix of a run is a run.
 */
module MapRuns {
  import opened Text
  import opened Runs
  import opened TokenBucket
  import opened BucketMap

  /** A request that reaches the map, with the eviction choice it would make, or an instant at
      which the map is left alone. */
  datatype Event =
    | Ask(key: string, now: nat, victim: string)
    | Pass(now: nat)

  predicate WellTimed(run: seq<Event>) {
    forall i, j :: 0 <= i < j < |run| ==> run[i].now <= run[j].now
  }

  /** The map after a run. */
  function MapAfter(q: Quota, run: seq<Event>): Entries {
    if run == [] then map[] else
      match Latest(run)
      case Pass(_) => MapAfter(q, Before(run))
      case Ask(key, now, victim) => Requested(q, MapAfter(q, Before(run)), key, now, victim)
  }

  /** Does the last event of the run ask for something and get it? */
  predicate Decision(q: Quota, run: seq<Event>)
    requires run != []
  {
    Latest(run).Ask? && Granted(q, MapAfter(q, Before(run)), Latest(run).key, Latest(run).now)
  }

  /** Does the last event of the run fire the least-recently-seen branch? */
  predicate EvictsLast(q: Quota, run: seq<Event>)
    requires run != []
  {
    Latest(run).Ask? && Evicts(MapAfter(q, Before(run)), Latest(run).key, Latest(run).now)
  }

  predicate NeverEvicts(q: Quota, run: seq<Event>) {
    run != [] ==> !EvictsLast(q, run) && NeverEvicts(q, Before(run))
  }

  /** Every eviction picks an entry that no other entry was seen before. */
  predicate Legal(q: Quota, run: seq<Event>) {
    run != [] ==>
      && Legal(q, Before(run))
      && (EvictsLast(q, run) ==> IsLeastRecent(Swept(MapAfter(q, Before(run)), Latest(run).now), Latest(run).victim))
  }

  lemma BeforeIsWellTimed(run: seq<Event>)
    requires WellTimed(run) && run != []
    ensures WellTimed(Before(run))
    ensures Before(run) != [] ==> Latest(Before(run)).now <= Latest(run).now
  {
  }

  // ---- What every run keeps

  /** In every reachable state the map is within its cap. */
  lemma {:induction false} RunStaysBounded(q: Quota, run: seq<Event>)
    requires Legal(q, run)
    ensures |MapAfter(q, run)| <= 4096
  {
    if run != [] {
      RunStaysBounded(q, Before(run));
      var e := Latest(run);
      if e.Ask? {
        RequestedStaysBounded(q, MapAfter(q, Before(run)), e.key, e.now, e.victim);
      }
    }
  }

  /** No entry is from the future, and each refills within one capacity of its last request. */
  lemma {:induction false} EntriesRefill(q: Quota, run: seq<Event>)
    requires ValidQuota(q) && WellTimed(run)
    ensures forall k | k in MapAfter(q, run) ::
      var e := MapAfter(q, run)[k];
      run != [] && e.lastSeen <= Latest(run).now && Reachable(q, e.bucket, e.lastSeen)
  {
    if run != [] {
      BeforeIsWellTimed(run);
      EntriesRefill(q, Before(run));
      var e := Latest(run);
      if e.Ask? {
        var m := MapAfter(q, Before(run));
        RequestedEntries(q, m, e.key, e.now, e.victim);
        CheckedStaysReachable(q, Found(m, e.key, e.now), e.now);
      }
    }
  }

  // ---- The idle sweep is invisible

  type Unbounded = map<string, Bucket>

  /** The bucket of an identity in a limiter that never discards one. */
  function Kept(u: Unbounded, key: string, now: nat): Bucket {
    if key in u then u[key] else Fresh(now)
  }

  function UnboundedAfter(q: Quota, run: seq<Event>): Unbounded {
    if run == [] then map[] else
      var u := UnboundedAfter(q, Before(run));
      match Latest(run)
      case Pass(_) => u
      case Ask(key, now, _) => u[key := Checked(q, Kept(u, key, now), now)]
  }

  predicate UnboundedDecision(q: Quota, run: seq<Event>)
    requires run != []
  {
    Latest(run).Ask? &&
    Admits(q, Kept(UnboundedAfter(q, Before(run)), Latest(run).key, Latest(run).now), Latest(run).now)
  }

  /** The bounded map holds the very buckets of the unbounded one; those it lacks are full. */
  ghost predicate Agrees(m: Entries, u: Unbounded, now: nat) {
    && (forall k | k in m :: k in u && u[k] == m[k].bucket)
    && (forall k | k in u && k !in m :: u[k].fullAt <= now)
  }

  lemma {:induction false} SweptRunAgrees(q: Quota, run: seq<Event>)
    requires ValidQuota(q) && Capacity(q) <= BUCKET_IDLE_TTL
    requires WellTimed(run) && NeverEvicts(q, run)
    ensures Agrees(MapAfter(q, run), UnboundedAfter(q, run), if run == [] then 0 else Latest(run).now)
  {
    if run != [] {
      BeforeIsWellTimed(run);
      SweptRunAgrees(q, Before(run));
      var e := Latest(run);
      if e.Ask? {
        var m, u := MapAfter(q, Before(run)), UnboundedAfter(q, Before(run));
        EntriesRefill(q, Before(run));
        AgreesAfterRequest(q, m, u, e.key, e.now, e.victim);
      }
    }
  }

  lemma AgreesAfterRequest(q: Quota, m: Entries, u: Unbounded, key: string, now: nat, victim: string)
    requires ValidQuota(q) && Capacity(q) <= BUCKET_IDLE_TTL
    requires Agrees(m, u, now) && !Evicts(m, key, now)
    requires forall k | k in m :: Reachable(q, m[k].bucket, m[k].lastSeen)
    ensures Admits(q, Found(m, key, now), now) == Admits(q, Kept(u, key, now), now)
    ensures Agrees(Requested(q, m, key, now, victim), u[key := Checked(q, Kept(u, key, now), now)], now)
  {
    RequestedEntries(q, m, key, now, victim);
    FullBucketAdmits(q, Fresh(now), now);
    if key !in m && key in u {
      FullBucketAdmits(q, u[key], now);
    }
  }

  /** In a run in which the least-recently-seen branch never fires, the bounded map decides every
      request as a map that never discards a bucket would. */
  lemma IdleSweepIsInvisible(q: Quota, run: seq<Event>)
    requires ValidQuota(q) && Capacity(q) <= BUCKET_IDLE_TTL
    requires WellTimed(run) && NeverEvicts(q, run) && run != []
    ensures Decision(q, run) == UnboundedDecision(q, run)
  {
    BeforeIsWellTimed(run);
    SweptRunAgrees(q, Before(run));
    var e := Latest(run);
    if e.Ask? {
      var m, u := MapAfter(q, Before(run)), UnboundedAfter(q, Before(run));
      EntriesRefill(q, Before(run));
      AgreesAfterRequest(q, m, u, e.key, e.now, e.victim);
    }
  }

  // ---- Eviction is least-recently-seen

  /** The last event of a run that asks for `key`. */
  function LastAsk(run: seq<Event>, key: string): Option<nat> {
    if run == [] then None
    else if Latest(run).Ask? && Latest(run).key == key then Some(Latest(run).now)
    else LastAsk(Before(run), key)
  }

  lemma {:induction false} EntriesRememberLastAsk(q: Quota, run: seq<Event>)
    ensures forall k | k in MapAfter(q, run) :: LastAsk(run, k) == Some(MapAfter(q, run)[k].lastSeen)
  {
    if run != [] {
      EntriesRememberLastAsk(q, Before(run));
      var e := Latest(run);
      if e.Ask? {
        RequestedEntries(q, MapAfter(q, Before(run)), e.key, e.now, e.victim);
      }
    }
  }

  /** A crowd of other identities, as many as a map can hold, each requested no earlier than the
      last request of `loser` before the last event. */
  predicate CrowdsOut(crowd: set<string>, run: seq<Event>, loser: string)
    requires run != []
  {
    && |crowd| >= 4096 && loser !in crowd
    && LastAsk(Before(run), loser).Some?
    && forall k | k in crowd ::
      LastAsk(run, k).Some? && LastAsk(run, k).value >= LastAsk(Before(run), loser).value
  }

  /** When a new key evicts, the entries that stay and the new key are a crowd. */
  lemma EvictionMakesCrowd(q: Quota, run: seq<Event>, loser: string)
    requires ValidQuota(q) && Legal(q, run) && WellTimed(run) && run != []
    requires EvictsLast(q, run) && loser == Latest(run).victim && loser != Latest(run).key
    ensures var swept := Swept(MapAfter(q, Before(run)), Latest(run).now);
      CrowdsOut(swept.Keys - {loser} + {Latest(run).key}, run, loser)
  {
    var e, m := Latest(run), MapAfter(q, Before(run));
    var swept := Swept(m, e.now);
    var crowd := swept.Keys - {loser} + {e.key};
    assert |swept.Keys| == |swept| && |crowd| == |swept.Keys|;
    EntriesRememberLastAsk(q, Before(run));
    BeforeIsWellTimed(run);
    EntriesRefill(q, Before(run));
    forall k | k in crowd
      ensures LastAsk(run, k).Some? && LastAsk(run, k).value >= LastAsk(Before(run), loser).value
    {
      if k != e.key {
        assert LastAsk(run, k) == LastAsk(Before(run), k) == Some(m[k].lastSeen);
      }
    }
  }

  /** An identity loses its bucket only when it has been idle for the whole TTL, or when at least
      4096 other identities were requested at or after its own last request. */
  lemma LosesBucketOnlyWhenCrowdedOut(q: Quota, run: seq<Event>, loser: string)
    requires ValidQuota(q) && Legal(q, run) && WellTimed(run) && run != []
    requires loser in MapAfter(q, Before(run)) && loser !in MapAfter(q, run)
    ensures LastAsk(Before(run), loser).Some?
    ensures
      || Latest(run).now - LastAsk(Before(run), loser).value >= 3600 * SECOND
      || exists crowd :: CrowdsOut(crowd, run, loser)
  {
    var e, m := Latest(run), MapAfter(q, Before(run));
    EntriesRememberLastAsk(q, Before(run));
    RequestedEntries(q, m, e.key, e.now, e.victim);
    if !IsIdle(m[loser], e.now) {
      EvictionMakesCrowd(q, run, loser);
    }
  }
}
