/** The tool-call limiter and the initialize limiter, each over two bounded bucket maps. */
module RateLimit {
  import opened Text
  import opened Runs
  import opened TokenBucket
  import opened BucketMap

  const INITIALIZE_REPLENISH: nat := 60 * SECOND
  const MAX_INITIALIZES_PER_IDENTITY: nat := 32
  const U32_LIMIT: nat := 0x1_0000_0000

  datatype Category = Read | Write

  datatype RejectedBy = Subject | Bearer

  /** `Quota::per_minute`: a burst of `n`, one token every 60/n seconds, in whole nanoseconds. */
  function PerMinute(n: nat): Quota
    requires n > 0
  {
    Quota(60 * SECOND / n, n)
  }

  /** The quota of `InitializeLimiter::new`: a zero burst counts as one and a zero period as a minute. */
  function InitializeQuota(replenish: nat, burst: nat): Quota {
    Quota(if replenish == 0 then 60 * SECOND else replenish, if burst == 0 then 1 else burst)
  }

  /** Every quota in use refills within the idle TTL: tool quotas within a minute, whatever is
      configured, and the initialize quota within 32 minutes. */
  lemma QuotasRefillWithinIdleTtl(n: nat)
    requires 0 < n < U32_LIMIT
    ensures ValidQuota(PerMinute(n)) && Capacity(PerMinute(n)) <= 60 * SECOND <= BUCKET_IDLE_TTL
    ensures var q := InitializeQuota(INITIALIZE_REPLENISH, MAX_INITIALIZES_PER_IDENTITY);
      ValidQuota(q) && Capacity(q) == 32 * 60 * SECOND <= BUCKET_IDLE_TTL
  {
    var period := 60 * SECOND / n;
    assert period * n + 60 * SECOND % n == 60 * SECOND;
    assert period == 0 ==> period * n == 0;
  }

  /** The bearer map and the subject map of one category. */
  datatype Maps = Maps(bearer: Entries, sub: Entries)

  /** One request to a limiter, with the eviction choices its two maps would make. */
  datatype Call = Call(bearer: string, sub: Option<string>, now: nat, bearerVictim: string, subVictim: string)

  // ---- The tool-call limiter: the bearer bucket first, then the subject bucket

  predicate BearerGrants(q: Quota, maps: Maps, c: Call) {
    Granted(q, maps.bearer, c.bearer, c.now)
  }

  predicate Allows(q: Quota, maps: Maps, c: Call) {
    && BearerGrants(q, maps, c)
    && (c.sub.Some? ==> Granted(q, maps.sub, c.sub.value, c.now))
  }

  function AfterCheck(q: Quota, maps: Maps, c: Call): Maps {
    Maps(
      Requested(q, maps.bearer, c.bearer, c.now, c.bearerVictim),
      if BearerGrants(q, maps, c) && c.sub.Some?
      then Requested(q, maps.sub, c.sub.value, c.now, c.subVictim)
      else maps.sub)
  }

  class Limiter {
    const readsPerMin: nat
    const writesPerMin: nat
    const bearerRead: Buckets
    const bearerWrite: Buckets
    const subRead: Buckets
    const subWrite: Buckets

    ghost predicate Valid() {
      && readsPerMin > 0 && writesPerMin > 0
      && bearerRead != bearerWrite && bearerRead != subRead && bearerRead != subWrite
      && bearerWrite != subRead && bearerWrite != subWrite && subRead != subWrite
    }

    ghost function MapsOf(category: Category): Maps
      reads bearerRead, subRead, bearerWrite, subWrite
    {
      match category
      case Read => Maps(bearerRead.entries, subRead.entries)
      case Write => Maps(bearerWrite.entries, subWrite.entries)
    }

    function QuotaOf(category: Category): Quota
      requires Valid()
    {
      match category
      case Read => PerMinute(readsPerMin)
      case Write => PerMinute(writesPerMin)
    }

    constructor (readQuota: nat, writeQuota: nat)
      requires readQuota > 0 && writeQuota > 0
      ensures Valid() && readsPerMin == readQuota && writesPerMin == writeQuota
      ensures fresh(bearerRead) && fresh(bearerWrite) && fresh(subRead) && fresh(subWrite)
      ensures forall category :: MapsOf(category) == Maps(map[], map[])
    {
      readsPerMin, writesPerMin := readQuota, writeQuota;
      bearerRead := new Buckets();
      bearerWrite := new Buckets();
      subRead := new Buckets();
      subWrite := new Buckets();
    }

    /** Zero quotas are rejected. */
    static method New(readQuota: nat, writeQuota: nat) returns (limiter: Option<Limiter>)
      ensures limiter.None? <==> readQuota == 0 || writeQuota == 0
      ensures limiter.Some? ==> fresh(limiter.value) && limiter.value.Valid()
      ensures limiter.Some? ==> limiter.value.readsPerMin == readQuota && limiter.value.writesPerMin == writeQuota
      ensures limiter.Some? ==> forall category :: limiter.value.MapsOf(category) == Maps(map[], map[])
    {
      if readQuota == 0 || writeQuota == 0 {
        return None;
      }
      var l := new Limiter(readQuota, writeQuota);
      return Some(l);
    }

    /** Both buckets must allow, with the number per minute of the category as burst and with one token
        every 60 seconds over that number; the other category is not touched. */
    method Check(bearer: string, sub: Option<string>, category: Category, now: nat)
      returns (ok: bool, ghost c: Call)
      requires Valid()
      modifies bearerRead, bearerWrite, subRead, subWrite
      ensures Valid()
      ensures c.bearer == bearer && c.sub == sub && c.now == now
      ensures var n := if category == Read then readsPerMin else writesPerMin;
        var q := Quota(60_000_000_000 / n, n);
        && ok == Allows(q, old(MapsOf(category)), c)
        && MapsOf(category) == AfterCheck(q, old(MapsOf(category)), c)
        && LegalCall(q, old(MapsOf(category)), c)
      ensures forall other | other != category :: MapsOf(other) == old(MapsOf(other))
    {
      var quota := QuotaOf(category);
      var bearerMap, subMap;
      match category {
        case Read => bearerMap, subMap := bearerRead, subRead;
        case Write => bearerMap, subMap := bearerWrite, subWrite;
      }
      ghost var bearerVictim, subVictim := "", "";
      ok, bearerVictim := bearerMap.Request(quota, bearer, now);
      if ok && sub.Some? {
        ok, subVictim := subMap.Request(quota, sub.value, now);
      }
      c := Call(bearer, sub, now, bearerVictim, subVictim);
    }
  }

  /** The eviction choices of a call are least recently seen ones. */
  predicate LegalCall(q: Quota, maps: Maps, c: Call) {
    && (Evicts(maps.bearer, c.bearer, c.now) ==> IsLeastRecent(Swept(maps.bearer, c.now), c.bearerVictim))
    && (BearerGrants(q, maps, c) && c.sub.Some? && Evicts(maps.sub, c.sub.value, c.now) ==>
          IsLeastRecent(Swept(maps.sub, c.now), c.subVictim))
  }

  // ---- The initialize limiter: one charge, on the subject if there is one

  predicate Initializes(q: Quota, maps: Maps, c: Call) {
    match c.sub
    case Some(s) => Granted(q, maps.sub, s, c.now)
    case None => Granted(q, maps.bearer, c.bearer, c.now)
  }

  function AfterInitialize(q: Quota, maps: Maps, c: Call): Maps {
    match c.sub
    case Some(s) => maps.(sub := Requested(q, maps.sub, s, c.now, c.subVictim))
    case None => maps.(bearer := Requested(q, maps.bearer, c.bearer, c.now, c.bearerVictim))
  }

  class InitializeLimiter {
    const quota: Quota
    const bearer: Buckets
    const sub: Buckets

    ghost predicate Valid() {
      ValidQuota(quota) && bearer != sub
    }

    ghost function AllMaps(): Maps
      reads bearer, sub
    {
      Maps(bearer.entries, sub.entries)
    }

    constructor (replenish: nat, burst: nat)
      ensures Valid()
      ensures quota.period == (if replenish == 0 then 60_000_000_000 else replenish)
      ensures quota.burst == (if burst == 0 then 1 else burst)
      ensures fresh(bearer) && fresh(sub)
      ensures AllMaps() == Maps(map[], map[])
    {
      quota := InitializeQuota(replenish, burst);
      bearer := new Buckets();
      sub := new Buckets();
    }

    /** Charges exactly one bucket and names the one that refuses. */
    method Check(bearerHash: string, subject: Option<string>, now: nat)
      returns (result: Result<(), RejectedBy>, ghost c: Call)
      requires Valid()
      modifies bearer, sub
      ensures Valid()
      ensures c.bearer == bearerHash && c.sub == subject && c.now == now
      ensures result.Ok? == Initializes(quota, old(AllMaps()), c)
      ensures result.Err? ==> result.error == if subject.Some? then Subject else Bearer
      ensures AllMaps() == AfterInitialize(quota, old(AllMaps()), c)
      ensures subject.Some? && Evicts(old(sub.entries), subject.value, now) ==>
        IsLeastRecent(Swept(old(sub.entries), now), c.subVictim)
      ensures subject.None? && Evicts(old(bearer.entries), bearerHash, now) ==>
        IsLeastRecent(Swept(old(bearer.entries), now), c.bearerVictim)
    {
      ghost var victim;
      var ok;
      if subject.Some? {
        ok, victim := sub.Request(quota, subject.value, now);
        c := Call(bearerHash, subject, now, "", victim);
        result := if ok then Ok(()) else Err(Subject);
      } else {
        ok, victim := bearer.Request(quota, bearerHash, now);
        c := Call(bearerHash, subject, now, victim, "");
        result := if ok then Ok(()) else Err(Bearer);
      }
    }
  }
}
