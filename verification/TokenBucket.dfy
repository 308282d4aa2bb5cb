/** One rate-limit bucket.

    The `governor` library is not part of this model. The only assumption about it is stated
    here: a bucket is an ideal token bucket that is full when created, regains one token per
    period, never holds more than `burst` tokens, and refuses a request exactly when it holds
    less than one token. Instants are nanoseconds.
 */
module TokenBucket {

  datatype Quota = Quota(period: nat, burst: nat)

  predicate ValidQuota(q: Quota) {
    q.period > 0 && q.burst > 0
  }

  /** How long an empty bucket takes to fill up. */
  function Capacity(q: Quota): nat {
    q.period * q.burst
  }

  /** A bucket is determined by the instant at which it will be full again. */
  datatype Bucket = Bucket(fullAt: nat)

  function Max(a: nat, b: nat): nat {
    if a < b then b else a
  }

  function Fresh(now: nat): Bucket {
    Bucket(now)
  }

  predicate Admits(q: Quota, b: Bucket, now: nat) {
    Max(b.fullAt, now) + q.period <= now + Capacity(q)
  }

  /** The bucket after one check: charged when it admits, untouched when it refuses. */
  function Checked(q: Quota, b: Bucket, now: nat): Bucket {
    if Admits(q, b, now) then Bucket(Max(b.fullAt, now) + q.period) else b
  }

  // ---- The ideal token bucket

  /** The number of tokens at an instant, in units of 1/period. */
  function Level(q: Quota, b: Bucket, now: nat): int {
    Capacity(q) - (if b.fullAt > now then b.fullAt - now else 0)
  }

  lemma CapacityHoldsOneToken(q: Quota)
    requires ValidQuota(q)
    ensures q.period <= Capacity(q)
  {
    assert Capacity(q) == q.period + q.period * (q.burst - 1);
  }

  /** Time refills the bucket at one token per period, up to the burst; a check takes exactly one
      token when there is one and nothing otherwise; a new bucket is full. */
  lemma BucketIsIdeal(q: Quota, b: Bucket, now: nat, elapsed: nat)
    ensures Level(q, Fresh(now), now) == Capacity(q)
    ensures Level(q, b, now + elapsed) ==
            if Level(q, b, now) + elapsed < Capacity(q) then Level(q, b, now) + elapsed else Capacity(q)
    ensures Admits(q, b, now) <==> Level(q, b, now) >= q.period
    ensures Level(q, Checked(q, b, now), now) ==
            if Admits(q, b, now) then Level(q, b, now) - q.period else Level(q, b, now)
  {
  }

  lemma FullBucketAdmits(q: Quota, b: Bucket, now: nat)
    requires ValidQuota(q) && b.fullAt <= now
    ensures Admits(q, b, now)
    ensures Checked(q, b, now) == Checked(q, Fresh(now), now)
  {
    CapacityHoldsOneToken(q);
  }

  /** The states that checks at or before `now` can leave a bucket in. */
  predicate Reachable(q: Quota, b: Bucket, now: nat) {
    b.fullAt <= now + Capacity(q)
  }

  /** A bucket that was full when created refills within one capacity of its last check. */
  lemma CheckedStaysReachable(q: Quota, b: Bucket, now: nat)
    requires ValidQuota(q)
    ensures Reachable(q, Fresh(now), now)
    ensures Reachable(q, b, now) ==> Reachable(q, Checked(q, b, now), now)
    ensures Admits(q, b, now) ==> Reachable(q, Checked(q, b, now), now)
  {
  }

  /** Waiting `ttl` refills every bucket, however it was drained, exactly when the capacity is at
      most `ttl`; this is what relates burst, period and idle time. */
  lemma IdleTimeRefillsIff(q: Quota, ttl: nat)
    requires ValidQuota(q)
    ensures Capacity(q) <= ttl <==>
            forall b: Bucket, now: nat :: Reachable(q, b, now) ==> Level(q, b, now + ttl) == Capacity(q)
  {
    var drained := Bucket(Capacity(q));
    assert Reachable(q, drained, 0);
    if Capacity(q) > ttl {
      assert Level(q, drained, 0 + ttl) != Capacity(q);
    }
  }
}
