/** A bounded map of rate-limit buckets: `get_or_insert_with_quota` followed by `check`, taken as
    one step at one instant.
 */
module BucketMap {
  import opened Runs
  import opened TokenBucket

  const MAX_BUCKETS_PER_MAP: nat := 4096
  const BUCKET_IDLE_TTL: nat := 3600 * SECOND

  datatype Entry = Entry(bucket: Bucket, lastSeen: nat)

  type Entries = map<string, Entry>

  predicate IsIdle(e: Entry, now: nat) {
    now - e.lastSeen >= BUCKET_IDLE_TTL
  }

  /** Idle buckets are discarded, but only when the map is full. */
  function Swept(m: Entries, now: nat): (s: Entries)
    ensures |m| < MAX_BUCKETS_PER_MAP ==> s == m
    ensures s.Keys <= m.Keys
    ensures forall k | k in s :: s[k] == m[k]
    ensures forall k | k in m && !IsIdle(m[k], now) :: k in s
    ensures |m| >= MAX_BUCKETS_PER_MAP ==> forall k | k in s :: !IsIdle(s[k], now)
  {
    if |m| >= MAX_BUCKETS_PER_MAP then map k | k in m && !IsIdle(m[k], now) :: m[k] else m
  }

  /** The least-recently-seen branch fires: a new key finds the map full even after the sweep. */
  predicate Evicts(m: Entries, key: string, now: nat) {
    key !in m && |Swept(m, now)| >= MAX_BUCKETS_PER_MAP
  }

  predicate IsLeastRecent(m: Entries, victim: string) {
    victim in m && forall k | k in m :: m[victim].lastSeen <= m[k].lastSeen
  }

  /** The map after a lookup; `victim` matters only when the least-recently-seen branch fires. */
  function LookedUp(m: Entries, key: string, now: nat, victim: string): (r: Entries)
    ensures key in r && r[key].lastSeen == now
    ensures r[key].bucket == if key in m then m[key].bucket else Fresh(now)
  {
    if key in m then m[key := m[key].(lastSeen := now)]
    else
      var swept := Swept(m, now);
      var kept := if |swept| >= MAX_BUCKETS_PER_MAP then swept - {victim} else swept;
      kept[key := Entry(Fresh(now), now)]
  }

  /** The bucket that a request for `key` finds. */
  function Found(m: Entries, key: string, now: nat): Bucket {
    if key in m then m[key].bucket else Fresh(now)
  }

  predicate Granted(q: Quota, m: Entries, key: string, now: nat) {
    Admits(q, Found(m, key, now), now)
  }

  /** The map after a lookup and the check of the bucket found. */
  function Requested(q: Quota, m: Entries, key: string, now: nat, victim: string): Entries {
    var found := LookedUp(m, key, now, victim);
    found[key := found[key].(bucket := Checked(q, found[key].bucket, now))]
  }

  /** What one request does to every entry. */
  lemma RequestedEntries(q: Quota, m: Entries, key: string, now: nat, victim: string)
    ensures var r := Requested(q, m, key, now, victim);
      && key in r && r[key] == Entry(Checked(q, Found(m, key, now), now), now)
      && (forall k | k in r && k != key :: k in m && r[k] == m[k])
      && (forall k | k in m && k !in r :: IsIdle(m[k], now) || (Evicts(m, key, now) && k == victim))
      && (Evicts(m, key, now) && victim != key ==> victim !in r)
  {
  }

  /** A map below 4096 entries is left alone; a full one keeps exactly what was seen within 3600 seconds. */
  lemma SweptIff(m: Entries, key: string, now: nat)
    ensures |m| < 4096 ==> Swept(m, now) == m && !Evicts(m, key, now)
    ensures |m| >= 4096 ==>
      forall k :: k in Swept(m, now) <==> k in m && now - m[k].lastSeen < 3_600_000_000_000
    ensures Evicts(m, key, now) <==> key !in m && |Swept(m, now)| >= 4096
  {
  }

  /** When the eviction choice is a least recently seen entry, one request discards only idle entries and
      one that no remaining entry was seen before. */
  lemma DiscardsLeastRecent(q: Quota, m: Entries, key: string, now: nat, victim: string, lost: string)
    requires Evicts(m, key, now) ==> IsLeastRecent(Swept(m, now), victim)
    requires lost in m && lost !in Requested(q, m, key, now, victim)
    ensures var r := Requested(q, m, key, now, victim);
      IsIdle(m[lost], now) ||
      (Evicts(m, key, now) && forall k | k in r && k != key :: m[lost].lastSeen <= r[k].lastSeen)
  {
    RequestedEntries(q, m, key, now, victim);
  }

  /** One request never lets the map grow beyond its cap. */
  lemma RequestedStaysBounded(q: Quota, m: Entries, key: string, now: nat, victim: string)
    requires |m| <= MAX_BUCKETS_PER_MAP
    requires Evicts(m, key, now) ==> IsLeastRecent(Swept(m, now), victim)
    ensures |Requested(q, m, key, now, victim)| <= MAX_BUCKETS_PER_MAP
  {
    var swept := Swept(m, now);
    SubmapSize(swept, m);
    var found := LookedUp(m, key, now, victim);
    var r := Requested(q, m, key, now, victim);
    assert r.Keys == found.Keys;
    if key in m {
      assert r.Keys == m.Keys;
    } else if |swept| >= MAX_BUCKETS_PER_MAP {
      assert found.Keys == swept.Keys - {victim} + {key};
    } else {
      assert found.Keys == swept.Keys + {key};
    }
    assert |r| == |r.Keys| && |m| == |m.Keys| && |swept| == |swept.Keys|;
  }

  /** The shared map with its lock held for the lookup; the check follows at the same instant. */
  class Buckets {
    var entries: Entries

    constructor ()
      ensures entries == map[]
    {
      entries := map[];
    }

    method GetOrInsert(key: string, now: nat) returns (bucket: Bucket, ghost victim: string)
      modifies this
      ensures Evicts(old(entries), key, now) ==> IsLeastRecent(Swept(old(entries), now), victim)
      ensures entries == LookedUp(old(entries), key, now, victim)
      ensures bucket == entries[key].bucket
    {
      victim := key;
      if key in entries {
        entries := entries[key := entries[key].(lastSeen := now)];
        return entries[key].bucket, victim;
      }
      if |entries| >= MAX_BUCKETS_PER_MAP {
        entries := map k | k in entries && now - entries[k].lastSeen < BUCKET_IDLE_TTL :: entries[k];
      }
      assert entries == Swept(old(entries), now);
      if |entries| >= MAX_BUCKETS_PER_MAP {
        var oldest := FindOldest();
        victim := oldest;
        entries := entries - {oldest};
      }
      bucket := Fresh(now);
      entries := entries[key := Entry(bucket, now)];
    }

    /** `iter().min_by_key(last_seen)`; among ties the choice is arbitrary. */
    method FindOldest() returns (oldest: string)
      requires entries != map[]
      ensures IsLeastRecent(entries, oldest)
    {
      var rest := entries.Keys;
      assert rest != {} by {
        assert entries.Keys != {};
      }
      oldest :| oldest in rest;
      rest := rest - {oldest};
      while rest != {}
        invariant oldest in entries && rest <= entries.Keys
        invariant forall k | k in entries && k !in rest :: entries[oldest].lastSeen <= entries[k].lastSeen
        decreases rest
      {
        var k :| k in rest;
        if entries[k].lastSeen < entries[oldest].lastSeen {
          oldest := k;
        }
        rest := rest - {k};
      }
    }

    /** A lookup and the check of the bucket found, at one instant. */
    method Request(q: Quota, key: string, now: nat) returns (ok: bool, ghost victim: string)
      modifies this
      ensures ok == Granted(q, old(entries), key, now)
      ensures Evicts(old(entries), key, now) ==> IsLeastRecent(Swept(old(entries), now), victim)
      ensures entries == Requested(q, old(entries), key, now, victim)
    {
      var bucket;
      bucket, victim := GetOrInsert(key, now);
      ok := Admits(q, bucket, now);
      entries := entries[key := entries[key].(bucket := Checked(q, bucket, now))];
    }
  }
}
