/** The bounded cache of positive token validations: `cache_lookup`, `cache_insert`, `drop_token`. */
module ValidationCache {
  import opened Text
  import opened Runs

  const MAX_CACHE_TTL: nat := 60 * SECOND
  const CACHE_CAP: nat := 256

  datatype Identity = Identity(userId: string, email: Option<string>, name: Option<string>, exp: Option<int>)

  datatype CacheEntry = CacheEntry(identity: Identity, expiresAt: nat)

  /** Entries by token hash; distinct tokens have distinct hashes. */
  type Entries = map<string, CacheEntry>

  /** The remaining lifetime of the token, from whole Unix seconds, but at most the maximum age. */
  function Ttl(exp: Option<int>, unixNow: int): nat {
    match exp
    case None => MAX_CACHE_TTL
    case Some(e) =>
      var remaining := if e - unixNow > 0 then (e - unixNow) * SECOND else 0;
      if remaining < MAX_CACHE_TTL then remaining else MAX_CACHE_TTL
  }

  function LookedUp(m: Entries, key: string, now: nat): Option<Identity> {
    if key in m && m[key].expiresAt > now then Some(m[key].identity) else None
  }

  function Swept(m: Entries, now: nat): (s: Entries)
    ensures s.Keys <= m.Keys
    ensures forall k | k in s :: s[k] == m[k]
    ensures forall k | k in m && k !in s :: m[k].expiresAt <= now
  {
    if |m| >= CACHE_CAP then map k | k in m && m[k].expiresAt > now :: m[k] else m
  }

  /** An entry is evicted when a new key finds the cache full of live entries. */
  predicate Evicts(m: Entries, key: string, now: nat) {
    |Swept(m, now)| >= CACHE_CAP && key !in Swept(m, now)
  }

  predicate IsNearestExpiry(m: Entries, victim: string) {
    victim in m && forall k | k in m :: m[victim].expiresAt <= m[k].expiresAt
  }

  function Inserted(m: Entries, key: string, entry: CacheEntry, now: nat, victim: string): Entries {
    var swept := Swept(m, now);
    (if Evicts(m, key, now) then swept - {victim} else swept)[key := entry]
  }

  lemma InsertedEntries(m: Entries, key: string, entry: CacheEntry, now: nat, victim: string)
    ensures var r := Inserted(m, key, entry, now, victim);
      && key in r && r[key] == entry
      && (forall k | k in r && k != key :: k in m && r[k] == m[k])
      && (forall k | k in m && k !in r :: m[k].expiresAt <= now || (Evicts(m, key, now) && k == victim))
  {
  }

  lemma InsertedStaysBounded(m: Entries, key: string, entry: CacheEntry, now: nat, victim: string)
    requires |m| <= CACHE_CAP
    requires Evicts(m, key, now) ==> IsNearestExpiry(Swept(m, now), victim)
    ensures |Inserted(m, key, entry, now, victim)| <= CACHE_CAP
  {
    var swept, r := Swept(m, now), Inserted(m, key, entry, now, victim);
    SubsetSize(swept.Keys, m.Keys);
    assert |r| == |r.Keys| && |m| == |m.Keys| && |swept| == |swept.Keys|;
    if Evicts(m, key, now) {
      assert r.Keys == swept.Keys - {victim} + {key};
    } else if key in swept {
      assert r.Keys == swept.Keys;
    } else {
      assert r.Keys == swept.Keys + {key};
    }
  }

  class Cache {
    var entries: Entries

    constructor ()
      ensures entries == map[]
    {
      entries := map[];
    }

    method Lookup(key: string, now: nat) returns (hit: Option<Identity>)
      ensures hit == LookedUp(entries, key, now)
    {
      if key in entries && entries[key].expiresAt > now {
        return Some(entries[key].identity);
      }
      return None;
    }

    /** The expiry is computed at `insertAt`, before the lock is taken; the sweep runs at `sweepAt`. */
    method Insert(key: string, identity: Identity, exp: Option<int>, insertAt: nat, sweepAt: nat, unixNow: int)
      returns (ghost victim: string)
      modifies this
      ensures Evicts(old(entries), key, sweepAt) ==> IsNearestExpiry(Swept(old(entries), sweepAt), victim)
      ensures entries ==
              Inserted(old(entries), key, CacheEntry(identity, insertAt + Ttl(exp, unixNow)), sweepAt, victim)
    {
      victim := key;
      var ttl := MAX_CACHE_TTL;
      if exp.Some? {
        var remaining := if exp.value - unixNow > 0 then (exp.value - unixNow) * SECOND else 0;
        ttl := if remaining < MAX_CACHE_TTL then remaining else MAX_CACHE_TTL;
      }
      var entry := CacheEntry(identity, insertAt + ttl);
      if |entries| >= CACHE_CAP {
        entries := map k | k in entries && entries[k].expiresAt > sweepAt :: entries[k];
      }
      assert entries == Swept(old(entries), sweepAt);
      if |entries| >= CACHE_CAP && key !in entries {
        var expiring := FindExpiring();
        victim := expiring;
        entries := entries - {expiring};
      }
      entries := entries[key := entry];
    }

    /** `iter().min_by_key(expires_at)`; among ties the choice is arbitrary. */
    method FindExpiring() returns (expiring: string)
      requires entries != map[]
      ensures IsNearestExpiry(entries, expiring)
    {
      var rest := entries.Keys;
      assert rest != {} by {
        assert entries.Keys != {};
      }
      expiring :| expiring in rest;
      rest := rest - {expiring};
      while rest != {}
        invariant expiring in entries && rest <= entries.Keys
        invariant forall k | k in entries && k !in rest :: entries[expiring].expiresAt <= entries[k].expiresAt
        decreases rest
      {
        var k :| k in rest;
        if entries[k].expiresAt < entries[expiring].expiresAt {
          expiring := k;
        }
        rest := rest - {k};
      }
    }

    method DropToken(key: string)
      modifies this
      ensures entries == old(entries) - {key}
    {
      entries := map k | k in entries && k != key :: entries[k];
    }
  }

  // ---- Runs

  /** A full validation that is cached, or a dropped token. */
  datatype Event =
    | Validated(key: string, identity: Identity, exp: Option<int>, insertAt: nat, at: nat, unixNow: int, victim: string)
    | Dropped(key: string, at: nat)

  function ExpiresAt(e: Event): nat
    requires e.Validated?
  {
    e.insertAt + Ttl(e.exp, e.unixNow)
  }

  /** Events happen in order, and an expiry is computed no later than its entry is inserted. */
  predicate WellTimed(run: seq<Event>, now: nat) {
    && (forall i, j :: 0 <= i < j < |run| ==> run[i].at <= run[j].at)
    && (forall i :: 0 <= i < |run| ==> run[i].at <= now && (run[i].Validated? ==> run[i].insertAt <= run[i].at))
  }

  function CacheAfter(run: seq<Event>): Entries {
    if run == [] then map[] else
      var m := CacheAfter(Before(run));
      match Latest(run)
      case Dropped(key, _) => m - {key}
      case Validated(key, identity, _, _, at, _, victim) =>
        Inserted(m, key, CacheEntry(identity, ExpiresAt(Latest(run))), at, victim)
  }

  predicate EvictsLast(run: seq<Event>)
    requires run != []
  {
    Latest(run).Validated? && Evicts(CacheAfter(Before(run)), Latest(run).key, Latest(run).at)
  }

  predicate Legal(run: seq<Event>) {
    run != [] ==>
      && Legal(Before(run))
      && (EvictsLast(run) ==> IsNearestExpiry(Swept(CacheAfter(Before(run)), Latest(run).at), Latest(run).victim))
  }

  predicate NeverEvicts(run: seq<Event>) {
    run != [] ==> NeverEvicts(Before(run)) && !EvictsLast(run)
  }

  /** The last full validation of a token that was not dropped since. */
  function LastValidation(run: seq<Event>, key: string): Option<Event> {
    if run == [] then None
    else if Latest(run).key != key then LastValidation(Before(run), key)
    else if Latest(run).Dropped? then None
    else Some(Latest(run))
  }

  /** What a cache without bound would answer: the last validation, until its lifetime runs out. */
  function Remembered(run: seq<Event>, key: string, now: nat): Option<Identity> {
    match LastValidation(run, key)
    case None => None
    case Some(e) => if e.Validated? && ExpiresAt(e) > now then Some(e.identity) else None
  }

  lemma {:induction false} LastValidationIsValidated(run: seq<Event>, key: string)
    ensures var e := LastValidation(run, key);
      e.Some? ==> e.value.Validated? && e.value.key == key && e.value in run
  {
    if run != [] {
      LastValidationIsValidated(Before(run), key);
    }
  }

  /** In every reachable state the cache is within its cap. */
  lemma {:induction false} CacheStaysBounded(run: seq<Event>)
    requires Legal(run)
    ensures |CacheAfter(run)| <= 256
  {
    if run != [] {
      CacheStaysBounded(Before(run));
      var m, e := CacheAfter(Before(run)), Latest(run);
      match e
      case Dropped(key, _) =>
        SubsetSize((m - {key}).Keys, m.Keys);
        assert |m| == |m.Keys| && |m - {key}| == |(m - {key}).Keys|;
      case Validated(key, identity, _, _, at, _, victim) =>
        InsertedStaysBounded(m, key, CacheEntry(identity, ExpiresAt(e)), at, victim);
    }
  }

  lemma {:induction false} EntriesAreLastValidations(run: seq<Event>, key: string)
    ensures key in CacheAfter(run) ==>
      var e := LastValidation(run, key);
      e.Some? && e.value.Validated? && CacheAfter(run)[key] == CacheEntry(e.value.identity, ExpiresAt(e.value))
  {
    if run != [] {
      EntriesAreLastValidations(Before(run), key);
      var m, e := CacheAfter(Before(run)), Latest(run);
      if e.Validated? {
        InsertedEntries(m, e.key, CacheEntry(e.identity, ExpiresAt(e)), e.at, e.victim);
      }
    }
  }

  /** The cache only forgets: a hit is the identity of the last validation that was not dropped, it
      is less than 60 seconds old, and the token's own lifetime has not run out. */
  lemma HitIsLastValidation(run: seq<Event>, key: string, now: nat)
    requires WellTimed(run, now)
    requires LookedUp(CacheAfter(run), key, now).Some?
    ensures var e := LastValidation(run, key);
      && e.Some? && e.value.Validated?
      && LookedUp(CacheAfter(run), key, now) == Some(e.value.identity)
      && e.value.insertAt <= now < e.value.insertAt + 60 * SECOND
      && (e.value.exp.Some? ==> now < e.value.insertAt + (e.value.exp.value - e.value.unixNow) * SECOND)
  {
    EntriesAreLastValidations(run, key);
    LastValidationIsValidated(run, key);
  }

  /** Whatever the bounded cache answers, an unbounded one answers too. */
  lemma HitsAreRemembered(run: seq<Event>, key: string, now: nat)
    requires LookedUp(CacheAfter(run), key, now).Some?
    ensures Remembered(run, key, now) == LookedUp(CacheAfter(run), key, now)
  {
    EntriesAreLastValidations(run, key);
  }

  lemma {:induction false} UnevictedEntriesStay(run: seq<Event>, key: string, now: nat)
    requires WellTimed(run, now) && NeverEvicts(run)
    requires Remembered(run, key, now).Some?
    ensures LookedUp(CacheAfter(run), key, now) == Remembered(run, key, now)
  {
    if run != [] {
      var m, e := CacheAfter(Before(run)), Latest(run);
      if e.key != key {
        UnevictedEntriesStay(Before(run), key, now);
      }
      if e.Validated? {
        InsertedEntries(m, e.key, CacheEntry(e.identity, ExpiresAt(e)), e.at, e.victim);
      }
    }
  }

  /** As long as no live entry is evicted, the bounded cache answers exactly like an unbounded one. */
  lemma SweepIsInvisible(run: seq<Event>, key: string, now: nat)
    requires WellTimed(run, now) && NeverEvicts(run)
    ensures LookedUp(CacheAfter(run), key, now) == Remembered(run, key, now)
  {
    if Remembered(run, key, now).Some? {
      UnevictedEntriesStay(run, key, now);
    } else if LookedUp(CacheAfter(run), key, now).Some? {
      HitsAreRemembered(run, key, now);
    }
  }

  /** The lifetime of an entry in numbers: 60 seconds, or the rest of the token's own lifetime if shorter. */
  predicate IsAlive(e: Event, now: nat)
    requires e.Validated?
  {
    && now < e.insertAt + 60_000_000_000
    && (e.exp.Some? ==> now < e.insertAt + (e.exp.value - e.unixNow) * 1_000_000_000)
  }

  /** As long as no live entry is evicted, a token hits exactly while the last validation of it that was not
      dropped is alive, and then with its identity. */
  lemma HitIff(run: seq<Event>, key: string, now: nat)
    requires WellTimed(run, now) && NeverEvicts(run)
    ensures var e := LastValidation(run, key);
      if e.Some? && e.value.Validated? && IsAlive(e.value, now)
      then LookedUp(CacheAfter(run), key, now) == Some(e.value.identity)
      else LookedUp(CacheAfter(run), key, now) == None
  {
    SweepIsInvisible(run, key, now);
    LastValidationIsValidated(run, key);
  }

  /** A live entry is evicted only for a new token that finds 256 live ones; a full cache keeps exactly the
      live ones. */
  lemma EvictsIff(m: Entries, key: string, now: nat)
    ensures Evicts(m, key, now) <==> |Swept(m, now)| >= 256 && key !in Swept(m, now)
    ensures |m| < 256 ==> Swept(m, now) == m
    ensures |m| >= 256 ==> forall k :: k in Swept(m, now) <==> k in m && now < m[k].expiresAt
  {
  }

  /** What an eviction takes is the entry that expires first. */
  lemma EvictsNearestExpiry(m: Entries, key: string, entry: CacheEntry, now: nat, victim: string, lost: string)
    requires Evicts(m, key, now) ==> IsNearestExpiry(Swept(m, now), victim)
    requires lost in m && lost !in Inserted(m, key, entry, now, victim)
    ensures var r := Inserted(m, key, entry, now, victim);
      m[lost].expiresAt <= now ||
      (Evicts(m, key, now) && forall k | k in r && k != key :: m[lost].expiresAt <= r[k].expiresAt)
  {
    InsertedEntries(m, key, entry, now, victim);
  }
}
