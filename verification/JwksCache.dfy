/** The JWKS cache object. Each method is one section under its lock; together they make up
    `decoding_key_for` and `refresh_jwks`.
 */
module JwksCache {
  import opened Text
  import opened Runs
  import opened JwksGate

  /** One key of a fetched set: its id if it has one, and the decoding key if it can be built. */
  datatype Jwk = Jwk(keyId: Option<string>, decoded: Option<Key>)

  predicate Usable(k: Jwk) {
    k.keyId.Some? && k.decoded.Some?
  }

  /** The last usable key of the set with this id. */
  function LastUsable(fetched: seq<Jwk>, kid: string): Option<Key> {
    if fetched == [] then None
    else
      var k := fetched[|fetched| - 1];
      if Usable(k) && k.keyId.value == kid then k.decoded else LastUsable(fetched[..|fetched| - 1], kid)
  }

  /** The entry at `i` decides `kid`: it has that id and can be decoded, and no later entry does. */
  predicate Decides(fetched: seq<Jwk>, kid: string, i: int) {
    && 0 <= i < |fetched|
    && fetched[i].keyId == Some(kid) && fetched[i].decoded.Some?
    && forall j | i < j < |fetched| :: fetched[j].keyId == Some(kid) ==> fetched[j].decoded.None?
  }

  /** A set answers an id with the decoded key of the last entry of that id that can be decoded,
      and with nothing when no entry of that id can be. */
  lemma {:induction false} LastUsableIff(fetched: seq<Jwk>, kid: string, key: Key)
    ensures LastUsable(fetched, kid) == Some(key) <==>
            exists i :: Decides(fetched, kid, i) && fetched[i].decoded == Some(key)
    ensures LastUsable(fetched, kid) == None <==>
            forall i | 0 <= i < |fetched| :: fetched[i].keyId == Some(kid) ==> fetched[i].decoded.None?
  {
    if fetched != [] {
      var last := |fetched| - 1;
      var front := fetched[..last];
      LastUsableIff(front, kid, key);
      if Usable(fetched[last]) && fetched[last].keyId.value == kid {
        assert Decides(fetched, kid, last);
      } else {
        forall i ensures Decides(fetched, kid, i) <==> Decides(front, kid, i) {
        }
      }
    }
  }

  method BuildKeys(fetched: seq<Jwk>) returns (keys: map<string, Key>)
    ensures forall kid :: kid in keys <==> LastUsable(fetched, kid).Some?
    ensures forall kid | kid in keys :: LastUsable(fetched, kid) == Some(keys[kid])
  {
    keys := map[];
    for i := 0 to |fetched|
      invariant forall kid :: kid in keys <==> LastUsable(fetched[..i], kid).Some?
      invariant forall kid | kid in keys :: LastUsable(fetched[..i], kid) == Some(keys[kid])
    {
      assert fetched[..i + 1][..i] == fetched[..i];
      if fetched[i].keyId.Some? && fetched[i].decoded.Some? {
        keys := keys[fetched[i].keyId.value := fetched[i].decoded.value];
      }
    }
    assert fetched[..|fetched|] == fetched;
  }

  datatype FetchError = FetchError

  class Cache {
    var keys: map<string, Key>
    var fetchedAt: Option<nat>
    var lastAttempt: Option<nat>

    function View(): Jwks
      reads this
    {
      Jwks(keys, fetchedAt, lastAttempt)
    }

    constructor ()
      ensures View() == NO_KEYS
    {
      keys, fetchedAt, lastAttempt := map[], None, None;
    }

    method Fresh(kid: string, now: nat) returns (key: Option<Key>)
      ensures key == FreshKey(View(), kid, now)
    {
      var isFresh := fetchedAt.Some? && now - fetchedAt.value < JWKS_TTL;
      if isFresh && kid in keys {
        return Some(keys[kid]);
      }
      return None;
    }

    method RecordAttempt(now: nat)
      modifies this
      ensures View() == old(View()).(lastAttempt := Some(now))
    {
      lastAttempt := Some(now);
    }

    method Install(newKeys: map<string, Key>, now: nat)
      modifies this
      ensures View() == old(View()).(keys := newKeys, fetchedAt := Some(now))
    {
      keys := newKeys;
      fetchedAt := Some(now);
    }

    /** One call of `decoding_key_for` that no other task interrupts; `response` is what the key
        server would answer, and the instants are those at which the clock is read. */
    method DecodingKeyFor(
      kid: string, lookAt: nat, recheckAt: nat, coolAt: nat, recordAt: nat, installAt: nat,
      response: Result<seq<Jwk>, FetchError>)
      returns (result: Result<Option<Key>, FetchError>)
      requires lookAt <= recheckAt <= coolAt <= recordAt <= installAt
      modifies this
      ensures
        if old(fetchedAt).Some? && lookAt - old(fetchedAt).value < 3600 * SECOND && kid in old(keys) then
          result == Ok(Some(old(keys)[kid])) && View() == old(View())
        else if old(lastAttempt).Some? && coolAt - old(lastAttempt).value < 5 * SECOND then
          result == Ok(if kid in old(keys) then Some(old(keys)[kid]) else None) && View() == old(View())
        else
          && lastAttempt == Some(recordAt)
          && (response.Err? ==>
                result.Err? && keys == old(keys) && fetchedAt == old(fetchedAt))
          && (response.Ok? ==>
                && result == Ok(LastUsable(response.value, kid))
                && fetchedAt == Some(installAt)
                && forall k :: KnownKey(View(), k) == LastUsable(response.value, k))
    {
      var key := Fresh(kid, lookAt);
      if key.Some? {
        return Ok(key);
      }
      key := Fresh(kid, recheckAt);
      if key.Some? {
        return Ok(key);
      }
      if lastAttempt.Some? && coolAt - lastAttempt.value < JWKS_MIN_REFRESH_INTERVAL {
        return Ok(if kid in keys then Some(keys[kid]) else None);
      }
      RecordAttempt(recordAt);
      if response.Err? {
        return Err(FetchError);
      }
      var newKeys := BuildKeys(response.value);
      Install(newKeys, installAt);
      return Ok(if kid in keys then Some(keys[kid]) else None);
    }
  }
}
