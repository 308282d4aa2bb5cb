/** The OAuth proxy: pending authorizations between `authorize` and `callback`, and the rewriting
    of the parameters that pass through.
 */
module OAuthProxy {
  import opened Text
  import opened Runs

  const PENDING_TTL: nat := 600 * SECOND
  const PENDING_CAP: nat := 2048
  const MAX_CLIENT_STATE_BYTES: nat := 4096

  type Pairs = seq<(string, string)>

  /** The parts of the configuration that decide; the allowlist, the URL parser and the test for an
      absolute URI are outside this model. */
  datatype Config = Config(
    callbackUrl: string,
    davAudience: string,
    audienceIsAbsolute: bool,
    allows: string -> bool,
    parses: string -> bool
  )

  datatype Pending = Pending(clientRedirectUri: string, clientState: Option<string>, created: nat)

  datatype Refusal =
    | MissingRedirectUri
    | UnregisteredRedirectUri
    | StateTooLarge
    | TooManyPending
    | MissingState
    | UnknownOrExpiredState
    | BadClientRedirectUri

  datatype Response =
    | Refused(why: Refusal)
    | ToAuthServer(parameters: Pairs)
    | ToClient(uri: string, added: Pairs)

  /** `iter().find(|(k, _)| k == name)`. */
  function FirstValue(pairs: Pairs, name: string): Option<string> {
    if pairs == [] then None
    else if pairs[0].0 == name then Some(pairs[0].1)
    else FirstValue(pairs[1..], name)
  }

  /** The value that a map collected from the pairs holds: later pairs win. */
  function LastValue(pairs: Pairs, name: string): Option<string> {
    if pairs == [] then None
    else if pairs[|pairs| - 1].0 == name then Some(pairs[|pairs| - 1].1)
    else LastValue(pairs[..|pairs| - 1], name)
  }

  predicate Mentions(pairs: Pairs, name: string) {
    exists i :: 0 <= i < |pairs| && pairs[i].0 == name
  }

  // ---- Rewriting parameters

  /** All values of `name` replaced. */
  function Replaced(pairs: Pairs, name: string, value: string): (r: Pairs)
    ensures |r| == |pairs|
    ensures forall i :: 0 <= i < |pairs| ==> r[i] == if pairs[i].0 == name then (name, value) else pairs[i]
  {
    seq(|pairs|, i requires 0 <= i < |pairs| => if pairs[i].0 == name then (name, value) else pairs[i])
  }

  /** All values of `name` replaced, and one added if there was none. */
  function Forced(pairs: Pairs, name: string, value: string): Pairs {
    if Mentions(pairs, name) then Replaced(pairs, name, value) else pairs + [(name, value)]
  }

  method ApplyDavResource(cfg: Config, before: Pairs) returns (pairs: Pairs)
    ensures pairs == if cfg.audienceIsAbsolute then Forced(before, "resource", cfg.davAudience) else before
  {
    pairs := before;
    if !cfg.audienceIsAbsolute {
      return;
    }
    var saw := false;
    for i := 0 to |pairs|
      invariant |pairs| == |before|
      invariant pairs[..i] == Replaced(before[..i], "resource", cfg.davAudience)
      invariant pairs[i..] == before[i..]
      invariant saw <==> Mentions(before[..i], "resource")
    {
      assert pairs[i] == pairs[i..][0] == before[i..][0] == before[i];
      assert before[..i + 1] == before[..i] + [before[i]];
      MentionsOneMore(before, i, "resource");
      if pairs[i].0 == "resource" {
        pairs := pairs[i := ("resource", cfg.davAudience)];
        saw := true;
      }
    }
    assert before[..|before|] == before && pairs[..|pairs|] == pairs;
    if !saw {
      assert Replaced(before, "resource", cfg.davAudience) == before;
      pairs := pairs + [("resource", cfg.davAudience)];
    }
  }

  lemma MentionsOneMore(pairs: Pairs, i: nat, name: string)
    requires i < |pairs|
    ensures Mentions(pairs[..i + 1], name) <==> Mentions(pairs[..i], name) || pairs[i].0 == name
  {
    var before, longer := pairs[..i], pairs[..i + 1];
    assert longer == before + [pairs[i]];
    if Mentions(before, name) {
      var k :| 0 <= k < |before| && before[k].0 == name;
      assert longer[k].0 == name;
    } else if pairs[i].0 == name {
      assert longer[i].0 == name;
    } else {
      forall k | 0 <= k < |longer| ensures longer[k].0 != name {
        assert k < i ==> longer[k] == before[k];
      }
    }
  }

  /** What `authorize` sends on: our callback, our state, our resource, everything else unchanged. */
  function Forwarded(cfg: Config, pairs: Pairs, proxyState: string): Pairs {
    var ours := Forced(Replaced(pairs, "redirect_uri", cfg.callbackUrl), "state", proxyState);
    if cfg.audienceIsAbsolute then Forced(ours, "resource", cfg.davAudience) else ours
  }

  method Forward(cfg: Config, before: Pairs, proxyState: string) returns (pairs: Pairs)
    ensures pairs == Forwarded(cfg, before, proxyState)
  {
    pairs := before;
    var sawState := false;
    for i := 0 to |pairs|
      invariant |pairs| == |before|
      invariant forall k :: 0 <= k < i ==>
        pairs[k] == Replaced(Replaced(before, "redirect_uri", cfg.callbackUrl), "state", proxyState)[k]
      invariant forall k :: i <= k < |pairs| ==> pairs[k] == before[k]
      invariant sawState <==> exists k :: 0 <= k < i && before[k].0 == "state"
    {
      if pairs[i].0 == "redirect_uri" {
        pairs := pairs[i := ("redirect_uri", cfg.callbackUrl)];
      } else if pairs[i].0 == "state" {
        pairs := pairs[i := ("state", proxyState)];
        sawState := true;
      }
    }
    var replaced := Replaced(before, "redirect_uri", cfg.callbackUrl);
    assert pairs == Replaced(replaced, "state", proxyState);
    assert Mentions(replaced, "state") <==> sawState by {
      if k :| 0 <= k < |before| && before[k].0 == "state" {
        assert replaced[k].0 == "state";
      }
    }
    if !sawState {
      assert pairs == replaced;
      pairs := pairs + [("state", proxyState)];
    }
    pairs := ApplyDavResource(cfg, pairs);
  }

  /** No redirect URI or state of the client reaches the authorization server, and no resource of it if
      our audience is absolute; ours do, the redirect URI in the place of the client's. Every other parameter
      passes through in place, and nothing is added but a missing state and a missing resource of ours. */
  lemma ForwardedParameters(cfg: Config, pairs: Pairs, proxyState: string)
    ensures var r := Forwarded(cfg, pairs, proxyState);
      && |r| == |pairs| + (if Mentions(pairs, "state") then 0 else 1)
                + (if Mentions(pairs, "resource") || !cfg.audienceIsAbsolute then 0 else 1)
      && (forall i :: 0 <= i < |r| ==>
            && (r[i].0 == "redirect_uri" ==> r[i].1 == cfg.callbackUrl)
            && (r[i].0 == "state" ==> r[i].1 == proxyState)
            && (r[i].0 == "resource" && cfg.audienceIsAbsolute ==> r[i].1 == cfg.davAudience))
      && Mentions(r, "state") && (cfg.audienceIsAbsolute ==> Mentions(r, "resource"))
      && (Mentions(pairs, "redirect_uri") ==> ("redirect_uri", cfg.callbackUrl) in r)
      && (forall i :: 0 <= i < |pairs| ==>
            && r[i].0 == pairs[i].0
            && (pairs[i].0 !in {"redirect_uri", "state", "resource"} ==> r[i] == pairs[i])
            && (pairs[i].0 == "resource" && !cfg.audienceIsAbsolute ==> r[i] == pairs[i]))
      && (forall i :: |pairs| <= i < |r| ==> r[i].0 == "state" || r[i].0 == "resource")
  {
    assert "state"[0] == 's' && "resource"[0] == 'r' && "redirect_uri"[2] == 'd' && "resource"[2] == 's';
    ThreeForced(cfg, pairs, proxyState, "redirect_uri", "state", "resource");
    if k :| 0 <= k < |pairs| && pairs[k].0 == "redirect_uri" {
      assert Forwarded(cfg, pairs, proxyState)[k] == ("redirect_uri", cfg.callbackUrl);
    }
  }

  lemma ThreeForced(cfg: Config, pairs: Pairs, proxyState: string, uri: string, state: string, resource: string)
    requires uri != state && uri != resource && state != resource
    ensures var ours := Forced(Replaced(pairs, uri, cfg.callbackUrl), state, proxyState);
      var r := if cfg.audienceIsAbsolute then Forced(ours, resource, cfg.davAudience) else ours;
      && |r| == |pairs| + (if Mentions(pairs, state) then 0 else 1)
                + (if Mentions(pairs, resource) || !cfg.audienceIsAbsolute then 0 else 1)
      && (forall i :: 0 <= i < |r| ==>
            && (r[i].0 == uri ==> r[i].1 == cfg.callbackUrl)
            && (r[i].0 == state ==> r[i].1 == proxyState)
            && (r[i].0 == resource && cfg.audienceIsAbsolute ==> r[i].1 == cfg.davAudience))
      && Mentions(r, state) && (cfg.audienceIsAbsolute ==> Mentions(r, resource))
      && (forall i :: 0 <= i < |pairs| ==>
            && r[i].0 == pairs[i].0
            && (pairs[i].0 !in {uri, state, resource} ==> r[i] == pairs[i])
            && (pairs[i].0 == resource && !cfg.audienceIsAbsolute ==> r[i] == pairs[i]))
      && (forall i :: |pairs| <= i < |r| ==> r[i].0 == state || r[i].0 == resource)
  {
    var replaced := Replaced(pairs, uri, cfg.callbackUrl);
    var ours := Forced(replaced, state, proxyState);
    SameNames(pairs, replaced, state);
    SameNames(pairs, replaced, resource);
    ForcedIs(replaced, state, proxyState);
    ForcedIs(ours, resource, cfg.davAudience);
    ForcedMentions(replaced, state, proxyState, resource);
    ForcedMentions(ours, resource, cfg.davAudience, state);
  }

  lemma SameNames(a: Pairs, b: Pairs, name: string)
    requires |a| == |b| && forall i :: 0 <= i < |a| ==> a[i].0 == b[i].0
    ensures Mentions(a, name) <==> Mentions(b, name)
  {
    if i :| 0 <= i < |a| && a[i].0 == name {
      assert b[i].0 == name;
    }
  }

  lemma ForcedIs(pairs: Pairs, name: string, value: string)
    ensures var r := Forced(pairs, name, value);
      && Mentions(r, name) && |r| == |pairs| + (if Mentions(pairs, name) then 0 else 1)
      && (forall i :: 0 <= i < |r| && r[i].0 == name ==> r[i].1 == value)
      && (forall i :: 0 <= i < |pairs| ==> r[i].0 == pairs[i].0 && (pairs[i].0 != name ==> r[i] == pairs[i]))
      && (forall i :: |pairs| <= i < |r| ==> r[i].0 == name)
  {
    var r := Forced(pairs, name, value);
    if Mentions(pairs, name) {
      SameNames(pairs, r, name);
    } else {
      assert r[|pairs|].0 == name;
    }
  }

  lemma ForcedMentions(pairs: Pairs, name: string, value: string, other: string)
    requires other != name
    ensures Mentions(Forced(pairs, name, value), other) <==> Mentions(pairs, other)
  {
    var r := Forced(pairs, name, value);
    if Mentions(pairs, name) {
      SameNames(pairs, r, other);
    } else {
      MentionsOneMore(r, |pairs|, other);
      assert r[..|pairs|] == pairs && r[..|pairs| + 1] == r;
    }
  }

  /** Some redirect URI in the form is not on the allowlist. */
  predicate HasUnregistered(cfg: Config, pairs: Pairs) {
    exists i :: 0 <= i < |pairs| && pairs[i].0 == "redirect_uri" && !cfg.allows(pairs[i].1)
  }

  /** The form that `token` relays: every redirect URI must be allowed and becomes our callback, and
      an authorization-code exchange must carry one. */
  method RewriteTokenForm(cfg: Config, before: Pairs) returns (result: Result<Pairs, Refusal>)
    ensures result == Err(UnregisteredRedirectUri) <==> HasUnregistered(cfg, before)
    ensures result == Err(MissingRedirectUri) <==>
            ("grant_type", "authorization_code") in before && !Mentions(before, "redirect_uri")
    ensures result.Err? ==> result.error in {UnregisteredRedirectUri, MissingRedirectUri}
    ensures result.Ok? ==>
      var ours := Replaced(before, "redirect_uri", cfg.callbackUrl);
      result.value == if cfg.audienceIsAbsolute then Forced(ours, "resource", cfg.davAudience) else ours
  {
    var pairs := before;
    var isAuthorizationCode := ("grant_type", "authorization_code") in pairs;
    var sawRedirectUri := false;
    for i := 0 to |pairs|
      invariant |pairs| == |before|
      invariant forall k :: 0 <= k < i ==> pairs[k] == Replaced(before, "redirect_uri", cfg.callbackUrl)[k]
      invariant forall k :: i <= k < |pairs| ==> pairs[k] == before[k]
      invariant forall k :: 0 <= k < i && before[k].0 == "redirect_uri" ==> cfg.allows(before[k].1)
      invariant sawRedirectUri <==> exists k :: 0 <= k < i && before[k].0 == "redirect_uri"
    {
      if pairs[i].0 == "redirect_uri" {
        if !cfg.allows(pairs[i].1) {
          return Err(UnregisteredRedirectUri);
        }
        sawRedirectUri := true;
        pairs := pairs[i := ("redirect_uri", cfg.callbackUrl)];
      }
    }
    assert pairs == Replaced(before, "redirect_uri", cfg.callbackUrl);
    pairs := ApplyDavResource(cfg, pairs);
    if isAuthorizationCode && !sawRedirectUri {
      return Err(MissingRedirectUri);
    }
    return Ok(pairs);
  }

  // ---- The pending store

  type Store = map<string, Pending>

  function Swept(m: Store, now: nat): (s: Store)
    ensures s.Keys <= m.Keys
    ensures forall k | k in s :: s[k] == m[k]
    ensures forall k | k in m && k !in s :: now - m[k].created >= PENDING_TTL
    ensures |m| >= PENDING_CAP ==> forall k | k in s :: now - s[k].created < PENDING_TTL
  {
    if |m| >= PENDING_CAP then map k | k in m && now - m[k].created < PENDING_TTL :: m[k] else m
  }

  predicate HasRoom(m: Store, now: nat) {
    |Swept(m, now)| < PENDING_CAP
  }

  /** Why a request is refused before anything is stored, if it is. */
  function Objection(cfg: Config, pairs: Pairs): Option<Refusal> {
    match FirstValue(pairs, "redirect_uri")
    case None => Some(MissingRedirectUri)
    case Some(uri) =>
      if !cfg.allows(uri) then Some(UnregisteredRedirectUri)
      else match FirstValue(pairs, "state")
        case Some(state) => if ByteLen(state) > MAX_CLIENT_STATE_BYTES then Some(StateTooLarge) else None
        case None => None
  }

  function PendingFor(pairs: Pairs, now: nat): Pending {
    Pending(match FirstValue(pairs, "redirect_uri") case Some(uri) => uri case None => "",
            FirstValue(pairs, "state"), now)
  }

  /** The parameters that `callback` adds to the client's URI. */
  function Handed(pairs: Pairs, clientState: Option<string>): Pairs {
    Given("code", LastValue(pairs, "code")) + Given("error", LastValue(pairs, "error"))
    + Given("error_description", LastValue(pairs, "error_description")) + Given("state", clientState)
  }

  function Given(name: string, value: Option<string>): Pairs {
    match value
    case Some(v) => [(name, v)]
    case None => []
  }

  function AuthorizeResponse(cfg: Config, m: Store, pairs: Pairs, proxyState: string, now: nat): Response {
    match Objection(cfg, pairs)
    case Some(why) => Refused(why)
    case None => if HasRoom(m, now) then ToAuthServer(Forwarded(cfg, pairs, proxyState)) else Refused(TooManyPending)
  }

  function AfterAuthorize(cfg: Config, m: Store, pairs: Pairs, proxyState: string, now: nat): Store {
    if Objection(cfg, pairs).Some? then m
    else if HasRoom(m, now) then Swept(m, now)[proxyState := PendingFor(pairs, now)]
    else Swept(m, now)
  }

  function CallbackResponse(cfg: Config, m: Store, pairs: Pairs, now: nat): Response {
    match LastValue(pairs, "state")
    case None => Refused(MissingState)
    case Some(state) =>
      if state !in m || now - m[state].created >= PENDING_TTL then Refused(UnknownOrExpiredState)
      else if !cfg.parses(m[state].clientRedirectUri) then Refused(BadClientRedirectUri)
      else ToClient(m[state].clientRedirectUri, Handed(pairs, m[state].clientState))
  }

  function AfterCallback(m: Store, pairs: Pairs): Store {
    match LastValue(pairs, "state")
    case None => m
    case Some(state) => m - {state}
  }

  class Proxy {
    const cfg: Config
    var pending: Store

    constructor (config: Config)
      ensures cfg == config && pending == map[]
    {
      cfg := config;
      pending := map[];
    }

    method Insert(state: string, p: Pending, now: nat) returns (stored: bool)
      modifies this
      ensures stored == HasRoom(old(pending), now)
      ensures pending == if stored then Swept(old(pending), now)[state := p] else Swept(old(pending), now)
    {
      if |pending| >= PENDING_CAP {
        pending := map k | k in pending && now - pending[k].created < PENDING_TTL :: pending[k];
      }
      if |pending| >= PENDING_CAP {
        return false;
      }
      pending := pending[state := p];
      return true;
    }

    method Take(state: string, now: nat) returns (taken: Option<Pending>)
      modifies this
      ensures pending == old(pending) - {state}
      ensures taken == if state in old(pending) && now - old(pending)[state].created < PENDING_TTL
                       then Some(old(pending)[state]) else None
    {
      if state !in pending {
        assert pending == pending - {state};
        return None;
      }
      var p := pending[state];
      pending := map k | k in pending && k != state :: pending[k];
      if now - p.created >= PENDING_TTL {
        return None;
      }
      return Some(p);
    }

    method Authorize(pairs: Pairs, proxyState: string, now: nat) returns (response: Response)
      modifies this
      ensures response == AuthorizeResponse(cfg, old(pending), pairs, proxyState, now)
      ensures pending == AfterAuthorize(cfg, old(pending), pairs, proxyState, now)
    {
      var uri := FirstValue(pairs, "redirect_uri");
      if uri.None? {
        return Refused(MissingRedirectUri);
      }
      if !cfg.allows(uri.value) {
        return Refused(UnregisteredRedirectUri);
      }
      var clientState := FirstValue(pairs, "state");
      if clientState.Some? && ByteLen(clientState.value) > MAX_CLIENT_STATE_BYTES {
        return Refused(StateTooLarge);
      }
      var stored := Insert(proxyState, Pending(uri.value, clientState, now), now);
      if !stored {
        return Refused(TooManyPending);
      }
      var parameters := Forward(cfg, pairs, proxyState);
      return ToAuthServer(parameters);
    }

    method Callback(pairs: Pairs, now: nat) returns (response: Response)
      modifies this
      ensures response == CallbackResponse(cfg, old(pending), pairs, now)
      ensures pending == AfterCallback(old(pending), pairs)
    {
      var state := LastValue(pairs, "state");
      if state.None? {
        return Refused(MissingState);
      }
      var taken := Take(state.value, now);
      if taken.None? {
        return Refused(UnknownOrExpiredState);
      }
      var uri := taken.value.clientRedirectUri;
      if !cfg.parses(uri) {
        return Refused(BadClientRedirectUri);
      }
      var added: Pairs := [];
      added := added + Given("code", LastValue(pairs, "code"));
      added := added + Given("error", LastValue(pairs, "error"));
      added := added + Given("error_description", LastValue(pairs, "error_description"));
      added := added + Given("state", taken.value.clientState);
      return ToClient(uri, added);
    }
  }
}
