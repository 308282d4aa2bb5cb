/** Runs of authorize and callback requests against the pending store. */
module OAuthRuns {
  import opened Text
  import opened Runs
  import opened OAuthProxy
  import opened OAuthOutcomes

  datatype Event =
    | Authorize(pairs: Pairs, proxyState: string, now: nat)
    | Callback(pairs: Pairs, now: nat)

  function StoreAfter(cfg: Config, run: seq<Event>): Store {
    if run == [] then map[] else
      match Latest(run)
      case Authorize(pairs, proxyState, now) =>
        AfterAuthorize(cfg, StoreAfter(cfg, Before(run)), pairs, proxyState, now)
      case Callback(pairs, now) => AfterCallback(StoreAfter(cfg, Before(run)), pairs)
  }

  /** The response to the last request of a run. */
  function Respond(cfg: Config, run: seq<Event>): Response
    requires run != []
  {
    match Latest(run)
    case Authorize(pairs, proxyState, now) =>
      AuthorizeResponse(cfg, StoreAfter(cfg, Before(run)), pairs, proxyState, now)
    case Callback(pairs, now) => CallbackResponse(cfg, StoreAfter(cfg, Before(run)), pairs, now)
  }

  predicate WellTimed(run: seq<Event>) {
    forall i, j :: 0 <= i < j < |run| ==> run[i].now <= run[j].now
  }

  /** Proxy states are drawn at random from 192 bits: no two requests draw the same. */
  predicate FreshStates(run: seq<Event>) {
    forall i, j :: 0 <= i < j < |run| && run[i].Authorize? && run[j].Authorize? ==>
      run[i].proxyState != run[j].proxyState
  }

  /** Request `i` is an accepted authorization that was issued this state. */
  predicate Issued(cfg: Config, run: seq<Event>, i: nat, state: string)
    requires i < |run|
  {
    run[i].Authorize? && run[i].proxyState == state && Respond(cfg, run[..i + 1]).ToAuthServer?
  }

  predicate Presents(e: Event, state: string) {
    e.Callback? && LastValue(e.pairs, "state") == Some(state)
  }

  /** Issued at `i`, and no callback has presented the state since. */
  predicate Unconsumed(cfg: Config, run: seq<Event>, i: nat, state: string) {
    i < |run| && Issued(cfg, run, i, state) && NotPresentedSince(run, i, state)
  }

  predicate NotPresentedSince(run: seq<Event>, i: nat, state: string) {
    forall j :: i < j < |run| ==> !Presents(run[j], state)
  }

  lemma NotPresentedBefore(run: seq<Event>, i: nat, state: string)
    requires run != [] && i < |run| - 1
    ensures NotPresentedSince(run, i, state) <==>
            NotPresentedSince(Before(run), i, state) && !Presents(Latest(run), state)
  {
    var shorter := Before(run);
    if NotPresentedSince(shorter, i, state) && !Presents(Latest(run), state) {
      forall j | i < j < |run| ensures !Presents(run[j], state) {
        if j < |shorter| {
          assert !Presents(shorter[j], state);
        }
      }
    }
    if NotPresentedSince(run, i, state) {
      forall j | i < j < |shorter| ensures !Presents(shorter[j], state) {
        assert !Presents(run[j], state);
      }
    }
  }

  lemma IssuedBefore(cfg: Config, run: seq<Event>, i: nat, state: string)
    requires run != [] && i < |run| - 1
    ensures Issued(cfg, run, i, state) <==> Issued(cfg, Before(run), i, state)
  {
    assert Before(run)[..i + 1] == run[..i + 1];
  }

  lemma UnconsumedBefore(cfg: Config, run: seq<Event>, i: nat, state: string)
    requires run != [] && i < |run| - 1
    ensures Unconsumed(cfg, run, i, state) <==> Unconsumed(cfg, Before(run), i, state) && !Presents(Latest(run), state)
  {
    IssuedBefore(cfg, run, i, state);
    NotPresentedBefore(run, i, state);
  }

  /** Only the last request can have been issued its state at its own position. */
  lemma IssuedLast(cfg: Config, run: seq<Event>, state: string)
    requires run != []
    ensures Unconsumed(cfg, run, |run| - 1, state) <==>
            Latest(run).Authorize? && Latest(run).proxyState == state && Respond(cfg, run).ToAuthServer?
  {
    assert run[..|run| - 1 + 1] == run;
  }

  /** The store holds the pending data of unconsumed authorizations only. */
  ghost predicate Sound(cfg: Config, run: seq<Event>, state: string) {
    state in StoreAfter(cfg, run) ==>
      exists i: nat :: Unconsumed(cfg, run, i, state) &&
                       StoreAfter(cfg, run)[state] == PendingFor(run[i].pairs, run[i].now)
  }

  /** No unconsumed authorization that is less than 600 seconds old is missing from the store. */
  ghost predicate Complete(cfg: Config, run: seq<Event>, state: string, now: nat) {
    forall i: nat :: Unconsumed(cfg, run, i, state) && now - run[i].now < PENDING_TTL ==>
      state in StoreAfter(cfg, run) && StoreAfter(cfg, run)[state] == PendingFor(run[i].pairs, run[i].now)
  }

  lemma {:induction false} StoreIsSound(cfg: Config, run: seq<Event>, state: string)
    ensures Sound(cfg, run, state)
  {
    if run != [] && state in StoreAfter(cfg, run) {
      StoreIsSound(cfg, Before(run), state);
      IssuedLast(cfg, run, state);
      var m, last := StoreAfter(cfg, Before(run)), Latest(run);
      if last.Authorize? && last.proxyState == state && Respond(cfg, run).ToAuthServer? {
        assert Unconsumed(cfg, run, |run| - 1, state);
      } else {
        assert state in m && StoreAfter(cfg, run)[state] == m[state];
        var i: nat :| Unconsumed(cfg, Before(run), i, state) &&
          m[state] == PendingFor(Before(run)[i].pairs, Before(run)[i].now);
        UnconsumedBefore(cfg, run, i, state);
      }
    }
  }

  lemma {:induction false} StoreIsComplete(cfg: Config, run: seq<Event>, state: string, now: nat)
    requires WellTimed(run) && FreshStates(run)
    requires run != [] ==> Latest(run).now <= now
    ensures Complete(cfg, run, state, now)
  {
    if run != [] {
      StoreIsComplete(cfg, Before(run), state, now);
      forall i: nat | Unconsumed(cfg, run, i, state) && now - run[i].now < PENDING_TTL
        ensures state in StoreAfter(cfg, run)
        ensures StoreAfter(cfg, run)[state] == PendingFor(run[i].pairs, run[i].now)
      {
        if i == |run| - 1 {
          IssuedLast(cfg, run, state);
        } else {
          UnconsumedBefore(cfg, run, i, state);
          StoredStays(cfg, run, i, state, now);
        }
      }
    }
  }

  /** One request does not lose a live entry of another authorization. */
  lemma StoredStays(cfg: Config, run: seq<Event>, i: nat, state: string, now: nat)
    requires FreshStates(run) && run != [] && i < |run| - 1
    requires Latest(run).now <= now && now - run[i].now < PENDING_TTL
    requires run[i].Authorize? && run[i].proxyState == state && !Presents(Latest(run), state)
    requires state in StoreAfter(cfg, Before(run))
    requires StoreAfter(cfg, Before(run))[state] == PendingFor(run[i].pairs, run[i].now)
    ensures state in StoreAfter(cfg, run)
    ensures StoreAfter(cfg, run)[state] == StoreAfter(cfg, Before(run))[state]
  {
  }

  /** A callback redirects exactly when its state was issued by an accepted authorization less than
      600 seconds ago that no earlier callback has consumed, and the stored URI can be parsed. */
  lemma CallbackSucceedsIff(cfg: Config, run: seq<Event>, state: string)
    requires run != [] && WellTimed(run) && FreshStates(run)
    requires Latest(run).Callback? && LastValue(Latest(run).pairs, "state") == Some(state)
    ensures Respond(cfg, run).ToClient? <==>
            exists i: nat :: Unconsumed(cfg, Before(run), i, state)
                             && Latest(run).now - Before(run)[i].now < 600 * SECOND
                             && cfg.parses(PendingFor(Before(run)[i].pairs, Before(run)[i].now).clientRedirectUri)
  {
    StoreIsSound(cfg, Before(run), state);
    StoreIsComplete(cfg, Before(run), state, Latest(run).now);
  }

  /** It then goes to the first redirect URI of that authorization, which is on the allowlist, and
      hands back that client's own state, or none if it sent none. */
  lemma CallbackReturnsToItsClient(cfg: Config, run: seq<Event>, state: string, i: nat)
    requires run != [] && WellTimed(run) && FreshStates(run)
    requires Latest(run).Callback? && LastValue(Latest(run).pairs, "state") == Some(state)
    requires Respond(cfg, run).ToClient? && i < |run| - 1
    requires run[i].Authorize? && run[i].proxyState == state
    ensures var r := Respond(cfg, run);
      && FirstValue(run[i].pairs, "redirect_uri") == Some(r.uri) && cfg.allows(r.uri)
      && LastValue(r.added, "code") == LastValue(Latest(run).pairs, "code")
      && LastValue(r.added, "error") == LastValue(Latest(run).pairs, "error")
      && LastValue(r.added, "error_description") == LastValue(Latest(run).pairs, "error_description")
      && LastValue(r.added, "state") == FirstValue(run[i].pairs, "state")
      && r.added == Handed(Latest(run).pairs, FirstValue(run[i].pairs, "state"))
  {
    HandedOn(Latest(run).pairs, FirstValue(run[i].pairs, "state"));
    var m, now := StoreAfter(cfg, Before(run)), Latest(run).now;
    assert state in m && Respond(cfg, run) == CallbackResponse(cfg, m, Latest(run).pairs, now);
    StoredByItsAuthorization(cfg, Before(run), state, i);
  }

  /** A stored entry comes from the one authorization that drew its state, and that was acceptable. */
  lemma StoredByItsAuthorization(cfg: Config, run: seq<Event>, state: string, i: nat)
    requires FreshStates(run) && state in StoreAfter(cfg, run)
    requires i < |run| && run[i].Authorize? && run[i].proxyState == state
    ensures StoreAfter(cfg, run)[state] == PendingFor(run[i].pairs, run[i].now)
    ensures Objection(cfg, run[i].pairs).None?
  {
    StoreIsSound(cfg, run, state);
    var k: nat :| Unconsumed(cfg, run, k, state) && StoreAfter(cfg, run)[state] == PendingFor(run[k].pairs, run[k].now);
    assert k == i;
    IssuedIsAcceptable(cfg, run, i, state);
  }

  lemma IssuedIsAcceptable(cfg: Config, run: seq<Event>, i: nat, state: string)
    requires i < |run| && Issued(cfg, run, i, state)
    ensures Objection(cfg, run[i].pairs).None?
  {
    assert Latest(run[..i + 1]) == run[i];
  }

  /** The allowlist holds only URIs that parse, because it parses a URI before it allows it. */
  ghost predicate AllowsOnlyParsed(cfg: Config) {
    forall uri :: cfg.allows(uri) ==> cfg.parses(uri)
  }

  /** Then a stored redirect URI always parses, and a callback redirects exactly when its state was issued
      by an accepted authorization less than 600 seconds ago that no earlier callback has consumed. */
  lemma LiveCallbackSucceeds(cfg: Config, run: seq<Event>, state: string)
    requires AllowsOnlyParsed(cfg)
    requires run != [] && WellTimed(run) && FreshStates(run)
    requires Latest(run).Callback? && LastValue(Latest(run).pairs, "state") == Some(state)
    ensures Respond(cfg, run).ToClient? <==> IsLive(cfg, Before(run), state, Latest(run).now)
    ensures Respond(cfg, run) != Refused(BadClientRedirectUri)
  {
    var front, now := Before(run), Latest(run).now;
    StoreIsSound(cfg, front, state);
    StoreIsComplete(cfg, front, state, now);
    if state in StoreAfter(cfg, front) {
      var i: nat :| Unconsumed(cfg, front, i, state) &&
        StoreAfter(cfg, front)[state] == PendingFor(front[i].pairs, front[i].now);
      IssuedParses(cfg, front, i, state);
    }
  }

  lemma IssuedParses(cfg: Config, run: seq<Event>, i: nat, state: string)
    requires AllowsOnlyParsed(cfg) && i < |run| && Issued(cfg, run, i, state)
    ensures cfg.parses(PendingFor(run[i].pairs, run[i].now).clientRedirectUri)
  {
    IssuedIsAcceptable(cfg, run, i, state);
  }

  /** An accepted authorization after position `j` was issued this state. */
  ghost predicate IssuedSince(cfg: Config, run: seq<Event>, j: nat, state: string) {
    exists i: nat :: j < i < |run| && Issued(cfg, run, i, state)
  }

  lemma UnconsumedIsLater(cfg: Config, run: seq<Event>, i: nat, j: nat, state: string)
    requires i < |run| && j < |run| && Presents(run[j], state)
    ensures Unconsumed(cfg, run, i, state) ==> j < i
  {
  }

  lemma StoredIsIssuedSince(cfg: Config, run: seq<Event>, state: string, j: nat)
    requires j < |run| && Presents(run[j], state) && state in StoreAfter(cfg, run)
    ensures IssuedSince(cfg, run, j, state)
  {
    StoreIsSound(cfg, run, state);
    var i: nat :| Unconsumed(cfg, run, i, state) && StoreAfter(cfg, run)[state] == PendingFor(run[i].pairs, run[i].now);
    UnconsumedIsLater(cfg, run, i, j, state);
  }

  lemma FreshIsNotReissued(cfg: Config, run: seq<Event>, state: string, i: nat, j: nat)
    requires FreshStates(run) && i < j < |run|
    requires run[i].Authorize? && run[i].proxyState == state
    ensures !IssuedSince(cfg, run, j, state)
  {
  }

  /** A state works once: whatever a callback answered, the same state is refused from then on, unless it
      is issued anew; and with fresh states, one that was drawn before that callback never is. */
  lemma StateIsConsumed(cfg: Config, run: seq<Event>, state: string, j: nat)
    requires run != [] && FreshStates(run)
    requires Latest(run).Callback? && LastValue(Latest(run).pairs, "state") == Some(state)
    requires j < |run| - 1 && Presents(run[j], state)
    ensures Respond(cfg, run) == Refused(UnknownOrExpiredState) || IssuedSince(cfg, Before(run), j, state)
    ensures (exists i :: 0 <= i < j && run[i].Authorize? && run[i].proxyState == state) ==>
      Respond(cfg, run) == Refused(UnknownOrExpiredState)
  {
    var front := Before(run);
    if i :| 0 <= i < j && run[i].Authorize? && run[i].proxyState == state {
      assert front[i] == run[i];
      FreshIsNotReissued(cfg, front, state, i, j);
    }
    if state in StoreAfter(cfg, front) {
      StoredIsIssuedSince(cfg, front, state, j);
    }
  }

  // ---- The cap

  /** The store never exceeds its cap. */
  lemma {:induction false} StoreStaysBounded(cfg: Config, run: seq<Event>)
    ensures |StoreAfter(cfg, run)| <= 2048
  {
    if run != [] {
      StoreStaysBounded(cfg, Before(run));
      var m, e := StoreAfter(cfg, Before(run)), Latest(run);
      match e
      case Callback(pairs, _) => SubmapSize(AfterCallback(m, pairs), m);
      case Authorize(_, proxyState, now) =>
        var swept := Swept(m, now);
        SubmapSize(swept, m);
        assert swept[proxyState := PendingFor(e.pairs, now)].Keys == swept.Keys + {proxyState};
        assert |swept| == |swept.Keys|;
    }
  }

  lemma KeptAreLive(cfg: Config, run: seq<Event>, now: nat)
    requires |StoreAfter(cfg, run)| >= PENDING_CAP
    ensures AllLive(cfg, run, Swept(StoreAfter(cfg, run), now).Keys, now)
  {
    var m := StoreAfter(cfg, run);
    forall state | state in Swept(m, now) ensures IsLive(cfg, run, state, now) {
      StoreIsSound(cfg, run, state);
      var i: nat :| Unconsumed(cfg, run, i, state) && m[state] == PendingFor(run[i].pairs, run[i].now);
      assert now - run[i].now < PENDING_TTL;
    }
  }

  lemma LiveAreKept(cfg: Config, run: seq<Event>, live: set<string>, now: nat)
    requires WellTimed(run) && FreshStates(run) && (run != [] ==> Latest(run).now <= now)
    requires AllLive(cfg, run, live, now)
    ensures live <= Swept(StoreAfter(cfg, run), now).Keys
  {
    forall state | state in live ensures state in Swept(StoreAfter(cfg, run), now) {
      assert IsLive(cfg, run, state, now);
      StoreIsComplete(cfg, run, state, now);
    }
  }

  lemma RoomIff(cfg: Config, run: seq<Event>, now: nat)
    requires WellTimed(run) && FreshStates(run) && (run != [] ==> Latest(run).now <= now)
    ensures !HasRoom(StoreAfter(cfg, run), now) <==>
            exists live: set<string> :: |live| >= PENDING_CAP && AllLive(cfg, run, live, now)
  {
    var m := StoreAfter(cfg, run);
    var kept := Swept(m, now).Keys;
    assert |kept| == |Swept(m, now)|;
    if !HasRoom(m, now) {
      SubmapSize(Swept(m, now), m);
      KeptAreLive(cfg, run, now);
    }
    if live: set<string> :| |live| >= PENDING_CAP && AllLive(cfg, run, live, now) {
      LiveAreKept(cfg, run, live, now);
      SubsetSize(live, kept);
    }
  }

  /** An acceptable authorization is refused for lack of room exactly when 2048 others are live, so
      neither the sweep nor the cap ever loses a live one. */
  lemma RefusedIffFull(cfg: Config, run: seq<Event>)
    requires run != [] && WellTimed(run) && FreshStates(run)
    requires Latest(run).Authorize? && Objection(cfg, Latest(run).pairs).None?
    ensures Respond(cfg, run) == Refused(TooManyPending) <==>
            exists live: set<string> :: |live| >= 2048 && AllLive(cfg, Before(run), live, Latest(run).now)
  {
    RoomIff(cfg, Before(run), Latest(run).now);
  }

  ghost predicate IsLive(cfg: Config, run: seq<Event>, state: string, now: nat) {
    exists i: nat :: Unconsumed(cfg, run, i, state) && now - run[i].now < 600 * SECOND
  }

  ghost predicate AllLive(cfg: Config, run: seq<Event>, live: set<string>, now: nat) {
    forall state | state in live :: IsLive(cfg, run, state, now)
  }
}
