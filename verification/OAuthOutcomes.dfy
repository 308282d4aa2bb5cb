/** What the OAuth proxy answers, and what it hands on. */
module OAuthOutcomes {
  import opened Text
  import opened OAuthProxy

  lemma {:induction false} FirstValueIff(pairs: Pairs, name: string)
    ensures FirstValue(pairs, name).None? <==> !Mentions(pairs, name)
    ensures FirstValue(pairs, name).Some? ==>
      exists i :: 0 <= i < |pairs| && pairs[i] == (name, FirstValue(pairs, name).value) && !Mentions(pairs[..i], name)
  {
    if pairs != [] && pairs[0].0 != name {
      FirstValueIff(pairs[1..], name);
      MentionsBehindFirst(pairs, name);
      if FirstValue(pairs, name).Some? {
        var i :| 0 <= i < |pairs| - 1 && pairs[1..][i] == (name, FirstValue(pairs, name).value) &&
          !Mentions(pairs[1..][..i], name);
        assert pairs[..i + 1][1..] == pairs[1..][..i];
        MentionsBehindFirst(pairs[..i + 1], name);
        assert pairs[i + 1] == (name, FirstValue(pairs, name).value);
      }
    } else if pairs != [] {
      assert pairs[..0] == [] && pairs[0] == (name, FirstValue(pairs, name).value);
    }
  }

  lemma MentionsBehindFirst(pairs: Pairs, name: string)
    requires pairs != [] && pairs[0].0 != name
    ensures Mentions(pairs, name) <==> Mentions(pairs[1..], name)
  {
    if i :| 0 <= i < |pairs| && pairs[i].0 == name {
      assert pairs[1..][i - 1].0 == name;
    }
    if i :| 0 <= i < |pairs| - 1 && pairs[1..][i].0 == name {
      assert pairs[i + 1].0 == name;
    }
  }

  lemma {:induction false} LastValueIff(pairs: Pairs, name: string)
    ensures LastValue(pairs, name).None? <==> !Mentions(pairs, name)
    ensures LastValue(pairs, name).Some? ==>
      exists i :: 0 <= i < |pairs| && pairs[i] == (name, LastValue(pairs, name).value) &&
                  !Mentions(pairs[i + 1..], name)
  {
    if pairs != [] {
      var n, front := |pairs| - 1, pairs[..|pairs| - 1];
      if pairs[n].0 == name {
        assert pairs[n + 1..] == [] && pairs[n] == (name, LastValue(pairs, name).value);
      } else {
        LastValueIff(front, name);
        MentionsBeforeLast(pairs, name);
        if LastValue(pairs, name).Some? {
          var i :| 0 <= i < n && front[i] == (name, LastValue(pairs, name).value) && !Mentions(front[i + 1..], name);
          assert pairs[i + 1..][..|pairs[i + 1..]| - 1] == front[i + 1..];
          MentionsBeforeLast(pairs[i + 1..], name);
          assert pairs[i] == (name, LastValue(pairs, name).value);
        }
      }
    }
  }

  lemma MentionsBeforeLast(pairs: Pairs, name: string)
    requires pairs != [] && pairs[|pairs| - 1].0 != name
    ensures Mentions(pairs, name) <==> Mentions(pairs[..|pairs| - 1], name)
  {
    if i :| 0 <= i < |pairs| && pairs[i].0 == name {
      assert pairs[..|pairs| - 1][i].0 == name;
    }
    var front := pairs[..|pairs| - 1];
    if i :| 0 <= i < |front| && front[i].0 == name {
      assert pairs[i].0 == name;
    }
  }

  /** What a callback hands on to the client: the authorization server's code, error and description under
      their own names, and the client's own state, each at most once and nothing else. */
  lemma HandedOn(pairs: Pairs, clientState: Option<string>)
    ensures var r := Handed(pairs, clientState);
      && FirstValue(r, "code") == LastValue(r, "code") == LastValue(pairs, "code")
      && FirstValue(r, "error") == LastValue(r, "error") == LastValue(pairs, "error")
      && FirstValue(r, "error_description") == LastValue(r, "error_description")
      && LastValue(r, "error_description") == LastValue(pairs, "error_description")
      && FirstValue(r, "state") == LastValue(r, "state") == clientState
      && forall i :: 0 <= i < |r| ==> r[i].0 in {"code", "error", "error_description", "state"}
  {
    var k, l, m, n := "code", "error", "error_description", "state";
    var v, w, x := LastValue(pairs, k), LastValue(pairs, l), LastValue(pairs, m);
    Distinct(k, l, m, n);
    FourGiven(k, l, m, n, v, w, x, clientState, k);
    FourGiven(k, l, m, n, v, w, x, clientState, l);
    FourGiven(k, l, m, n, v, w, x, clientState, m);
    FourGiven(k, l, m, n, v, w, x, clientState, n);
    FourNames(k, l, m, n, v, w, x, clientState);
  }

  lemma Distinct(k: string, l: string, m: string, n: string)
    requires k == "code" && l == "error" && m == "error_description" && n == "state"
    ensures k != l && k != m && k != n && l != m && l != n && m != n
  {
    assert k[0] == 'c' && l[0] == 'e' && m[0] == 'e' && n[0] == 's' && |l| == 5 && |m| == 17;
  }

  lemma FourNames(k: string, l: string, m: string, n: string,
                  v: Option<string>, w: Option<string>, x: Option<string>, y: Option<string>)
    ensures var r := Given(k, v) + Given(l, w) + Given(m, x) + Given(n, y);
      forall i :: 0 <= i < |r| ==> r[i].0 in {k, l, m, n}
  {
  }

  lemma FourGiven(k: string, l: string, m: string, n: string,
                  v: Option<string>, w: Option<string>, x: Option<string>, y: Option<string>, name: string)
    requires k != l && k != m && k != n && l != m && l != n && m != n
    requires name == k || name == l || name == m || name == n
    ensures var r := Given(k, v) + Given(l, w) + Given(m, x) + Given(n, y);
      FirstValue(r, name) == LastValue(r, name) ==
      if name == k then v else if name == l then w else if name == m then x else y
  {
    var value := if name == k then v else if name == l then w else if name == m then x else y;
    assert FirstValue(Given(k, v) + (Given(l, w) + (Given(m, x) + Given(n, y))), name) == value by {
      FirstOfGiven(k, v, Given(l, w) + (Given(m, x) + Given(n, y)), name);
      FirstOfGiven(l, w, Given(m, x) + Given(n, y), name);
      FirstOfGiven(m, x, Given(n, y), name);
      OneGiven(n, y, name);
    }
    assert LastValue(Given(k, v) + Given(l, w) + Given(m, x) + Given(n, y), name) == value by {
      LastOfGiven(Given(k, v) + Given(l, w) + Given(m, x), n, y, name);
      LastOfGiven(Given(k, v) + Given(l, w), m, x, name);
      LastOfGiven(Given(k, v), l, w, name);
      OneGiven(k, v, name);
    }
    FourInTurn(Given(k, v), Given(l, w), Given(m, x), Given(n, y));
  }

  lemma FourInTurn(a: Pairs, b: Pairs, c: Pairs, d: Pairs)
    ensures a + b + c + d == a + (b + (c + d))
  {
  }

  lemma OneGiven(k: string, v: Option<string>, name: string)
    ensures FirstValue(Given(k, v), name) == LastValue(Given(k, v), name) == if name == k then v else None
  {
  }

  lemma FirstOfGiven(k: string, v: Option<string>, rest: Pairs, name: string)
    ensures FirstValue(Given(k, v) + rest, name) == if name == k && v.Some? then v else FirstValue(rest, name)
  {
    if v.None? {
      assert Given(k, v) + rest == rest;
    } else {
      assert (Given(k, v) + rest)[1..] == rest;
    }
  }

  lemma LastOfGiven(front: Pairs, k: string, v: Option<string>, name: string)
    ensures LastValue(front + Given(k, v), name) == if name == k && v.Some? then v else LastValue(front, name)
  {
    if v.None? {
      assert front + Given(k, v) == front;
    } else {
      assert (front + Given(k, v))[..|front|] == front;
    }
  }

  /** Why an authorization is refused: no redirect URI, a first one that is not allowed, a first state of more
      than 4096 bytes, or no room, in this order; and otherwise it goes on to the authorization server. */
  lemma AuthorizeOutcomes(cfg: Config, m: Store, pairs: Pairs, proxyState: string, now: nat)
    ensures var r := AuthorizeResponse(cfg, m, pairs, proxyState, now);
      match FirstValue(pairs, "redirect_uri")
      case None => r == Refused(MissingRedirectUri)
      case Some(uri) =>
        if !cfg.allows(uri) then r == Refused(UnregisteredRedirectUri)
        else if FirstValue(pairs, "state").Some? && ByteLen(FirstValue(pairs, "state").value) > 4096 then
          r == Refused(StateTooLarge)
        else if |Swept(m, now)| >= 2048 then r == Refused(TooManyPending)
        else r == ToAuthServer(Forwarded(cfg, pairs, proxyState))
  {
  }

  /** Below 2048 entries the store is left alone; a full one keeps exactly what is younger than 600 seconds. */
  lemma SweptIff(m: Store, now: nat)
    ensures |m| < 2048 ==> Swept(m, now) == m
    ensures |m| >= 2048 ==>
      forall state :: state in Swept(m, now) <==> state in m && now - m[state].created < 600_000_000_000
  {
  }

  /** What a callback answers: no state, a state that is not pending or is 600 seconds old, a stored URI that
      does not parse, in this order; and otherwise it goes to the stored URI. The entry is gone in any case. */
  lemma CallbackOutcomes(cfg: Config, m: Store, pairs: Pairs, now: nat)
    ensures var r := CallbackResponse(cfg, m, pairs, now);
      match LastValue(pairs, "state")
      case None => r == Refused(MissingState) && AfterCallback(m, pairs) == m
      case Some(state) =>
        && AfterCallback(m, pairs) == m - {state}
        && (if state !in m || now - m[state].created >= 600_000_000_000 then r == Refused(UnknownOrExpiredState)
            else if !cfg.parses(m[state].clientRedirectUri) then r == Refused(BadClientRedirectUri)
            else r == ToClient(m[state].clientRedirectUri, Handed(pairs, m[state].clientState)))
  {
  }
}
