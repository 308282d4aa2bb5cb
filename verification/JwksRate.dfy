/** How often the key server is asked, over all runs of the refresh gate. */
module JwksRate {
  import opened Text
  import opened Runs
  import opened JwksGate

  lemma {:induction false} Spread(records: seq<nat>, i: nat, j: nat)
    requires i <= j < |records|
    requires Spaced(records)
    ensures records[j] - records[i] >= (j - i) * JWKS_MIN_REFRESH_INTERVAL
    decreases j - i
  {
    if i < j {
      Spread(records, i, j - 1);
    }
  }

  lemma SpacedPerWindow(instants: seq<nat>, i: nat, j: nat, length: nat)
    requires i <= j < |instants| && Spaced(instants)
    requires instants[j] - instants[i] <= length
    ensures j - i <= length / JWKS_MIN_REFRESH_INTERVAL
  {
    Spread(instants, i, j);
  }

  /** Over all interleavings, failures and cancellations, any window of time holds at most one
      recorded refresh attempt, plus one for every five seconds of its length. */
  lemma AttemptsPerWindow(steps: seq<Step>, i: nat, j: nat, start: nat, length: nat)
    requires After(steps).Some?
    requires i <= j < |After(steps).value.records|
    requires start <= After(steps).value.records[i] && After(steps).value.records[j] <= start + length
    ensures j - i + 1 <= 1 + length / (5 * SECOND)
  {
    EveryRunKeeps(steps);
    SpacedPerWindow(After(steps).value.records, i, j, length);
  }

  lemma SendsPerWindow(s: System, i: nat, j: nat, start: nat, length: nat)
    requires SendsKept(s) && i <= j < |s.sends|
    requires start <= s.sends[i].sentAt && s.sends[j].sentAt <= start + length
    ensures j - i + 1 <= 2 + length / JWKS_MIN_REFRESH_INTERVAL
  {
    if i + 1 < j {
      var recorded := seq(|s.sends|, k requires 0 <= k < |s.sends| => s.sends[k].recordedAt);
      assert Spaced(recorded);
      assert s.sends[i].sentAt <= recorded[i + 1] && recorded[j] <= s.sends[j].sentAt;
      SpacedPerWindow(recorded, i + 1, j, length);
    }
  }

  /** Requests on the wire: between recording an attempt and sending its request a task can be
      delayed, so a window holds at most two requests, plus one for every five seconds. */
  lemma RequestsPerWindow(steps: seq<Step>, i: nat, j: nat, start: nat, length: nat)
    requires After(steps).Some?
    requires i <= j < |After(steps).value.sends|
    requires start <= After(steps).value.sends[i].sentAt && After(steps).value.sends[j].sentAt <= start + length
    ensures j - i + 1 <= 2 + length / (5 * SECOND)
  {
    EveryRunKeeps(steps);
    SendsPerWindow(After(steps).value, i, j, start, length);
  }

  /** The steps of one task up to its request, held up for `delay` after its record. */
  function RefreshSteps(task: nat, kid: string, delay: nat): seq<Step> {
    GateSteps(task, kid) + SendSteps(task, delay)
  }

  function GateSteps(task: nat, kid: string): seq<Step> {
    [Spawn(task, kid), Look(task), Acquire(task), RecheckFresh(task)]
  }

  function SendSteps(task: nat, delay: nat): seq<Step> {
    [CheckCooldown(task), Record(task), Tick(delay), Send(task)]
  }

  lemma AfterFourMore(steps: seq<Step>, more: seq<Step>, s1: System, s2: System, s3: System, s4: System)
    requires After(steps).Some? && |more| == 4
    requires Apply(After(steps).value, more[0]) == Some(s1) && Apply(s1, more[1]) == Some(s2)
    requires Apply(s2, more[2]) == Some(s3) && Apply(s3, more[3]) == Some(s4)
    ensures After(steps + more) == Some(s4)
  {
    AfterOneMore(steps, more[0]);
    AfterOneMore(steps + [more[0]], more[1]);
    AfterOneMore(steps + [more[0]] + [more[1]], more[2]);
    AfterOneMore(steps + [more[0]] + [more[1]] + [more[2]], more[3]);
    assert steps + more == steps + [more[0]] + [more[1]] + [more[2]] + [more[3]];
  }

  predicate NeedsRefresh(s: System, task: nat, kid: string) {
    s.gate.None? && task !in s.tasks && FreshKey(s.jwks, kid, s.clock).None? && !IsCoolingDown(s.jwks, s.clock)
  }

  lemma GateStepsRun(steps: seq<Step>, task: nat, kid: string)
    requires After(steps).Some? && NeedsRefresh(After(steps).value, task, kid)
    ensures var s := After(steps).value;
      After(steps + GateSteps(task, kid)) == Some(Moved(s, task, CheckingCooldown(kid)).(gate := Some(task)))
  {
    var s := After(steps).value;
    var s1 := Moved(s, task, Looking(kid));
    var s2 := Moved(s1, task, Waiting(kid));
    var s3 := Moved(s2, task, Rechecking(kid)).(gate := Some(task));
    var s4 := Moved(s3, task, CheckingCooldown(kid));
    AfterFourMore(steps, GateSteps(task, kid), s1, s2, s3, s4);
    assert s4.tasks == s.tasks[task := CheckingCooldown(kid)];
  }

  function Requested(s: System, task: nat, kid: string, delay: nat): System {
    s.(clock := s.clock + delay,
    jwks := s.jwks.(lastAttempt := Some(s.clock)),
    tasks := s.tasks[task := Fetching(kid)],
    records := s.records + [s.clock],
    sends := s.sends + [Sent(s.clock, s.clock + delay)])
  }

  lemma SendStepsApply(s: System, task: nat, kid: string, delay: nat) returns (s5: System, s6: System, s7: System)
    requires task in s.tasks && s.tasks[task] == CheckingCooldown(kid) && !IsCoolingDown(s.jwks, s.clock)
    ensures Apply(s, CheckCooldown(task)) == Some(s5)
    ensures Apply(s5, Record(task)) == Some(s6)
    ensures Apply(s6, Tick(delay)) == Some(s7)
    ensures Apply(s7, Send(task)) == Some(Requested(s, task, kid, delay))
  {
    s5 := Moved(s, task, Recording(kid));
    s6 := Moved(s5, task, Sending(kid, s.clock)).(
      jwks := s.jwks.(lastAttempt := Some(s.clock)), records := s.records + [s.clock]);
    s7 := s6.(clock := s.clock + delay);
    assert s7.tasks[task := Fetching(kid)] == s.tasks[task := Fetching(kid)];
  }

  lemma SendStepsRun(steps: seq<Step>, task: nat, kid: string, delay: nat)
    requires After(steps).Some?
    requires var s := After(steps).value;
      task in s.tasks && s.tasks[task] == CheckingCooldown(kid) && !IsCoolingDown(s.jwks, s.clock)
    ensures After(steps + SendSteps(task, delay)) == Some(Requested(After(steps).value, task, kid, delay))
  {
    var s := After(steps).value;
    var s5, s6, s7 := SendStepsApply(s, task, kid, delay);
    AfterFourMore(steps, SendSteps(task, delay), s5, s6, s7, Requested(s, task, kid, delay));
  }

  lemma RefreshStepsRun(steps: seq<Step>, task: nat, kid: string, delay: nat)
    requires After(steps).Some? && NeedsRefresh(After(steps).value, task, kid)
    ensures After(steps + RefreshSteps(task, kid, delay)) ==
            Some(Requested(After(steps).value, task, kid, delay).(gate := Some(task)))
  {
    var s := After(steps).value;
    GateStepsRun(steps, task, kid);
    SendStepsRun(steps + GateSteps(task, kid), task, kid, delay);
    assert steps + GateSteps(task, kid) + SendSteps(task, delay) == steps + RefreshSteps(task, kid, delay);
    assert s.tasks[task := CheckingCooldown(kid)][task := Fetching(kid)] == s.tasks[task := Fetching(kid)];
  }

  // ---- How far apart requests are

  /** Every request left within `delay` of its record. */
  predicate DelaysAtMost(s: System, delay: nat) {
    forall i :: 0 <= i < |s.sends| ==> s.sends[i].sentAt <= s.sends[i].recordedAt + delay
  }

  /** Requests are the refresh interval apart, less `slack`. */
  predicate SendsSpaced(s: System, slack: nat) {
    forall i, j :: 0 <= i < j < |s.sends| ==>
      s.sends[i].sentAt + 5 * SECOND <= s.sends[j].sentAt + slack
  }

  /** A delay between record and request costs at most that much of the spacing. */
  lemma DelayBoundsSpacing(steps: seq<Step>, delay: nat)
    requires After(steps).Some? && DelaysAtMost(After(steps).value, delay)
    ensures SendsSpaced(After(steps).value, delay)
  {
    EveryRunKeeps(steps);
  }

  /** A first task is held up between its record and its request, its fetch fails, and the cooldown ends. */
  function DelayedSteps(delay: nat): seq<Step>
    requires delay <= JWKS_MIN_REFRESH_INTERVAL
  {
    RefreshSteps(0, "a", delay) + [Fail(0)] + [Tick(JWKS_MIN_REFRESH_INTERVAL - delay)]
  }

  lemma DelayedStepsRun(delay: nat)
    requires delay <= JWKS_MIN_REFRESH_INTERVAL
    ensures After(DelayedSteps(delay)).Some?
    ensures NeedsRefresh(After(DelayedSteps(delay)).value, 1, "b")
    ensures After(DelayedSteps(delay)).value.sends == [Sent(0, delay)]
    ensures After(DelayedSteps(delay)).value.clock == JWKS_MIN_REFRESH_INTERVAL
  {
    var first := RefreshSteps(0, "a", delay);
    assert After([]) == Some(START);
    RefreshStepsRun([], 0, "a", delay);
    assert [] + first == first;
    AfterOneMore(first, Fail(0));
    AfterOneMore(first + [Fail(0)], Tick(JWKS_MIN_REFRESH_INTERVAL - delay));
  }

  /** The run in which another task follows the delayed one at once. */
  function LosingSteps(delay: nat): seq<Step>
    requires delay <= JWKS_MIN_REFRESH_INTERVAL
  {
    DelayedSteps(delay) + RefreshSteps(1, "b", 0)
  }

  /** Every delay up to the interval does cost that much of the spacing. */
  lemma DelayLosesSpacing(delay: nat)
    requires delay <= JWKS_MIN_REFRESH_INTERVAL
    ensures After(LosingSteps(delay)).Some?
    ensures After(LosingSteps(delay)).value.sends ==
            [Sent(0, delay), Sent(JWKS_MIN_REFRESH_INTERVAL, JWKS_MIN_REFRESH_INTERVAL)]
  {
    DelayedStepsRun(delay);
    RefreshStepsRun(DelayedSteps(delay), 1, "b", 0);
  }

  /** So the bound on requests cannot be the one on attempts: two can leave at the same instant. */
  lemma DelayedRequestsCanCoincide()
    ensures exists steps :: After(steps).Some?
                            && |After(steps).value.sends| == 2
                            && After(steps).value.sends[0].sentAt == After(steps).value.sends[1].sentAt
  {
    DelayLosesSpacing(JWKS_MIN_REFRESH_INTERVAL);
  }

  /** Delays of at most `delay` guarantee a spacing that is short of the interval by at most `slack`. */
  ghost predicate DelayGuarantees(delay: nat, slack: nat) {
    forall steps :: After(steps).Some? && DelaysAtMost(After(steps).value, delay) ==>
      SendsSpaced(After(steps).value, slack)
  }

  /** Whatever the tasks do, exactly the delay is lost: with requests that leave within `delay` of their
      record, the spacing is `slack` short of five seconds at worst if and only if `slack` covers the
      delay, or the whole interval. Five seconds are guaranteed only without any delay. */
  lemma RequestsSpacedIff(delay: nat, slack: nat)
    ensures DelayGuarantees(delay, slack) <==> delay <= slack || 5 * SECOND <= slack
    ensures DelayGuarantees(delay, 0) <==> delay == 0
  {
    SpacedIff(delay, slack);
    SpacedIff(delay, 0);
  }

  lemma SpacedIff(delay: nat, slack: nat)
    ensures DelayGuarantees(delay, slack) <==> delay <= slack || JWKS_MIN_REFRESH_INTERVAL <= slack
  {
    if delay <= slack || JWKS_MIN_REFRESH_INTERVAL <= slack {
      forall steps | After(steps).Some? && DelaysAtMost(After(steps).value, delay)
        ensures SendsSpaced(After(steps).value, slack)
      {
        EveryRunKeeps(steps);
      }
    } else {
      var lost := if delay < JWKS_MIN_REFRESH_INTERVAL then delay else JWKS_MIN_REFRESH_INTERVAL;
      DelayLosesSpacing(lost);
      var s := After(LosingSteps(lost)).value;
      assert DelaysAtMost(s, delay);
      assert !(s.sends[0].sentAt + JWKS_MIN_REFRESH_INTERVAL <= s.sends[1].sentAt + slack);
    }
  }
}
