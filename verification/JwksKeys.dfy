/** Where the keys that the refresh gate returns come from. */
module JwksKeys {
  import opened Text
  import opened Runs
  import opened JwksGate
  import opened JwksRate

  /** Every key returned for a `kid` is the one in the set of the latest successful refresh at the
      moment of the final read. One read from a set older than the TTL was read in the cooldown, within
      five seconds of a recorded attempt, or by the very task whose own refresh installed that set. */
  lemma KeysComeFromLatestRefresh(steps: seq<Step>, i: nat)
    requires After(steps).Some? && i < |After(steps).value.answers|
    ensures var s := After(steps).value;
      var a := s.answers[i];
      && a.installs <= |s.installs|
      && a.key == Installed(s.installs[..a.installs], a.kid)
      && (a.key.Some? && a.at - s.installs[a.installs - 1].at >= 3600 * SECOND ==>
            || (a.via.Cooldown? && IsNearRecord(a.at, s.records))
            || (a.via.OwnRefresh? && s.installs[a.installs - 1].task == a.task))
  {
    EveryRunKeeps(steps);
    var s := After(steps).value;
    assert Justified(s.answers[i], s.records, s.installs);
  }

  /** The steps of a task that is held up for the whole TTL between installing its own refresh and reading. */
  function LateReadSteps(): seq<Step> {
    [Receive(0, map["a" := Key("k")]), InstallKeys(0), Tick(JWKS_TTL), ReadKey(0)]
  }

  lemma LateReadApplies(s: System, kid: string, keys: map<string, Key>, wait: nat)
    returns (s1: System, s2: System, s3: System, s4: System)
    requires 0 in s.tasks && s.tasks[0] == Fetching(kid) && s.installs == [] && s.answers == []
    ensures Apply(s, Receive(0, keys)) == Some(s1)
    ensures Apply(s1, InstallKeys(0)) == Some(s2)
    ensures Apply(s2, Tick(wait)) == Some(s3)
    ensures Apply(s3, ReadKey(0)) == Some(s4)
    ensures s4.installs == [Install(keys, s.clock, 0)] && s4.records == s.records
    ensures s4.answers ==
            [Answer(0, kid, if kid in keys then Some(keys[kid]) else None, OwnRefresh, s.clock + wait, 1)]
  {
    s1 := Moved(s, 0, Installing(kid, keys));
    s2 := Moved(s1, 0, Reading(kid)).(
      jwks := s1.jwks.(keys := keys, fetchedAt := Some(s1.clock)),
      installs := s1.installs + [Install(keys, s1.clock, 0)]);
    s3 := s2.(clock := s2.clock + wait);
    s4 := Answered(s3, 0, kid, KnownKey(s3.jwks, kid), OwnRefresh);
  }

  /** The second case is needed: such a task returns a key as old as the TTL long after any record. */
  lemma OwnRefreshCanBeOld()
    ensures var steps := RefreshSteps(0, "a", 0) + LateReadSteps();
      && After(steps).Some? && |After(steps).value.answers| == 1 && |After(steps).value.installs| == 1
      && var s := After(steps).value;
      var a := s.answers[0];
      && a.via.OwnRefresh? && a.key == Some(Key("k"))
      && a.installs == 1 && a.at - s.installs[0].at == JWKS_TTL && !IsNearRecord(a.at, s.records)
  {
    var first := RefreshSteps(0, "a", 0);
    assert After([]) == Some(START);
    RefreshStepsRun([], 0, "a", 0);
    assert [] + first == first;
    var s1, s2, s3, s4 := LateReadApplies(After(first).value, "a", map["a" := Key("k")], JWKS_TTL);
    AfterFourMore(first, LateReadSteps(), s1, s2, s3, s4);
    assert s4.records == [0];
  }

  /** How old the set was that an answer was read from. */
  function AgeOf(a: Answer, installs: seq<Install>): int {
    if 0 < a.installs <= |installs| then a.at - installs[a.installs - 1].at else 0
  }

  /** Every task that reads from its own refresh does so within `wait` of installing it. */
  predicate OwnReadsWithin(s: System, wait: nat) {
    forall i :: 0 <= i < |s.answers| && s.answers[i].via.OwnRefresh? ==> AgeOf(s.answers[i], s.installs) <= wait
  }

  /** Every key from a set as old as the TTL is returned close to a recorded attempt. */
  predicate OldKeysNearRecords(s: System) {
    forall i :: 0 <= i < |s.answers| && s.answers[i].key.Some? && AgeOf(s.answers[i], s.installs) >= 3600 * SECOND ==>
      IsNearRecord(s.answers[i].at, s.records)
  }

  ghost predicate WaitGuarantees(wait: nat) {
    forall steps :: After(steps).Some? && OwnReadsWithin(After(steps).value, wait) ==>
      OldKeysNearRecords(After(steps).value)
  }

  lemma ShortWaitsSuffice(steps: seq<Step>, wait: nat)
    requires After(steps).Some? && OwnReadsWithin(After(steps).value, wait) && wait < JWKS_TTL
    ensures OldKeysNearRecords(After(steps).value)
  {
    var s := After(steps).value;
    forall i | 0 <= i < |s.answers| && s.answers[i].key.Some? && AgeOf(s.answers[i], s.installs) >= 3600 * SECOND
      ensures IsNearRecord(s.answers[i].at, s.records)
    {
      KeysComeFromLatestRefresh(steps, i);
    }
  }

  /** Keys older than the TTL are returned only within five seconds of a recorded attempt, in all runs in
      which tasks read from their own refresh within `wait` of installing it, exactly when `wait` is
      below the TTL. */
  lemma OldKeysNearRecordsIff(wait: nat)
    ensures WaitGuarantees(wait) <==> wait < 3600 * SECOND
  {
    if wait < JWKS_TTL {
      forall steps | After(steps).Some? && OwnReadsWithin(After(steps).value, wait)
        ensures OldKeysNearRecords(After(steps).value)
      {
        ShortWaitsSuffice(steps, wait);
      }
    } else {
      OwnRefreshCanBeOld();
      var s := After(RefreshSteps(0, "a", 0) + LateReadSteps()).value;
      assert OwnReadsWithin(s, wait);
      assert !IsNearRecord(s.answers[0].at, s.records);
    }
  }

  // ---- Fresh keys are served from the cache

  /** The last installed set holds the key and is less than 3600 seconds old. */
  predicate HoldsFresh(s: System, kid: string) {
    && s.installs != [] && kid in s.installs[|s.installs| - 1].keys
    && s.clock - s.installs[|s.installs| - 1].at < 3_600_000_000_000
  }

  lemma HoldsFreshIff(steps: seq<Step>, kid: string)
    requires After(steps).Some?
    ensures var s := After(steps).value;
      FreshKey(s.jwks, kid, s.clock) ==
      if HoldsFresh(s, kid) then Some(s.installs[|s.installs| - 1].keys[kid]) else None
  {
    EveryRunKeeps(steps);
  }

  /** In every reachable state, looking for a key, with the gate or without, answers at once with the key of
      the last installed set, records nothing and sends nothing, if that set holds the key and is less than
      3600 seconds old; and otherwise the task goes on towards a refresh without an answer. */
  lemma FreshKeysAreServed(steps: seq<Step>, task: nat, kid: string, step: Step)
    requires After(steps).Some? && task in After(steps).value.tasks
    requires var p := After(steps).value.tasks[task];
      (step == Look(task) && p == Looking(kid)) || (step == RecheckFresh(task) && p == Rechecking(kid))
    ensures Apply(After(steps).value, step).Some?
    ensures var s, n := After(steps).value, Apply(After(steps).value, step).value;
      && n.records == s.records && n.sends == s.sends && n.jwks == s.jwks && n.installs == s.installs
      && (if HoldsFresh(s, kid) then
            && n.tasks[task] == Finished
            && |n.answers| == |s.answers| + 1 && n.answers[..|s.answers|] == s.answers
            && n.answers[|s.answers|].task == task && n.answers[|s.answers|].kid == kid
            && n.answers[|s.answers|].key == Some(s.installs[|s.installs| - 1].keys[kid])
          else
            && n.answers == s.answers
            && n.tasks[task] == if step == Look(task) then Waiting(kid) else CheckingCooldown(kid))
  {
    HoldsFreshIff(steps, kid);
  }

  /** A task that found no fresh key sends a request only if no attempt was recorded in the last five
      seconds; otherwise it answers with the key of the last installed set, however old, or with none. */
  lemma CooldownDecides(steps: seq<Step>, task: nat, kid: string)
    requires After(steps).Some? && task in After(steps).value.tasks
    requires After(steps).value.tasks[task] == CheckingCooldown(kid)
    ensures Apply(After(steps).value, CheckCooldown(task)).Some?
    ensures var s, n := After(steps).value, Apply(After(steps).value, CheckCooldown(task)).value;
      if exists r :: r in s.records && s.clock < r + 5_000_000_000 then
        && n.tasks[task] == Finished
        && |n.answers| == |s.answers| + 1
        && n.answers[|s.answers|].key == Installed(s.installs, kid)
      else n.tasks[task] == Recording(kid) && n.answers == s.answers
  {
    EveryRunKeeps(steps);
    var s := After(steps).value;
    if s.records != [] {
      assert s.records[|s.records| - 1] in s.records;
    }
    if r :| r in s.records && s.clock < r + 5_000_000_000 {
      AtMostLast(s, r);
    }
  }

  // ---- Which refreshes install keys

  predicate IsStepOf(step: Step, task: nat) {
    !step.Tick? && step.task == task
  }

  /** The task received the keys at position `i` and has done nothing since. */
  predicate HoldsReceived(steps: seq<Step>, i: nat, task: nat, keys: map<string, Key>) {
    && i < |steps| && steps[i] == Receive(task, keys)
    && forall l :: i < l < |steps| ==> !IsStepOf(steps[l], task)
  }

  lemma EntersInstalling(s: System, step: Step, task: nat)
    requires Apply(s, step).Some?
    requires task in Apply(s, step).value.tasks && Apply(s, step).value.tasks[task].Installing?
    ensures var p := Apply(s, step).value.tasks[task];
      if IsStepOf(step, task) then step == Receive(task, p.keys) else task in s.tasks && s.tasks[task] == p
  {
  }

  lemma {:induction false} InstallingHasReceived(steps: seq<Step>, task: nat)
    requires After(steps).Some?
    requires task in After(steps).value.tasks && After(steps).value.tasks[task].Installing?
    ensures exists i: nat :: HoldsReceived(steps, i, task, After(steps).value.tasks[task].keys)
  {
    if steps != [] {
      var front, step := steps[..|steps| - 1], steps[|steps| - 1];
      EntersInstalling(After(front).value, step, task);
      if IsStepOf(step, task) {
        assert HoldsReceived(steps, |front|, task, After(steps).value.tasks[task].keys);
      } else {
        InstallingHasReceived(front, task);
        var keys := After(front).value.tasks[task].keys;
        var i: nat :| HoldsReceived(front, i, task, keys);
        assert HoldsReceived(steps, i, task, keys);
      }
    }
  }

  /** At `j` the task installs what it received at `i`; in between it was neither failed nor cancelled. */
  ghost predicate InstalledAt(steps: seq<Step>, j: nat, install: Install) {
    && j < |steps| && steps[j] == InstallKeys(install.task)
    && exists i: nat :: HoldsReceived(steps[..j], i, install.task, install.keys)
  }

  /** Every installed set was received by the task that installed it, which did not fail and was not
      cancelled: so a failed or cancelled refresh never changes the keys. */
  lemma {:induction false} InstallsWereReceived(steps: seq<Step>, k: nat)
    requires After(steps).Some? && k < |After(steps).value.installs|
    ensures exists j: nat :: InstalledAt(steps, j, After(steps).value.installs[k])
  {
    var front, step := steps[..|steps| - 1], steps[|steps| - 1];
    var s, n := After(front).value, After(steps).value;
    InstallChanges(s, step);
    if k < |s.installs| {
      InstallsWereReceived(front, k);
      var j: nat :| InstalledAt(front, j, s.installs[k]);
      assert front[..j] == steps[..j];
      assert InstalledAt(steps, j, n.installs[k]);
    } else {
      InstallingHasReceived(front, step.task);
      assert n.installs[k].keys == s.tasks[step.task].keys;
      assert steps[..|front|] == front;
      assert InstalledAt(steps, |front|, n.installs[k]);
    }
  }

  /** Over any stretch of steps that installs nothing, the keys and their age stay as they were. */
  lemma {:induction false} FailureKeepsKeys(steps: seq<Step>, more: seq<Step>)
    requires After(steps + more).Some? && After(steps).Some?
    requires |After(steps + more).value.installs| == |After(steps).value.installs|
    ensures var before, after := After(steps).value.jwks, After(steps + more).value.jwks;
      after.keys == before.keys && after.fetchedAt == before.fetchedAt
    decreases |more|
  {
    if more == [] {
      assert steps + more == steps;
    } else {
      var front, last := more[..|more| - 1], more[|more| - 1];
      assert steps + more == (steps + front) + [last];
      AfterOneMore(steps + front, last);
      InstallsGrow(steps, front);
      InstallChanges(After(steps + front).value, last);
      FailureKeepsKeys(steps, front);
    }
  }

  lemma {:induction false} InstallsGrow(steps: seq<Step>, more: seq<Step>)
    requires After(steps + more).Some?
    ensures After(steps).Some? && |After(steps).value.installs| <= |After(steps + more).value.installs|
    decreases |more|
  {
    if more == [] {
      assert steps + more == steps;
    } else {
      var front, last := more[..|more| - 1], more[|more| - 1];
      assert steps + more == (steps + front) + [last];
      AfterOneMore(steps + front, last);
      InstallsGrow(steps, front);
      InstallChanges(After(steps + front).value, last);
    }
  }
}
