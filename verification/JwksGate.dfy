/** The JWKS refresh gate: `decoding_key_for` and `refresh_jwks`, run by any number of concurrent
    tasks. Every lock section is one step; the steps of the tasks interleave freely, time passes
    between any two steps, a fetch may fail, and a task may be cancelled.
 */
module JwksGate {
  import opened Text
  import opened Runs

  const JWKS_TTL: nat := 3600 * SECOND
  const JWKS_MIN_REFRESH_INTERVAL: nat := 5 * SECOND

  datatype Key = Key(material: string)

  /** The shared cache. */
  datatype Jwks = Jwks(keys: map<string, Key>, fetchedAt: Option<nat>, lastAttempt: Option<nat>)

  const NO_KEYS := Jwks(map[], None, None)

  function KnownKey(j: Jwks, kid: string): Option<Key> {
    if kid in j.keys then Some(j.keys[kid]) else None
  }

  /** A key of a set that is not older than the TTL. */
  function FreshKey(j: Jwks, kid: string, now: nat): Option<Key> {
    if j.fetchedAt.Some? && now - j.fetchedAt.value < JWKS_TTL then KnownKey(j, kid) else None
  }

  predicate IsCoolingDown(j: Jwks, now: nat) {
    j.lastAttempt.Some? && now - j.lastAttempt.value < JWKS_MIN_REFRESH_INTERVAL
  }

  // ---- Tasks and steps

  /** Where a task is in `decoding_key_for`; all phases from `Rechecking` on hold the gate. */
  datatype Phase =
    | Looking(kid: string)
    | Waiting(kid: string)
    | Rechecking(kid: string)
    | CheckingCooldown(kid: string)
    | Recording(kid: string)
    | Sending(kid: string, recordedAt: nat)
    | Fetching(kid: string)
    | Installing(kid: string, keys: map<string, Key>)
    | Reading(kid: string)
    | Finished

  predicate HoldsGate(p: Phase) {
    !p.Looking? && !p.Waiting? && !p.Finished?
  }

  /** Which read produced an answer. */
  datatype Source = Fast | Recheck | Cooldown | OwnRefresh

  datatype Answer = Answer(task: nat, kid: string, key: Option<Key>, via: Source, at: nat, installs: nat)

  datatype Sent = Sent(recordedAt: nat, sentAt: nat)

  datatype Install = Install(keys: map<string, Key>, at: nat, task: nat)

  /** The whole system, with the history of what happened so far. */
  datatype System = System(
    clock: nat,
    jwks: Jwks,
    gate: Option<nat>,
    tasks: map<nat, Phase>,
    records: seq<nat>,
    sends: seq<Sent>,
    installs: seq<Install>,
    answers: seq<Answer>
  )

  const START := System(0, NO_KEYS, None, map[], [], [], [], [])

  datatype Step =
    | Tick(elapsed: nat)
    | Spawn(task: nat, kid: string)
    | Look(task: nat)
    | Acquire(task: nat)
    | RecheckFresh(task: nat)
    | CheckCooldown(task: nat)
    | Record(task: nat)
    | Send(task: nat)
    | Fail(task: nat)
    | Receive(task: nat, keys: map<string, Key>)
    | InstallKeys(task: nat)
    | ReadKey(task: nat)
    | Cancel(task: nat)

  function Moved(s: System, task: nat, phase: Phase): System {
    s.(tasks := s.tasks[task := phase])
  }

  /** The task is done and lets go of the gate if it holds it. */
  function Done(s: System, task: nat): System {
    s.(tasks := s.tasks[task := Finished], gate := if s.gate == Some(task) then None else s.gate)
  }

  function Answered(s: System, task: nat, kid: string, key: Option<Key>, via: Source): System {
    Done(s, task).(answers := s.answers + [Answer(task, kid, key, via, s.clock, |s.installs|)])
  }

  /** One step, if it is enabled. */
  function Apply(s: System, step: Step): Option<System> {
    match step
    case Tick(elapsed) => Some(s.(clock := s.clock + elapsed))
    case Spawn(task, kid) => if task in s.tasks then None else Some(Moved(s, task, Looking(kid)))
    case _ => if step.task in s.tasks then ApplyTask(s, step, step.task, s.tasks[step.task]) else None
  }

  function ApplyTask(s: System, step: Step, task: nat, p: Phase): Option<System> {
    match (step, p)
    case (Look(_), Looking(kid)) =>
      var key := FreshKey(s.jwks, kid, s.clock);
      Some(if key.Some? then Answered(s, task, kid, key, Fast) else Moved(s, task, Waiting(kid)))
    case (Acquire(_), Waiting(kid)) =>
      if s.gate.Some? then None else Some(Moved(s, task, Rechecking(kid)).(gate := Some(task)))
    case (RecheckFresh(_), Rechecking(kid)) =>
      var key := FreshKey(s.jwks, kid, s.clock);
      Some(if key.Some? then Answered(s, task, kid, key, Recheck) else Moved(s, task, CheckingCooldown(kid)))
    case (CheckCooldown(_), CheckingCooldown(kid)) =>
      Some(if IsCoolingDown(s.jwks, s.clock) then Answered(s, task, kid, KnownKey(s.jwks, kid), Cooldown)
           else Moved(s, task, Recording(kid)))
    case (Record(_), Recording(kid)) =>
      Some(Moved(s, task, Sending(kid, s.clock)).(
           jwks := s.jwks.(lastAttempt := Some(s.clock)),
           records := s.records + [s.clock]))
    case (Send(_), Sending(kid, recordedAt)) =>
      Some(Moved(s, task, Fetching(kid)).(sends := s.sends + [Sent(recordedAt, s.clock)]))
    case (Fail(_), Fetching(_)) => Some(Done(s, task))
    case (Receive(_, keys), Fetching(kid)) => Some(Moved(s, task, Installing(kid, keys)))
    case (InstallKeys(_), Installing(kid, keys)) =>
      Some(Moved(s, task, Reading(kid)).(
           jwks := s.jwks.(keys := keys, fetchedAt := Some(s.clock)),
           installs := s.installs + [Install(keys, s.clock, task)]))
    case (ReadKey(_), Reading(kid)) => Some(Answered(s, task, kid, KnownKey(s.jwks, kid), OwnRefresh))
    case (Cancel(_), _) => Some(Done(s, task))
    case (_, _) => None
  }

  /** The state after a run, if every step of it is enabled in turn. */
  function After(steps: seq<Step>): Option<System> {
    if steps == [] then Some(START) else
      var s := After(steps[..|steps| - 1]);
      if s.None? then None else Apply(s.value, steps[|steps| - 1])
  }

  // ---- What every step keeps

  predicate GateKept(s: System) {
    && (forall t | t in s.tasks :: HoldsGate(s.tasks[t]) ==> s.gate == Some(t))
    && (s.gate.Some? ==> s.gate.value in s.tasks && HoldsGate(s.tasks[s.gate.value]))
  }

  predicate Spaced(instants: seq<nat>) {
    forall a, b :: 0 <= a < b < |instants| ==> instants[a] + JWKS_MIN_REFRESH_INTERVAL <= instants[b]
  }

  /** Recorded attempts are at least five seconds apart, and the cache remembers the last one. */
  predicate RecordsKept(s: System) {
    && Spaced(s.records)
    && (forall i :: 0 <= i < |s.records| ==> s.records[i] <= s.clock)
    && s.jwks.lastAttempt == (if s.records == [] then None else Some(s.records[|s.records| - 1]))
    && (forall t | t in s.tasks :: s.tasks[t].Recording? ==> !IsCoolingDown(s.jwks, s.clock))
  }

  /** Every request was recorded on its own, before it was sent and after the previous one was sent. */
  predicate SendsKept(s: System) {
    && (forall i :: 0 <= i < |s.sends| ==>
          s.sends[i].recordedAt <= s.sends[i].sentAt <= s.clock && s.sends[i].recordedAt in s.records)
    && (forall i, j :: 0 <= i < j < |s.sends| ==>
          s.sends[i].sentAt <= s.sends[j].recordedAt
          && s.sends[i].recordedAt + JWKS_MIN_REFRESH_INTERVAL <= s.sends[j].recordedAt)
  }

  /** A task about to send has the last record, and every earlier request left before it. */
  predicate SendingKept(s: System) {
    forall t | t in s.tasks && s.tasks[t].Sending? ::
      Some(s.tasks[t].recordedAt) == s.jwks.lastAttempt && AllSentBefore(s.sends, s.tasks[t].recordedAt)
  }

  predicate AllSentBefore(sends: seq<Sent>, recordedAt: nat) {
    forall i :: 0 <= i < |sends| ==>
      sends[i].sentAt <= recordedAt && sends[i].recordedAt + JWKS_MIN_REFRESH_INTERVAL <= recordedAt
  }

  /** The cached set is the one installed last, and only a reading task has installed it. */
  predicate InstallsKept(s: System) {
    && s.jwks.keys == (if s.installs == [] then map[] else s.installs[|s.installs| - 1].keys)
    && s.jwks.fetchedAt == (if s.installs == [] then None else Some(s.installs[|s.installs| - 1].at))
    && (forall i :: 0 <= i < |s.installs| ==> s.installs[i].at <= s.clock)
    && (forall t | t in s.tasks && s.tasks[t].Reading? ::
          s.installs != [] && s.installs[|s.installs| - 1].task == t)
  }

  /** What a set of installed keys says about a `kid`. */
  function Installed(installs: seq<Install>, kid: string): Option<Key> {
    if installs == [] || kid !in installs[|installs| - 1].keys then None
    else Some(installs[|installs| - 1].keys[kid])
  }

  /** Less than the refresh interval has passed since some record. */
  predicate IsNearRecord(at: nat, records: seq<nat>) {
    exists r :: r in records && r <= at < r + 5 * SECOND
  }

  /** An answer comes from the set installed last when it was read, and its source bounds its age. */
  predicate Justified(a: Answer, records: seq<nat>, installs: seq<Install>) {
    && a.installs <= |installs|
    && a.key == Installed(installs[..a.installs], a.kid)
    && (a.via.Fast? || a.via.Recheck? ==>
          a.key.Some? && a.installs > 0 && a.at - installs[a.installs - 1].at < JWKS_TTL)
    && (a.via.Cooldown? ==> IsNearRecord(a.at, records))
    && (a.via.OwnRefresh? ==> a.installs > 0 && installs[a.installs - 1].task == a.task)
  }

  predicate AnswersKept(s: System) {
    forall i :: 0 <= i < |s.answers| ==> Justified(s.answers[i], s.records, s.installs)
  }

  predicate Kept(s: System) {
    GateKept(s) && RecordsKept(s) && SendsKept(s) && SendingKept(s) && InstallsKept(s) && AnswersKept(s)
  }

  lemma GateStep(s: System, step: Step)
    requires GateKept(s) && Apply(s, step).Some?
    ensures GateKept(Apply(s, step).value)
  {
  }

  /** What a step can change, and which step puts a task into which phase. */
  lemma StepChanges(s: System, step: Step)
    requires GateKept(s) && Apply(s, step).Some?
    ensures var n := Apply(s, step).value;
      && s.clock <= n.clock && (!step.Tick? ==> s.clock == n.clock)
      && (step.Record? ==> step.task in s.tasks && s.tasks[step.task].Recording?
                           && n.records == s.records + [s.clock] && n.jwks.lastAttempt == Some(s.clock))
      && (!step.Record? ==> n.records == s.records && n.jwks.lastAttempt == s.jwks.lastAttempt)
      && (step.Send? ==> step.task in s.tasks && s.tasks[step.task].Sending?
                         && n.sends == s.sends + [Sent(s.tasks[step.task].recordedAt, s.clock)])
      && (!step.Send? ==> n.sends == s.sends)
  {
  }

  lemma PhaseChanges(s: System, step: Step, t: nat)
    requires GateKept(s) && Apply(s, step).Some?
    requires t in Apply(s, step).value.tasks
    ensures var p := Apply(s, step).value.tasks[t];
      && (p.Recording? ==> !step.Record? && ((t in s.tasks && s.tasks[t] == p)
                                             || (step.CheckCooldown? && !IsCoolingDown(s.jwks, s.clock))))
      && (p.Sending? ==> !step.Send? && (if step.Record? then p.recordedAt == s.clock
                                         else t in s.tasks && s.tasks[t] == p))
  {
  }

  lemma RecordsStep(s: System, step: Step)
    requires GateKept(s) && RecordsKept(s) && Apply(s, step).Some?
    ensures RecordsKept(Apply(s, step).value)
  {
    var n := Apply(s, step).value;
    StepChanges(s, step);
    forall t | t in n.tasks && n.tasks[t].Recording? ensures !IsCoolingDown(n.jwks, n.clock) {
      PhaseChanges(s, step, t);
    }
  }

  lemma SendsStep(s: System, step: Step)
    requires GateKept(s) && RecordsKept(s) && SendsKept(s) && SendingKept(s) && Apply(s, step).Some?
    ensures SendsKept(Apply(s, step).value)
  {
    StepChanges(s, step);
    if s.records != [] {
      assert s.records[|s.records| - 1] in s.records;
    }
  }

  lemma SendingStep(s: System, step: Step)
    requires GateKept(s) && RecordsKept(s) && SendsKept(s) && SendingKept(s) && Apply(s, step).Some?
    ensures SendingKept(Apply(s, step).value)
  {
    var n := Apply(s, step).value;
    StepChanges(s, step);
    if step.Record? {
      forall i | 0 <= i < |s.sends|
        ensures s.sends[i].sentAt <= s.clock && s.sends[i].recordedAt + JWKS_MIN_REFRESH_INTERVAL <= s.clock
      {
        AtMostLast(s, s.sends[i].recordedAt);
      }
    }
    forall t | t in n.tasks && n.tasks[t].Sending?
      ensures Some(n.tasks[t].recordedAt) == n.jwks.lastAttempt && AllSentBefore(n.sends, n.tasks[t].recordedAt)
    {
      PhaseChanges(s, step, t);
    }
  }

  lemma AtMostLast(s: System, r: nat)
    requires RecordsKept(s) && r in s.records
    ensures s.jwks.lastAttempt.Some? && r <= s.jwks.lastAttempt.value
  {
  }

  lemma InstallChanges(s: System, step: Step)
    requires Apply(s, step).Some?
    ensures var n := Apply(s, step).value;
      if step.InstallKeys? then
        && step.task in s.tasks && s.tasks[step.task].Installing?
        && n.installs == s.installs + [Install(n.jwks.keys, s.clock, step.task)]
        && n.jwks.fetchedAt == Some(s.clock)
      else n.installs == s.installs && n.jwks.keys == s.jwks.keys && n.jwks.fetchedAt == s.jwks.fetchedAt
  {
  }

  lemma ReadingChanges(s: System, step: Step, t: nat)
    requires GateKept(s) && Apply(s, step).Some?
    requires t in Apply(s, step).value.tasks && Apply(s, step).value.tasks[t].Reading?
    ensures if step.InstallKeys? then t == step.task else t in s.tasks && s.tasks[t].Reading?
  {
  }

  lemma InstallsStep(s: System, step: Step)
    requires GateKept(s) && InstallsKept(s) && Apply(s, step).Some?
    ensures InstallsKept(Apply(s, step).value)
  {
    var n := Apply(s, step).value;
    InstallChanges(s, step);
    StepChanges(s, step);
    forall t | t in n.tasks && n.tasks[t].Reading?
      ensures n.installs != [] && n.installs[|n.installs| - 1].task == t
    {
      ReadingChanges(s, step, t);
    }
  }

  lemma JustifiedLater(a: Answer, s: System, n: System)
    requires Justified(a, s.records, s.installs)
    requires s.records <= n.records && s.installs <= n.installs
    ensures Justified(a, n.records, n.installs)
  {
    assert n.installs[..a.installs] == s.installs[..a.installs];
    if a.via.Cooldown? {
      var r :| r in s.records && r <= a.at < r + JWKS_MIN_REFRESH_INTERVAL;
      assert r in n.records;
    }
  }

  /** A step answers at most one task, and an answer changes neither history. */
  lemma AnswerChanges(s: System, step: Step)
    requires GateKept(s) && Apply(s, step).Some?
    ensures var n := Apply(s, step).value;
      && s.records <= n.records && s.installs <= n.installs
      && (n.answers != s.answers ==>
            && |n.answers| == |s.answers| + 1 && n.answers[..|s.answers|] == s.answers
            && n.records == s.records && n.installs == s.installs)
  {
    StepChanges(s, step);
    InstallChanges(s, step);
  }

  lemma AnswerStep(s: System, step: Step)
    requires Kept(s) && Apply(s, step).Some?
    requires Apply(s, step).value.answers != s.answers
    ensures |s.answers| < |Apply(s, step).value.answers|
    ensures Justified(Apply(s, step).value.answers[|s.answers|], s.records, s.installs)
  {
    assert s.installs[..|s.installs|] == s.installs;
    if s.records != [] {
      assert s.records[|s.records| - 1] in s.records;
    }
  }

  lemma AnswersStep(s: System, step: Step)
    requires Kept(s) && Apply(s, step).Some?
    ensures AnswersKept(Apply(s, step).value)
  {
    var n := Apply(s, step).value;
    AnswerChanges(s, step);
    forall i | 0 <= i < |n.answers| ensures Justified(n.answers[i], n.records, n.installs) {
      if i < |s.answers| {
        assert n.answers[i] == s.answers[i];
        JustifiedLater(s.answers[i], s, n);
      } else {
        AnswerStep(s, step);
      }
    }
  }

  lemma {:induction false} EveryRunKeeps(steps: seq<Step>)
    requires After(steps).Some?
    ensures Kept(After(steps).value)
  {
    if steps != [] {
      var front, step := steps[..|steps| - 1], steps[|steps| - 1];
      EveryRunKeeps(front);
      var s := After(front).value;
      GateStep(s, step);
      RecordsStep(s, step);
      SendsStep(s, step);
      SendingStep(s, step);
      InstallsStep(s, step);
      AnswersStep(s, step);
    }
  }

  lemma AfterOneMore(steps: seq<Step>, step: Step)
    ensures After(steps + [step]) == if After(steps).None? then None else Apply(After(steps).value, step)
  {
    assert (steps + [step])[..|steps|] == steps;
  }

  /** At most one task at a time is between acquiring the gate and letting go of it. */
  lemma OneRefreshAtATime(steps: seq<Step>, t: nat, u: nat)
    requires After(steps).Some?
    requires t in After(steps).value.tasks && HoldsGate(After(steps).value.tasks[t])
    requires u in After(steps).value.tasks && HoldsGate(After(steps).value.tasks[u])
    ensures t == u
  {
    EveryRunKeeps(steps);
  }
}
