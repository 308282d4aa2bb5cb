/** Refused initialize requests spend nothing: they can be deleted from a run. */
module RefusedInitializes {
  import opened Runs
  import opened TokenBucket
  import opened BucketMap
  import opened MapRuns
  import opened RefusedRequests
  import opened RateLimit
  import opened LimiterRuns
  import opened InitializeRuns

  /** Only refused calls are deleted. */
  predicate DeletesRefused(q: Quota, calls: seq<Call>, keep: seq<bool>)
    requires |keep| == |calls|
  {
    calls != [] ==>
      && DeletesRefused(q, Before(calls), Before(keep))
      && (Latest(keep) || !Initialized(q, calls))
  }

  lemma SameLastEvent(q: Quota, a: seq<Event>, b: seq<Event>)
    requires a != [] && b != [] && Latest(a) == Latest(b)
    requires MapAfter(q, Before(a)) == MapAfter(q, Before(b))
    ensures MapAfter(q, a) == MapAfter(q, b)
    ensures EvictsLast(q, a) == EvictsLast(q, b)
  {
  }

  /** Deleting calls and passing over their events come to the same. */
  lemma {:induction false} RetainedSubjectRun(q: Quota, calls: seq<Call>, keep: seq<bool>)
    requires |keep| == |calls|
    ensures MapAfter(q, SubjectRun(Retained(calls, keep))) == MapAfter(q, Masked(SubjectRun(calls), keep))
    ensures NeverEvicts(q, Masked(SubjectRun(calls), keep)) ==> NeverEvicts(q, SubjectRun(Retained(calls, keep)))
  {
    if calls != [] {
      var less, run := SubjectRun(Retained(calls, keep)), Masked(SubjectRun(calls), keep);
      RetainedSubjectRun(q, Before(calls), Before(keep));
      RunsOfBefore(calls);
      MaskedBefore(SubjectRun(calls), keep);
      if Latest(keep) {
        RetainedLast(calls, keep);
        RunsOfBefore(Retained(calls, keep));
        SameLastEvent(q, less, run);
      } else {
        PassesOver(q, run);
      }
    }
  }

  lemma {:induction false} RetainedBearerRun(q: Quota, calls: seq<Call>, keep: seq<bool>)
    requires |keep| == |calls|
    ensures MapAfter(q, BearerRun(Retained(calls, keep))) == MapAfter(q, Masked(BearerRun(calls), keep))
    ensures NeverEvicts(q, Masked(BearerRun(calls), keep)) ==> NeverEvicts(q, BearerRun(Retained(calls, keep)))
  {
    if calls != [] {
      var less, run := BearerRun(Retained(calls, keep)), Masked(BearerRun(calls), keep);
      RetainedBearerRun(q, Before(calls), Before(keep));
      RunsOfBefore(calls);
      MaskedBefore(BearerRun(calls), keep);
      if Latest(keep) {
        RetainedLast(calls, keep);
        RunsOfBefore(Retained(calls, keep));
        SameLastEvent(q, less, run);
      } else {
        PassesOver(q, run);
      }
    }
  }

  lemma {:induction false} MaskErasesRefused(q: Quota, calls: seq<Call>, keep: seq<bool>)
    requires |keep| == |calls| && DeletesRefused(q, calls, keep)
    ensures ErasesRefused(q, SubjectRun(calls), Masked(SubjectRun(calls), keep))
    ensures ErasesRefused(q, BearerRun(calls), Masked(BearerRun(calls), keep))
  {
    if calls != [] {
      MaskErasesRefused(q, Before(calls), Before(keep));
      RunsOfBefore(calls);
      MaskedBefore(SubjectRun(calls), keep);
      MaskedBefore(BearerRun(calls), keep);
      InitializeIsTwoMaps(q, calls);
    }
  }

  /** With no least-recently-seen eviction, deleting any set of refused requests leaves every
      other decision of the initialize limiter unchanged, so retries never delay recovery. */
  lemma RefusedInitializesAreErasable(q: Quota, calls: seq<Call>, keep: seq<bool>)
    requires ValidQuota(q) && Capacity(q) <= BUCKET_IDLE_TTL
    requires InOrder(calls) && calls != []
    requires |keep| == |calls| && Latest(keep)
    ensures Undisturbed(q, calls) && DeletesRefused(q, calls, keep) ==>
      var less := Retained(calls, keep);
      && less != [] && Latest(less) == Latest(calls)
      && Initialized(q, less) == Initialized(q, calls)
      && Undisturbed(q, less)
  {
    if Undisturbed(q, calls) && DeletesRefused(q, calls, keep) {
      var less := Retained(calls, keep);
      RunsOfBefore(calls);
      MaskErasesRefused(q, calls, keep);
      RefusedRequestsAreErasable(q, SubjectRun(calls), Masked(SubjectRun(calls), keep));
      RefusedRequestsAreErasable(q, BearerRun(calls), Masked(BearerRun(calls), keep));
      RetainedSubjectRun(q, calls, keep);
      RetainedBearerRun(q, calls, keep);
      RetainedLast(calls, keep);
      RetainedSubjectRun(q, Before(calls), Before(keep));
      RetainedBearerRun(q, Before(calls), Before(keep));
      MaskedBefore(SubjectRun(calls), keep);
      MaskedBefore(BearerRun(calls), keep);
      InitializeIsTwoMaps(q, calls);
      InitializeIsTwoMaps(q, less);
      RunsOfBefore(less);
    }
  }
}
