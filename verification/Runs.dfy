/** What the state machines of the project share: runs as sequences of events, and instants. */
module Runs {

  /** Instants and durations are whole nanoseconds. */
  const SECOND: nat := 1_000_000_000

  /** A run without its last event. */
  function Before<T>(run: seq<T>): seq<T>
    requires run != []
  {
    run[..|run| - 1]
  }

  /** The last event of a run. */
  function Latest<T>(run: seq<T>): T
    requires run != []
  {
    run[|run| - 1]
  }

  lemma {:induction false} SubsetSize<T>(a: set<T>, b: set<T>)
    requires a <= b
    ensures |a| <= |b|
    ensures |a| == |b| ==> a == b
    decreases a
  {
    if x :| x in a {
      SubsetSize(a - {x}, b - {x});
    }
  }

  /** A map with fewer keys is not larger, and a map of the same size has the same keys. */
  lemma SubmapSize<K, V>(a: map<K, V>, b: map<K, V>)
    requires a.Keys <= b.Keys
    ensures |a| <= |b|
    ensures |a| == |b| ==> a.Keys == b.Keys
  {
    SubsetSize(a.Keys, b.Keys);
    assert |a| == |a.Keys| && |b| == |b.Keys|;
  }

  /** The events whose flag is set. */
  function Retained<T>(run: seq<T>, keep: seq<bool>): seq<T>
    requires |keep| == |run|
  {
    if run == [] then [] else
      var rest := Retained(Before(run), Before(keep));
      if Latest(keep) then rest + [Latest(run)] else rest
  }

  lemma RetainedLast<T>(run: seq<T>, keep: seq<bool>)
    requires |keep| == |run| && run != [] && Latest(keep)
    ensures Retained(run, keep) != [] && Latest(Retained(run, keep)) == Latest(run)
    ensures Before(Retained(run, keep)) == Retained(Before(run), Before(keep))
  {
  }
}
