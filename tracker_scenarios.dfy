/**
 * The situations of test/parallel.ts, worked through the tracker model.  The
 * tests expect names that are not packages to be ignored, which holds on
 * graphs that list only packages, so those graphs are built by hand here; the
 * graph the reading code builds for `single` and `external` shows what
 * happens otherwise.
 */
module TrackerScenarios {
  import opened Wrappers
  import opened Sequences
  import opened OrderedMaps
  import opened ParallelBuildTracking
  import opened Scenarios

  /**
   * A filtered pair: `single`, needing nothing, then `d`, needing only
   * `single`.  With `d` = `dependent` this is the fixture series without the
   * non-package `dev`; with `d` = `external` it is the `external` fixture
   * without the non-package `unknown`.
   */
  function FilteredPair(d: string): DependencyMap {
    OrderedMap([Single, d], map[Single := [], d := [Single]])
  }

  /** What is left once `single` is available: `d`, still waiting for it. */
  function WaitingForSingle(d: string): DependencyMap {
    OrderedMap([d], map[d := [Single]])
  }

  /** Both hand-built graphs are valid dependency maps. */
  lemma FilteredGraphsValid(d: string)
    requires d != Single
    ensures IsDependencyMap(FilteredPair(d)) && IsDependencyMap(WaitingForSingle(d))
  {
    assert Elems(FilteredPair(d).keys) == {Single, d};
    assert Elems(WaitingForSingle(d).keys) == {d};
  }

  /** Without a completed package, only `single`, which needs nothing, is ready. */
  lemma FirstReady(g: DependencyMap, d: string)
    requires d != Single && g == FilteredPair(d)
    ensures Ready(g.keys, g, None) == [Single]
  {
    assert g.keys[..1] == [Single] && g.keys[..1][..0] == [];
    assert Ready(g.keys[..1], g, None) == [Single];
    assert After(g.values[d], None) == [Single];
  }

  /** Taking `single` out of the graph leaves `d` waiting for it. */
  lemma FirstRemaining(g: DependencyMap, d: string)
    requires d != Single && g == FilteredPair(d)
    ensures IsDependencyMap(g)
    ensures DeleteAll(Cleared(g, None), [Single]) == WaitingForSingle(d)
  {
    FilteredGraphsValid(d);
    var c := Cleared(g, None);
    assert c.values == g.values;
    assert [Single][..0] == [];
    assert Remove(c.keys, Single) == [d];
  }

  /** The first sweep makes `single` available and keeps `d` waiting. */
  lemma FirstSweep(d: string)
    requires d != Single
    ensures IsDependencyMap(FilteredPair(d))
    ensures Sweep(FilteredPair(d), None) == Swept(WaitingForSingle(d), [Single])
  {
    FirstReady(FilteredPair(d), d);
    FirstRemaining(FilteredPair(d), d);
  }

  /** Once `single` is complete, `d` is ready. */
  lemma SecondReady(g: DependencyMap, d: string)
    requires g == WaitingForSingle(d)
    ensures Ready(g.keys, g, Some(Single)) == [d]
  {
    assert g.keys[..0] == [];
    assert After([Single], Some(Single)) == [];
  }

  /** Taking `d` out leaves nothing. */
  lemma SecondRemaining(g: DependencyMap, d: string)
    requires d != Single && g == WaitingForSingle(d)
    ensures IsDependencyMap(g)
    ensures DeleteAll(Cleared(g, Some(Single)), [d]) == EmptyMap()
  {
    FilteredGraphsValid(d);
    var c := Cleared(g, Some(Single));
    assert [d][..0] == [];
    assert Remove(c.keys, d) == [];
    assert c.values - {d} == map[];
  }

  /** Completing `single` makes `d` available, and nothing is left. */
  lemma SecondSweep(d: string)
    requires d != Single
    ensures IsDependencyMap(WaitingForSingle(d))
    ensures Sweep(WaitingForSingle(d), Some(Single)) == Swept(EmptyMap(), [d])
  {
    SecondReady(WaitingForSingle(d), d);
    SecondRemaining(WaitingForSingle(d), d);
  }

  /** With nothing left, completing any package makes nothing available. */
  lemma CompletingLastFreesNothing(p: string)
    ensures Sweep(EmptyMap(), Some(p)) == Swept(EmptyMap(), [])
  {
    var s := Sweep(EmptyMap(), Some(p));
    DistinctFewElements(s.finished, p);
    DistinctFewElements(s.remaining.keys, p);
  }

  /** `new ParallelBuildTracker` for the pair: `single` is available at once. */
  method StartFilteredPair(d: string) returns (tracker: ParallelBuildTracker)
    requires d != Single
    ensures fresh(tracker) && tracker.Valid()
    ensures tracker.availablePackages == [Single] && tracker.dependencies == WaitingForSingle(d)
  {
    FirstSweep(d);
    tracker := new ParallelBuildTracker(FilteredPair(d));
  }

  /** Completing `single` returns `d` and leaves nothing pending. */
  method CompleteSingle(tracker: ParallelBuildTracker, d: string) returns (newly: seq<string>)
    requires d != Single && tracker.Valid()
    requires tracker.availablePackages == [Single] && tracker.dependencies == WaitingForSingle(d)
    modifies tracker
    ensures tracker.Valid() && newly == [d]
    ensures tracker.availablePackages == [Single, d] && tracker.dependencies == EmptyMap()
  {
    SecondSweep(d);
    newly := tracker.MarkCompleted(Single);
  }

  /** Once nothing is pending, sweeping or completing `d` changes nothing. */
  method FinishFilteredPair(tracker: ParallelBuildTracker, d: string) returns (available: seq<string>, last: seq<string>)
    requires tracker.Valid()
    requires tracker.availablePackages == [Single, d] && tracker.dependencies == EmptyMap()
    modifies tracker
    ensures available == [Single, d] && last == []
    ensures tracker.Valid() && tracker.availablePackages == [Single, d] && tracker.dependencies == EmptyMap()
  {
    CompletingLastFreesNothing(d);
    available := tracker.GetAvailablePackages();
    last := tracker.MarkCompleted(d);
  }

  /**
   * The tracker for `single` and `dependent`, filtered: `single` is available
   * at once; completing it returns `dependent`, after which both are
   * available; completing `dependent` then returns nothing.
   */
  method TrackFilteredSeries() returns (initial: seq<string>, newly: seq<string>, available: seq<string>, last: seq<string>)
    ensures initial == [Single]
    ensures newly == [Dependent] && available == [Single, Dependent]
    ensures last == []
  {
    var tracker := StartFilteredPair(Dependent);
    initial := tracker.GetAvailablePackages();
    newly := CompleteSingle(tracker, Dependent);
    available, last := FinishFilteredPair(tracker, Dependent);
  }

  /**
   * The tracker for `single` and `external`, filtered to package names:
   * completing `single` returns `external`.
   */
  method TrackFilteredExternal() returns (initial: seq<string>, newly: seq<string>)
    ensures initial == [Single] && newly == [External]
  {
    var tracker := StartFilteredPair(External);
    initial := tracker.GetAvailablePackages();
    newly := CompleteSingle(tracker, External);
  }

  /** `external`, pending on `single` and on `unknown`, which is not a package. */
  function ExternalWaiting(): DependencyMap {
    OrderedMap([External], map[External := [Single, Unknown]])
  }

  /** `external` once `single` is complete: still pending on `unknown`. */
  function ExternalStuck(): DependencyMap {
    OrderedMap([External], map[External := [Unknown]])
  }

  /** The graphs of the `external` scenario are valid dependency maps. */
  lemma ExternalGraphsValid()
    ensures IsDependencyMap(ExternalGraph()) && IsDependencyMap(ExternalWaiting()) && IsDependencyMap(ExternalStuck())
  {
    assert Elems(ExternalGraph().keys) == {Single, External};
    assert Elems(ExternalWaiting().keys) == {External};
    assert Elems(ExternalStuck().keys) == {External};
  }

  /** Without a completed package, only `single` is ready in the read graph. */
  lemma ExternalFirstReady(g: DependencyMap)
    requires g == ExternalGraph()
    ensures Ready(g.keys, g, None) == [Single]
  {
    assert g.keys[..1] == [Single] && g.keys[..1][..0] == [];
    assert Ready(g.keys[..1], g, None) == [Single];
    assert After(g.values[External], None) == [Single, Unknown];
  }

  /** Taking `single` out of the read graph leaves `external` pending on both its names. */
  lemma ExternalFirstRemaining(g: DependencyMap)
    requires g == ExternalGraph()
    ensures IsDependencyMap(g)
    ensures DeleteAll(Cleared(g, None), [Single]) == ExternalWaiting()
  {
    ExternalGraphsValid();
    var c := Cleared(g, None);
    assert c.values == g.values;
    assert [Single][..0] == [];
    assert Remove(c.keys, Single) == [External];
  }

  /** The first sweep of the read graph finds `single` and leaves `external` pending. */
  lemma ExternalFirstSweep()
    ensures IsDependencyMap(ExternalGraph())
    ensures Sweep(ExternalGraph(), None) == Swept(ExternalWaiting(), [Single])
  {
    ExternalFirstReady(ExternalGraph());
    ExternalFirstRemaining(ExternalGraph());
  }

  /** Completing `single` takes it out of the set, but `unknown` keeps `external` pending. */
  lemma ExternalSecondSweep(g: DependencyMap)
    requires g == ExternalWaiting()
    ensures IsDependencyMap(g)
    ensures Sweep(g, Some(Single)) == Swept(ExternalStuck(), [])
  {
    ExternalGraphsValid();
    assert g.keys[..0] == [];
    assert [Single, Unknown][1..] == [Unknown];
    assert After([Single, Unknown], Some(Single)) == [Unknown];
    var c := Cleared(g, Some(Single));
    assert c.values == ExternalStuck().values;
  }

  /**
   * The tracker the reading code builds for `single` and `external`: `single`
   * is available at once, and completing it makes nothing available, since
   * `external` still waits for `unknown`.
   */
  method TrackExternal() returns (initial: seq<string>, newly: seq<string>)
    ensures initial == [Single] && newly == []
  {
    ReadExternalPackages(ExternalPaths());
    ExternalGraphsValid();
    ExternalFirstSweep();
    ExternalSecondSweep(ExternalWaiting());
    var tracker := new ParallelBuildTracker(ExternalGraph());
    initial := tracker.GetAvailablePackages();
    newly := tracker.MarkCompleted(Single);
  }
}
