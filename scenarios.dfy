/**
 * The situations exercised by test/series.ts and test/parallel.ts, over the
 * manifests of test/fakes.ts, worked through the model.
 */
module Scenarios {
  import opened Wrappers
  import opened Sequences
  import opened OrderedMaps
  import opened Sorting
  import opened ParallelBuildTracking
  import opened Reading
  import opened Packages

  const Single := "single"
  const Dependent := "dependent"
  const Dev := "dev"
  const Solo := "solo"
  const External := "external"
  const Unknown := "unknown"

  /** The manifest path of a fake package, as the fixtures join it. */
  function PathOf(name: string): string {
    name + "/.json"
  }

  /**
   * The fixture manifests: `dependent` lists `single` and `dev`, `external`
   * lists `single` and an unknown name, and `dev`, `single` and `solo` list
   * nothing.  The fixtures also have empty `optional` and `peer` manifests;
   * no scenario here reads them, so they are left out, and every path not
   * listed here cannot be read.
   */
  function FakeRead(path: string): Result<PackageInfo> {
    if path == PathOf(Dependent) then Success(PackageInfo(NameList([Single]), NameList([Dev])))
    else if path == PathOf(External) then Success(PackageInfo(NameList([Single, Unknown]), Missing))
    else if path in {PathOf(Dev), PathOf(Single), PathOf(Solo)} then Success(PackageInfo(Missing, Missing))
    else Failure("no such file")
  }

  /** `mockPathSettings` for `single` and `dependent`, in the order supplied. */
  function SeriesPaths(names: seq<string>): OrderedMap<string> {
    OrderedMap(names, map[Single := PathOf(Single), Dependent := PathOf(Dependent)])
  }

  /** A single package without dependencies is the whole order. */
  lemma SoloAlone()
    ensures SortOrder(OrderedMap([Solo], map[Solo := []])) == [Solo]
  {
    var g := OrderedMap([Solo], map[Solo := []]);
    assert Elems([Solo]) == {Solo};
    var w0 := Walk({}, []);
    VisitWithDependenciesVisited(g, Solo, w0);
    var w1 := Walk(w0.visited + {Solo}, w0.order + [Solo]);
    assert [Solo][1..] == [];
    assert VisitKeys(g, [Solo], w0) == VisitKeys(g, [], w1);
    assert w1.order == [Solo];
  }

  /** The graph the fixtures give for `single` and `dependent`, in the order supplied. */
  function SeriesGraph(names: seq<string>): DependencyMap {
    OrderedMap(names, map[Single := [], Dependent := [Single, Dev]])
  }

  /** The fixture graph is a valid dependency map. */
  lemma SeriesGraphValid(names: seq<string>)
    requires names == [Single, Dependent] || names == [Dependent, Single]
    ensures IsDependencyMap(SeriesGraph(names))
  {
    assert Elems(names) == {Single, Dependent};
  }

  /** What the resolver makes of the `dependent` and `single` manifests. */
  lemma FixtureSets()
    ensures FakeRead(PathOf(Dependent)).Success? && PackageDependencies(FakeRead(PathOf(Dependent)).value) == [Single, Dev]
    ensures FakeRead(PathOf(Single)).Success? && PackageDependencies(FakeRead(PathOf(Single)).value) == []
  {
    NoCategoriesNoDependencies();
    assert [Single] + [Dev] == [Single, Dev];
    DedupOfDistinct([Single, Dev]);
  }

  /** The paths of `single` and `dependent` form a valid map, and every manifest among them can be read. */
  lemma SeriesPathsReadable(names: seq<string>)
    requires names == [Single, Dependent] || names == [Dependent, Single]
    ensures SeriesPaths(names).Valid()
    ensures forall k :: k in SeriesPaths(names).values ==> FakeRead(SeriesPaths(names).values[k]).Success?
  {
    assert Elems(names) == {Single, Dependent};
    FixtureSets();
  }

  /** A map with the keys `names` and the fixture sets of both packages is the fixture graph. */
  lemma ReadSeriesGraph(names: seq<string>, m: DependencyMap)
    requires m.keys == names && m.values.Keys == {Single, Dependent}
    requires m.values[Single] == PackageDependencies(FakeRead(PathOf(Single)).value)
    requires m.values[Dependent] == PackageDependencies(FakeRead(PathOf(Dependent)).value)
    ensures m == SeriesGraph(names)
  {
    FixtureSets();
    assert m.values == SeriesGraph(names).values;
  }

  /**
   * Reading `single` and `dependent`, in either order, gives `single` no
   * dependencies and `dependent` both `single` and `dev`; `dev` is kept
   * although it is not one of the packages.
   */
  lemma ReadSeriesPackages(names: seq<string>)
    requires names == [Single, Dependent] || names == [Dependent, Single]
    ensures SeriesPaths(names).Valid()
    ensures AllPackageDependencies(FakeRead, SeriesPaths(names)) == Success(SeriesGraph(names))
  {
    var paths := SeriesPaths(names);
    SeriesPathsReadable(names);
    assert Elems(names) == {Single, Dependent};
    AllPackageDependenciesShape(FakeRead, paths);
    var m := AllPackageDependencies(FakeRead, paths).value;
    assert Single in paths.values && Dependent in paths.values;
    assert paths.values[Single] == PathOf(Single) && paths.values[Dependent] == PathOf(Dependent);
    ReadSeriesGraph(names, m);
  }

  /** `mockPathSettings(SINGLE, EXTERNAL)`. */
  function ExternalPaths(): OrderedMap<string> {
    OrderedMap([Single, External], map[Single := PathOf(Single), External := PathOf(External)])
  }

  /** The graph the reading code builds for `single` and `external`: the unknown name stays in. */
  function ExternalGraph(): DependencyMap {
    OrderedMap([Single, External], map[Single := [], External := [Single, Unknown]])
  }

  /** What the resolver makes of the `external` manifest. */
  lemma ExternalSet()
    ensures FakeRead(PathOf(External)).Success?
    ensures PackageDependencies(FakeRead(PathOf(External)).value) == [Single, Unknown]
  {
    assert [Single, Unknown] + [] == [Single, Unknown];
    DedupOfDistinct([Single, Unknown]);
  }

  /** A map with the keys of `single` and `external` and their fixture sets is the graph above. */
  lemma ExternalGraphFrom(m: DependencyMap)
    requires m.keys == [Single, External] && m.values.Keys == {Single, External}
    requires m.values[Single] == PackageDependencies(FakeRead(PathOf(Single)).value)
    requires m.values[External] == PackageDependencies(FakeRead(PathOf(External)).value)
    ensures m == ExternalGraph()
  {
    FixtureSets();
    ExternalSet();
    assert m.values == ExternalGraph().values;
  }

  /** Reading `single` and `external` keeps `unknown` in the set of `external`. */
  lemma ReadExternalPackages(paths: OrderedMap<string>)
    requires paths == ExternalPaths()
    ensures paths.Valid()
    ensures AllPackageDependencies(FakeRead, paths) == Success(ExternalGraph())
  {
    assert Elems(paths.keys) == {Single, External};
    FixtureSets();
    ExternalSet();
    assert forall k :: k in paths.values ==> FakeRead(paths.values[k]).Success?;
    AllPackageDependenciesShape(FakeRead, paths);
    var m := AllPackageDependencies(FakeRead, paths).value;
    assert Single in paths.values && External in paths.values;
    assert paths.values[Single] == PathOf(Single) && paths.values[External] == PathOf(External);
    ExternalGraphFrom(m);
  }

  /** Visited first, `single` is emitted at once. */
  lemma SortedFirstVisit(g: DependencyMap)
    requires g == SeriesGraph([Single, Dependent])
    ensures g.Valid()
    ensures Visit(g, Single, Walk({}, [])) == Walk({Single}, [Single])
  {
    SeriesGraphValid([Single, Dependent]);
    var w0 := Walk({}, []);
    VisitWithDependenciesVisited(g, Single, w0);
    assert w0.visited + {Single} == {Single};
  }

  /** Visited once `single` is done, `dependent` is emitted at once. */
  lemma SortedSecondVisit(g: DependencyMap)
    requires g == SeriesGraph([Single, Dependent])
    ensures g.Valid()
    ensures Visit(g, Dependent, Walk({Single}, [Single])) == Walk({Single, Dependent}, [Single, Dependent])
  {
    SeriesGraphValid([Single, Dependent]);
    assert g.values[Dependent] == [Single, Dev] && Dev !in g.values;
    var w1 := Walk({Single}, [Single]);
    VisitWithDependenciesVisited(g, Dependent, w1);
    assert w1.visited + {Dependent} == {Single, Dependent};
  }

  /** Supplied in the right order, `single` and then `dependent` are emitted on their own turns. */
  lemma SeriesOrderGivenSorted()
    ensures SeriesGraph([Single, Dependent]).Valid()
    ensures SortOrder(SeriesGraph([Single, Dependent])) == [Single, Dependent]
  {
    var names := [Single, Dependent];
    var g := SeriesGraph(names);
    SortedFirstVisit(g);
    SortedSecondVisit(g);
    var w1 := Walk({Single}, [Single]);
    var w2 := Walk({Single, Dependent}, [Single, Dependent]);
    assert names[1..] == [Dependent] && names[1..][1..] == [];
    assert VisitKeys(g, names, Walk({}, [])) == VisitKeys(g, [Dependent], w1);
    assert VisitKeys(g, [Dependent], w1) == VisitKeys(g, [], w2);
  }

  /** Visited first, `dependent` visits `single`, then emits `single` and itself. */
  lemma VisitDependentFirst()
    ensures SeriesGraph([Dependent, Single]).Valid()
    ensures Visit(SeriesGraph([Dependent, Single]), Dependent, Walk({}, [])) ==
      Walk({Dependent, Single}, [Single, Dependent])
  {
    var g := SeriesGraph([Dependent, Single]);
    SeriesGraphValid([Dependent, Single]);
    assert g.values[Single] == [] && g.values[Dependent] == [Single, Dev] && Dev !in g.values;
    var w0 := Walk({}, []);
    var start := Walk(w0.visited + {Dependent}, w0.order);
    VisitWithDependenciesVisited(g, Single, start);
    var mid := Walk(start.visited + {Single}, start.order + [Single]);
    assert [Single, Dev][1..] == [Dev];
    VisitDependenciesAllVisited(g, [Dev], mid);
    assert VisitDependencies(g, [Single, Dev], start) == VisitDependencies(g, [Dev], mid);
    assert mid.visited == {Dependent, Single};
  }

  /** Supplied the wrong way round, `dependent` first visits `single`, which is emitted before it. */
  lemma SeriesOrderGivenReversed()
    ensures SeriesGraph([Dependent, Single]).Valid()
    ensures SortOrder(SeriesGraph([Dependent, Single])) == [Single, Dependent]
  {
    var names := [Dependent, Single];
    var g := SeriesGraph(names);
    VisitDependentFirst();
    var w0 := Walk({}, []);
    var w1 := Walk({Dependent, Single}, [Single, Dependent]);
    assert names[1..] == [Single] && names[1..][1..] == [];
    assert VisitKeys(g, names, w0) == VisitKeys(g, [Single], w1);
    assert VisitKeys(g, [Single], w1) == VisitKeys(g, [], w1);
  }
}
