# package-build-order, modelled in Dafny

package-build-order computes a safe build order for a set of interdependent
packages. It has three stages:

- It reads each package's manifest. It then builds an ordered map from each
  package name to the set of names listed under its `dependencies` and
  `devDependencies`.
- It sorts that map depth-first. Every package is emitted after the
  dependencies it visits.
- A parallel build can use a tracker instead of the sort. The tracker hands
  out the packages whose dependencies are all complete. It then hands out
  more packages each time a package is reported complete.

Around these stages sit small normalisers. They turn a `Map` or a plain
object of package paths into a fresh `Map`. They add default settings and
drop a leading byte order mark from a file's text.

## How the model is organised

- `wrappers.dfy` holds `Option` and `Result`. A `Failure` carries the error
  text.
- `sequences.dfy` holds facts about sequences used as ordered collections:
  - `Distinct` and `Elems`;
  - `Remove`, which is `Set.prototype.delete` on a list without repetitions;
  - `InOrderOf`, which says one sequence keeps the relative order of another.
- `ordered_maps.dfy` models a JavaScript `Map<string, V>` as
  `OrderedMap(keys, values)`.
  - `keys` are the insertion order, without repetitions.
  - `values` holds exactly those keys.
  - `Set` and `Delete` follow `Map.prototype.set` and `delete`: a new key
    goes last, an existing key keeps its place, and deleting keeps the order
    of the rest.
  - `DependencyMap` is `Map<string, Set<string>>`. Each `Set` is a list
    without repetitions, in its iteration order.
- `sorting.dfy` models `sortPackages` and its recursive `visitPackage`
  closure (src/sorting.ts).
  - `Visit`, `VisitDependencies` and `VisitKeys` are the walk as values.
  - The class `OrderGenerator` holds the closure's mutable state: the visited
    names and the `order` array.
  - Its methods are proved to compute exactly those functions.
  - Lemmas prove that the order lists every key exactly once. On an acyclic
    graph every package comes after its key dependencies. With no edges
    between keys, the order is the insertion order.
- `parallel_build_tracker.dfy` models the class `ParallelBuildTracker` and
  `filterCompletedDependencies`.
  - `Sweep` states what one sweep means.
  - The class keeps the invariant `Valid()`:
    - the map is a dependency map;
    - the available list has no repetitions;
    - no package is both available and pending;
    - no pending package has an empty set.
  - The two loops of the sweep are methods proved against `Sweep`.
- `reading.dfy` models `getAllPackageDependencies`, `getPackageDependencies`
  and `flatten` over a resolver. The resolver is a function parameter that
  stands for reading and parsing the manifest at a path, and it may fail.
- `packages.dfy`, `settings.dfy` and `read_file_without_bom.dfy` model
  `normalizePackagePaths`, `normalizeSettings`, and the strip step of
  `readFileWithoutBom`.
- `scenarios.dfy` and `tracker_scenarios.dfy` work the situations of
  test/series.ts and test/parallel.ts through the model. They use the
  fixture manifests of test/fakes.ts.

### Where the code and its tests disagree

The model follows the code.

- **Unknown names are not filtered.** The tests of the tracker expect names
  that are not packages to be ignored:
  - test/parallel.ts:98-108 expects `getAvailablePackages` to give
    `[SINGLE, DEPENDENT]` once `single` has completed;
  - test/parallel.ts:112-121 expects `markCompleted(SINGLE)` to return
    `[DEPENDENT]`;
  - test/parallel.ts:123-132 expects `markCompleted(SINGLE)` to return
    `[EXTERNAL]`, although `external` also lists `unknown`.
  - src/reading.ts:35-42 keeps every name, and nothing else in the core
    filters.
  - The sort ignores such names, because it follows only keys
    (src/sorting.ts:33). The tracker does not ignore them
    (src/parallel/parallelBuildTracker.ts:61-69).
  - `Scenarios.ReadExternalPackages` shows `unknown` kept in the set of
    `external`.
  - `TrackerScenarios.TrackExternal` shows the consequence on the graph the
    code builds. Completing `single` makes nothing available, because
    `external` still waits for `unknown`.
  - The same holds for the series graph the reading code builds from the
    fixture manifests. `dependent` lists the non-package `dev`
    (test/fakes.ts:22-27), so after `single` completes it keeps waiting for
    `dev`. On that graph the model gives `[SINGLE]` where
    test/parallel.ts:98-108 expects `[SINGLE, DEPENDENT]`, and `[]` where
    test/parallel.ts:112-121 expects `[DEPENDENT]`. This is the model's
    outcome, not a claim about what the tests do when they are run: the
    tests reach the tracker through src/parallel.ts, which does not fit the
    reading code (see "## Left out").
  - The expectations of test/parallel.ts:98-108, 112-121 and 123-132 hold on
    graphs already filtered to package names. `TrackerScenarios` states them
    on such hand-built graphs: `TrackFilteredSeries` for the series and
    `TrackFilteredExternal` for `external`.
- **Only two categories are read.** src/settings.ts:5-20 declares flags that
  exclude the development, optional and peer categories. src/reading.ts:36-41
  reads only `dependencies` and `devDependencies`, and never consults those
  flags.

## Model

| member | source | states |
|---|---|---|
| Sequences.Remove | src/parallel/parallelBuildTracker.ts:63 | `Set.delete` on a set: the result holds exactly the other elements, is unchanged when the element is absent, and keeps having no repetitions |
| OrderedMaps.OrderedMap.Set | src/reading.ts:23 | `Map.set`: the entry is stored, a new key is appended to the key order, an existing key keeps its place, and the map stays valid |
| OrderedMaps.OrderedMap.Delete | src/parallel/parallelBuildTracker.ts:72 | `Map.delete`: the entry goes, the remaining keys keep their order, and the map stays valid |
| OrderedMaps.EmptyMap | src/reading.ts:20 | `new Map()` has no keys and no entries |
| OrderedMaps.SetNewKey | src/reading.ts:23 | setting a new key to a set keeps a dependency map, appends the key, stores the set, and leaves every other entry as it was |
| Sorting.Visit | src/sorting.ts:23-40 | a visit terminates on every graph, cyclic ones included, because each nested visit starts with one more key marked. It leaves the walk tidy: emitted names are distinct and were visited, and only keys are visited. The visited name is marked, the order is only extended, the names newly emitted are exactly the names newly visited, and the same visits are open as before |
| Sorting.VisitDependencies | src/sorting.ts:30-37 | the dependency loop keeps the same facts. Afterwards every dependency that is a key has been visited, and a name that is not a key is never visited |
| Sorting.VisitKeys | src/sorting.ts:42-44 | the key loop keeps the same facts. Afterwards every listed key has been visited |
| Sorting.OrderGenerator.constructor | src/sorting.ts:8-10 | the walk starts from an empty visited map and an empty order over the given packages |
| Sorting.OrderGenerator.VisitPackage | src/sorting.ts:23-40 | the closure's updates to `visited` and `order` produce exactly the walk `Visit` describes |
| Sorting.OrderGenerator.GenerateOrder | src/sorting.ts:42-44 | the loop over the keys produces exactly the walk `VisitKeys` describes |
| Sorting.SortPackages | src/sorting.ts:7-13 | the returned order is the walk over all keys from an empty state. It lists every key exactly once and nothing else; the input map is only read |
| Sorting.SortOrderIsPermutation | src/sorting.ts:42-44 | over all keys, the order has no repetitions and is a permutation of the key list |
| Sorting.ClosingCycle | src/sorting.ts:24-28 | meeting a package whose visit is still open closes a cycle of dependency edges |
| Sorting.VisitEmitsDependenciesFirst | src/sorting.ts:23-40 | on an acyclic graph a visit emits its package, and every emitted package follows each of its key dependencies |
| Sorting.VisitDependenciesEmitFirst | src/sorting.ts:32-36 | on an acyclic graph the dependency loop emits every key dependency and keeps dependencies first |
| Sorting.VisitKeysEmitFirst | src/sorting.ts:42-44 | on an acyclic graph the key loop keeps every emitted package after its key dependencies |
| Sorting.SortPlacesDependenciesFirst | src/sorting.ts:30-39 | for an acyclic graph, every package in the order is a key and has a larger index than each of its dependencies |
| Sorting.VisitDependenciesWithoutKeys | src/sorting.ts:33 | a dependency loop over names that are not keys changes nothing |
| Sorting.LeafVisited | src/sorting.ts:23-40 | without edges between keys, a fresh key is emitted on its own turn, and the rest stay unvisited |
| Sorting.VisitKeysWithoutEdges | src/sorting.ts:42-44 | without edges between keys, fresh keys are emitted in the order they are listed |
| Sorting.SortWithoutEdgesKeepsKeyOrder | src/sorting.ts:42-44 | with no edges between keys the order equals the key insertion order; the empty map gives the empty order |
| Sorting.VisitDependenciesAllVisited | src/sorting.ts:24-26 | a dependency loop over names that are all already visited, or are not keys, changes nothing |
| Sorting.VisitWithDependenciesVisited | src/sorting.ts:23-40 | an unvisited package whose key dependencies are all visited is marked and emitted at once |
| ParallelBuildTracking.Cleared | src/parallel/parallelBuildTracker.ts:61-64 | deleting the completed name from every set keeps a dependency map with the same keys in the same order |
| ParallelBuildTracking.ReadyMembers | src/parallel/parallelBuildTracker.ts:66-68 | a key is pushed if and only if it is listed and its set is empty once the completed name is deleted |
| ParallelBuildTracking.ReadyInOrder | src/parallel/parallelBuildTracker.ts:61-69 | the pushed keys have no repetitions and come in key order |
| ParallelBuildTracking.DeleteAll | src/parallel/parallelBuildTracker.ts:71-73 | deleting the finished keys one after another keeps a valid map |
| ParallelBuildTracking.DeleteAllLeavesTheRest | src/parallel/parallelBuildTracker.ts:71-73 | after the deletions, exactly the other entries are left, unchanged, with the remaining keys in their old order |
| ParallelBuildTracking.Sweep | src/parallel/parallelBuildTracker.ts:58-76 | a sweep finishes exactly the keys whose set is empty once the completed name is deleted, in key order and without repetitions. Every other key stays, in order, with its set minus the completed name. No key is added and no remaining set is empty |
| ParallelBuildTracking.ClearedAlong | src/parallel/parallelBuildTracker.ts:61-64 | the first loop never adds or removes a key of the map |
| ParallelBuildTracking.ClearedAlongAt | src/parallel/parallelBuildTracker.ts:61-64 | a set has lost the completed name exactly when the loop has reached its key |
| ParallelBuildTracking.ClearedAlongAll | src/parallel/parallelBuildTracker.ts:61-69 | once the loop has passed every key, every set has lost the completed name |
| ParallelBuildTracking.NothingReady | src/parallel/parallelBuildTracker.ts:66-68 | when no listed set is empty after the deletion, nothing is pushed |
| ParallelBuildTracking.SweepWithoutCompletionIsIdle | src/parallel/parallelBuildTracker.ts:30-34 | once no pending set is empty, a sweep without a completed package finds nothing and changes nothing |
| ParallelBuildTracking.SweepUnrelatedCompletionIsIdle | src/parallel/parallelBuildTracker.ts:62-69 | completing a name that no pending package waits for (unknown, or already finished) finds nothing and changes nothing |
| ParallelBuildTracking.ParallelBuildTracker.constructor | src/parallel/parallelBuildTracker.ts:20-23 | after construction the tracker is valid. Its list is exactly the keys with an empty set, in key order, and those keys have left the map, which is what the first sweep leaves |
| ParallelBuildTracking.ParallelBuildTracker.GetAvailablePackages | src/parallel/parallelBuildTracker.ts:30-34 | a sweep without a completed package appends what it finishes, and the whole list is returned. When the tracker was valid the state is unchanged, so two calls in a row return the same list |
| ParallelBuildTracking.ParallelBuildTracker.MarkCompleted | src/parallel/parallelBuildTracker.ts:42-48 | it returns exactly the packages the sweep with the completed name finishes. The old list is a prefix of the new list, and the returned packages are the rest. The tracker stays valid, so no package is ever reported twice |
| ParallelBuildTracking.ParallelBuildTracker.AppendKeepsCoherent | src/parallel/parallelBuildTracker.ts:45 | appending a sweep's finished packages to the list keeps it free of repetitions and apart from the packages still pending |
| ParallelBuildTracking.ParallelBuildTracker.FilterCompletedDependencies | src/parallel/parallelBuildTracker.ts:58-76 | running both loops on the tracker's map leaves exactly the map `Sweep` describes and returns its finished packages |
| ParallelBuildTracking.CompleteEach | src/parallel/parallelBuildTracker.ts:42-48 | reporting a sequence of packages complete, one sweep each, keeps a dependency map |
| ParallelBuildTracking.CompleteEachReports | src/parallel/parallelBuildTracker.ts:42-48 | along the completions no package is handed out twice, each package is either handed out or still pending, and the pending sets have lost every completed name. When no set of the starting map is empty, no pending set is ever empty |
| ParallelBuildTracking.CompleteStep | src/parallel/parallelBuildTracker.ts:42-48 | one more completion keeps those facts |
| ParallelBuildTracking.CompletingEveryPackageReportsEachOnce | src/parallel/parallelBuildTracker.ts:20-48 | when every dependency is a package, building the tracker and then reporting every package complete hands out each package exactly once, and nothing is left pending |
| ParallelBuildTracking.RoundTrip | src/parallel/parallelBuildTracker.ts:20-48 | the counting behind it: the first sweep's packages and the later ones together are every key, once each, and the map is empty |
| ParallelBuildTracking.LeftoverSetsEmpty | src/parallel/parallelBuildTracker.ts:61-64 | once every package is reported, every set still pending has lost all its names |
| ParallelBuildTracking.NothingLeftPending | src/parallel/parallelBuildTracker.ts:66-73 | because an empty set is always taken out, a map of only empty sets is empty |
| ParallelBuildTracking.CompletingInBuildOrderReportsEachOnce | src/parallel/parallelBuildTracker.ts:20-48 | in particular, reporting the packages complete in the order `sortPackages` gives hands out each package exactly once |
| ParallelBuildTracking.AppendAssociates | src/parallel/parallelBuildTracker.ts:45 | appending the packages of one call after another is appending them all at once |
| ParallelBuildTracking.Start | src/parallel/parallelBuildTracker.ts:20-34 | a new tracker is valid and hands out what the first sweep finishes, keeping the rest pending. Its list is exactly what it handed out |
| ParallelBuildTracking.CompleteNext | src/parallel/parallelBuildTracker.ts:42-48 | one `markCompleted` call advances the tracker by one step of `CompleteEach`, and appends the returned packages to its list |
| ParallelBuildTracking.CompleteFrom | src/parallel/parallelBuildTracker.ts:42-48 | calling `markCompleted` for each name in turn hands out exactly what `CompleteEach` describes. The tracker stays valid, its map is what `CompleteEach` leaves, and its list gains exactly the packages handed out |
| ParallelBuildTracking.CompleteAll | src/parallel/parallelBuildTracker.ts:20-48 | the tracker's whole output for a run is the first sweep's packages followed by `CompleteEach`'s. When every dependency is a package and every package is reported, that output lists each package exactly once |
| ParallelBuildTracking.ClearCompleted | src/parallel/parallelBuildTracker.ts:61-69 | the first loop deletes the completed name from every set and returns the keys whose set is then empty, in key order |
| ParallelBuildTracking.DeleteFinished | src/parallel/parallelBuildTracker.ts:71-73 | the second loop deletes each finished key from the map in turn |
| Reading.Flatten | src/reading.ts:64-68 | a missing category gives no names, and an array gives its elements. An object gives each of its keys once, and its values are discarded |
| Reading.DedupMembers | src/reading.ts:38-41 | `new Set(names)` holds every given name, and nothing else, exactly once |
| Reading.DedupInOrder | src/reading.ts:38-41 | the set keeps the order in which the names first occur |
| Reading.DedupPrefix | src/reading.ts:38-41 | the set of `a` followed by `b` begins with the set of `a` |
| Reading.DedupOfDistinct | src/reading.ts:38-41 | a list without repetitions is its own set |
| Reading.PackageDependenciesAreUnion | src/reading.ts:35-42 | a package's set is the union of both categories, each name once. The `dependencies` names come first, and a repeated name keeps its first place |
| Reading.PackageDependenciesDistinct | src/reading.ts:38-41 | a package's set has no repetitions |
| Reading.NoCategoriesNoDependencies | src/reading.ts:64 | a manifest with neither category gives the empty set |
| Reading.GetPackageDependencies | src/reading.ts:35-42 | it succeeds if and only if the manifest can be read, and otherwise carries the read's error. On success the set has no repetitions and holds exactly the names of both categories |
| Reading.Gathered | src/reading.ts:22-24 | a successful build is a valid ordered map |
| Reading.GetAllPackageDependencies | src/reading.ts:19-27 | the loop reads the packages in key order and returns the map the fold describes, or the failure of the first read that fails |
| Reading.FailureStaysFailure | src/reading.ts:22-24 | once a read has failed, reading further packages keeps that failure |
| Reading.GatheredSucceeds | src/reading.ts:22-24 | the build succeeds if and only if every listed manifest can be read |
| Reading.GatheredShape | src/reading.ts:20-26 | when every read succeeds, the map has exactly the listed keys in the listed order, each with the set of its own manifest. Names that are not packages are kept |
| Reading.GatheredShapeStep | src/reading.ts:23 | setting one more package's set keeps a dependency map, extends the keys by that package, and keeps every earlier set |
| Reading.AllPackageDependenciesShape | src/reading.ts:19-27 | the build succeeds if and only if every manifest can be read. It then has the keys of the paths map, in their order, each with its package's set |
| Reading.GatheredFirstFailure | src/reading.ts:22-24 | the reported failure is that of the first package, in key order, whose read fails |
| Packages.PackagePaths.ForInKeys | src/packages.ts:20 | `for...in` visits the own keys first and then the inherited keys; it visits exactly the names that are own or inherited keys |
| Packages.PackagePaths.Entries | src/packages.ts:13-27 | the entries the normalised map holds form a valid ordered map |
| Packages.Unshadowed | src/packages.ts:20 | the inherited keys visited are exactly those that no own key shadows |
| Packages.Take | src/packages.ts:18-24 | the first entries of a valid map form a valid map with the first keys |
| Packages.TakeStep | src/packages.ts:22 | setting the next own key extends the copied prefix by one entry |
| Packages.TakeAll | src/packages.ts:26 | all entries of a valid map are the map itself |
| Packages.NormalizePackagePaths | src/packages.ts:13-27 | a `Map` gives the same entries in the same order. An object gives exactly its own keys, each with its value, in enumeration order; inherited keys are skipped, and an empty input gives an empty map |
| Settings.Merge | src/settings.ts:44-49 | a property of the literal is the supplied value when the spread supplies one, `undefined` included, and otherwise the default |
| Settings.NormalizeSettings | src/settings.ts:43-52 | `paths` is always the normalised copy of the supplied paths, and a valid map. Each flag is `false` or the supplied value, and the reader is the default or the supplied one |
| Settings.OmittedFieldsGetDefaults | src/settings.ts:44-48 | settings that supply only the paths get `false` for each exclude flag, the default reader, and the normalised paths |
| Settings.SuppliedFieldsWin | src/settings.ts:44-50 | each supplied flag and a supplied reader override the default, even an explicit `undefined`. Each property left out gets its default, and `paths` is the normalised copy |
| Settings.NormalizeSettingsIdempotent | src/settings.ts:43-52 | normalising settings that are already normalised gives the same object |
| ReadFileWithoutBom.StripBom | src/readFileWithoutBom.ts:8-10 | a character is dropped if and only if the text begins with U+FEFF, and the text is the result with that one mark in front |
| ReadFileWithoutBom.StripBomIsShortSuffix | src/readFileWithoutBom.ts:8-10 | the result is a suffix of the text, at most one character shorter |
| ReadFileWithoutBom.StripBomUndoesOneMark | src/readFileWithoutBom.ts:9 | a mark put in front is removed, and a second mark survives |
| ReadFileWithoutBom.StripBomKeepsUnmarkedText | src/readFileWithoutBom.ts:8-10 | text not beginning with the mark, the empty text included, is returned unchanged |
| Scenarios.SoloAlone | test/series.ts:19-25 | `solo` alone sorts to `[solo]` |
| Scenarios.SeriesGraphValid | test/fakes.ts:21-36 | the graph of `single` and `dependent` is a dependency map in either key order |
| Scenarios.FixtureSets | test/fakes.ts:22-34 | the `dependent` manifest gives `[single, dev]`, and `single` gives the empty set |
| Scenarios.SeriesPathsReadable | test/fakes.ts:46-54 | the fixture paths form a valid map, and every manifest they name can be read |
| Scenarios.ReadSeriesGraph | test/fakes.ts:21-36 | a map with these keys and the fixture sets is the fixture graph |
| Scenarios.ReadSeriesPackages | src/reading.ts:19-27 | reading `single` and `dependent`, in either order, gives the fixture graph, with `dev` kept in the set of `dependent` |
| Scenarios.ExternalSet | test/fakes.ts:29-31 | the `external` manifest gives `[single, unknown]` |
| Scenarios.ExternalGraphFrom | test/fakes.ts:29-31 | a map with the keys `single`, `external` and their fixture sets is the graph of the `external` scenario |
| Scenarios.ReadExternalPackages | src/reading.ts:35-42 | reading `single` and `external` keeps `unknown` in the set of `external` |
| Scenarios.SortedFirstVisit | test/series.ts:27-33 | visited first, `single` is emitted at once |
| Scenarios.SortedSecondVisit | test/series.ts:27-33 | once `single` is done, `dependent` is emitted at once |
| Scenarios.SeriesOrderGivenSorted | test/series.ts:27-33 | `single, dependent` sorts to `[single, dependent]` |
| Scenarios.VisitDependentFirst | test/series.ts:35-41 | visited first, `dependent` emits `single` and then itself |
| Scenarios.SeriesOrderGivenReversed | test/series.ts:35-41 | `dependent, single` sorts to `[single, dependent]` |
| TrackerScenarios.FilteredGraphsValid | test/parallel.ts:98-132 | the hand-built graphs of a package waiting only for `single` (the series without `dev`, or `external` without `unknown`) are dependency maps |
| TrackerScenarios.FirstReady | test/parallel.ts:98-108 | on such a graph, without a completed package only `single` is ready |
| TrackerScenarios.FirstRemaining | test/parallel.ts:98-108 | taking `single` out leaves the other package waiting for it |
| TrackerScenarios.FirstSweep | test/parallel.ts:98-108 | the first sweep makes `single` available and keeps the other package pending |
| TrackerScenarios.SecondReady | test/parallel.ts:112-132 | once `single` is complete, the other package is ready |
| TrackerScenarios.SecondRemaining | test/parallel.ts:112-132 | taking that package out leaves nothing pending |
| TrackerScenarios.SecondSweep | test/parallel.ts:112-132 | completing `single` makes the other package available and leaves nothing pending |
| TrackerScenarios.CompletingLastFreesNothing | test/parallel.ts:134-144 | with nothing pending, completing any package makes nothing available |
| TrackerScenarios.StartFilteredPair | test/parallel.ts:98-108 | a new tracker for such a graph has `single` available and the other package pending on it |
| TrackerScenarios.CompleteSingle | test/parallel.ts:112-132 | completing `single` returns the other package alone, and both packages are then available |
| TrackerScenarios.FinishFilteredPair | test/parallel.ts:134-144 | once nothing is pending the list stays `single` and the other package, and completing that package returns `[]`. The tracker stays valid with that list and nothing pending |
| TrackerScenarios.TrackFilteredSeries | test/parallel.ts:98-144 | in the series, `single` is available at once, completing it returns `[dependent]` with both available, and completing `dependent` then returns `[]` |
| TrackerScenarios.TrackFilteredExternal | test/parallel.ts:123-132 | on the graph of `external` without `unknown`, `single` is available at once and completing it returns `[external]`, as the test expects |
| TrackerScenarios.ExternalGraphsValid | test/parallel.ts:123-132 | the graphs of the `external` scenario are dependency maps |
| TrackerScenarios.ExternalFirstReady | test/parallel.ts:123-132 | in the graph as read, only `single` is ready at first |
| TrackerScenarios.ExternalFirstRemaining | test/parallel.ts:123-132 | taking `single` out leaves `external` pending on both of its names |
| TrackerScenarios.ExternalFirstSweep | test/parallel.ts:123-132 | the first sweep finds `single` and leaves `external` pending |
| TrackerScenarios.ExternalSecondSweep | test/parallel.ts:123-132 | completing `single` removes it from the set of `external`, but `unknown` keeps `external` pending |
| TrackerScenarios.TrackExternal | test/parallel.ts:123-132 | on the graph the code as written builds, completing `single` returns `[]`, not the `[external]` the test expects |

## Left out

- File and JSON input are left out. `fs.readFile`, `JSON.parse`, `path.join`
  and the `.json` suffix rule of `getPackageContents`
  (src/reading.ts:49-56) become the resolver parameter. Its failure is an
  opaque error text.
- `readFile` and the `toString` call of src/readFileWithoutBom.ts:6 are
  left out. The model starts from the text already read.
- The default reader closure of src/settings.ts:48 is an opaque value of a
  type parameter.
- `Settings.NormalizeSettings` keeps only the five fields of `ISettings`. The
  spread of src/settings.ts:49 also copies any other own enumerable property
  of the object passed in; those extra properties are not modelled.
- `async`/`await` are left out. The reads happen one after another, which
  is the order the sequential `await` gives.
- src/series.ts and src/parallel.ts are not modelled, and they do not fit
  the reading code as it stands. They pass the whole normalised settings
  object to `getAllPackageDependencies` (src/series.ts:13,
  src/parallel.ts:13). That function expects a `Map` of paths and iterates
  it with `for...of` (src/reading.ts:19-22). It reads each manifest with
  `fs.readFile` (src/reading.ts:53), never the `fileReader` the tests pass
  (test/parallel.ts:27). src/settings.ts:3 imports an `IFileReader` that
  src/reading.ts does not export. The tests were evidently written against
  a different src/reading.ts. The model reads through the resolver
  parameter, and the scenarios apply it to the fixture manifests directly.
- src/index.ts is an older duplicate of the entry points. Its own
  `normalizePackagePaths` returns the caller's `Map` itself rather than a
  copy (src/index.ts:16-19). It is not modelled.
- The peer and optional categories and the exclude flags are left out,
  because the code shown reads neither.
- Aliasing is not modelled.
  - `normalizePackagePaths` returns a new `Map`, but the model works on
    values, so "a copy, not the caller's object" holds by construction.
  - The tracker keeps an alias of the caller's map
    (src/parallel/parallelBuildTracker.ts:21) and returns its own array
    (line 33). The model gives the tracker its own state and returns
    sequence values.
  - The `Set` values are edited in place in the first loop. The loop is
    modelled on map values, which the tracker's method then stores.
- `ParallelBuildTracking.ClearCompleted` and
  `ParallelBuildTracking.DeleteFinished` are module-level methods on values,
  not loops over the tracker's fields. The class method
  `FilterCompletedDependencies` calls them on its map.
- `visited` in src/sorting.ts is a `Map<string, boolean>` in which only
  `true` is stored. It is modelled as the set of its keys.
- Object keys in JavaScript enumerate integer-like keys first, in numeric
  order. The model takes an object's own and inherited keys, and a
  dictionary category, in the order given. It does not model that
  reordering.
- `Reading.Flatten`: an array category is taken as given. A manifest whose
  `dependencies` is some other JSON value is outside the resolver's type.
- `ParallelBuildTracking.ParallelBuildTracker.MarkCompleted`: its contract
  ties the result to `Sweep` and does not itself state the idle case. That
  case is `ParallelBuildTracking.SweepUnrelatedCompletionIsIdle`, which is
  about `Sweep`.
- `ReadFileWithoutBom.StripBom` works on characters. JavaScript's
  `charCodeAt` reads UTF-16 code units, and U+FEFF is a single code unit,
  so the two agree for this comparison.
- Cycle detection is absent from the code. The model proves only that the
  sort terminates on cyclic graphs (`Sorting.Visit`'s decreasing measure),
  and proves the dependencies-first order for acyclic graphs only.
