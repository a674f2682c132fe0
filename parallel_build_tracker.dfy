/**
 * The incremental build tracker of src/parallel/parallelBuildTracker.ts.
 *
 * The tracker owns a dependency map whose sets only shrink and whose keys are
 * only removed, and an append-only list of the packages that have become
 * available.  One sweep, `filterCompletedDependencies`, serves both public
 * operations: it deletes the completed name (when there is one) from every
 * remaining set, collects in key order the keys whose set is now empty, and
 * deletes those keys.  `Sweep` is the meaning of that sweep as a value.
 */
module ParallelBuildTracking {
  import opened Wrappers
  import opened Sequences
  import opened OrderedMaps
  import Sorting

  /** A package's outstanding dependencies once `completed` (if given) is deleted from them. */
  function After(deps: seq<string>, completed: Option<string>): seq<string> {
    if completed.Some? then Remove(deps, completed.value) else deps
  }

  /** The first loop's effect on the map: every set loses the completed name. */
  function Cleared(m: DependencyMap, completed: Option<string>): (r: DependencyMap)
    requires IsDependencyMap(m)
    ensures IsDependencyMap(r) && r.keys == m.keys && r.values.Keys == m.values.Keys
  {
    OrderedMap(m.keys, map k | k in m.values :: After(m.values[k], completed))
  }

  /**
   * The keys among `names` whose set is empty once `completed` is deleted from
   * it, in the order of `names`: what the first loop pushes.
   */
  function Ready(names: seq<string>, m: DependencyMap, completed: Option<string>): seq<string>
  {
    if names == [] then []
    else
      var last := names[|names| - 1];
      Ready(names[..|names| - 1], m, completed) +
        if last in m.values && After(m.values[last], completed) == [] then [last] else []
  }

  /** A key is ready exactly when it is listed and its set is empty once `completed` is deleted. */
  lemma {:induction false} ReadyMembers(names: seq<string>, m: DependencyMap, completed: Option<string>)
    requires forall n :: n in names ==> n in m.values
    ensures forall x :: x in Ready(names, m, completed) <==> x in names && After(m.values[x], completed) == []
  {
    if names != [] {
      var init, last := names[..|names| - 1], names[|names| - 1];
      assert names == init + [last];
      ReadyMembers(init, m, completed);
    }
  }

  /** The ready keys of a list without repetitions are distinct and keep the list's order. */
  lemma {:induction false} ReadyInOrder(names: seq<string>, m: DependencyMap, completed: Option<string>)
    requires forall n :: n in names ==> n in m.values
    requires Distinct(names)
    ensures Distinct(Ready(names, m, completed)) && InOrderOf(Ready(names, m, completed), names)
  {
    if names != [] {
      var init, last := names[..|names| - 1], names[|names| - 1];
      var r0, r := Ready(init, m, completed), Ready(names, m, completed);
      assert names == init + [last];
      assert last !in init;
      ReadyInOrder(init, m, completed);
      ReadyMembers(init, m, completed);
      forall i, j | 0 <= i < j < |r|
        ensures IndexOf(names, r[i]) < IndexOf(names, r[j])
      {
        assert r[i] in r0 && r[i] in init;
        IndexOfPrefix(names, |names| - 1, r[i]);
        if j < |r0| {
          assert r[j] in init;
          IndexOfPrefix(names, |names| - 1, r[j]);
        } else {
          IndexOfDistinct(names, |names| - 1);
        }
      }
    }
  }

  /** Taking away a set and then one more key is taking away both at once. */
  lemma MinusTwice(a: map<string, seq<string>>, s: set<string>, x: string)
    ensures (a - s) - {x} == a - (s + {x})
  {
  }

  /** The second loop: each finished key deleted from the map in turn. */
  function DeleteAll(m: DependencyMap, names: seq<string>): (r: DependencyMap)
    requires m.Valid()
    ensures r.Valid()
  {
    if names == [] then m
    else DeleteAll(m, names[..|names| - 1]).Delete(names[|names| - 1])
  }

  /**
   * Deleting the keys of `names` leaves exactly the other entries, unchanged,
   * with the remaining keys in their old order.
   */
  lemma {:induction false} DeleteAllLeavesTheRest(m: DependencyMap, names: seq<string>)
    requires IsDependencyMap(m)
    ensures IsDependencyMap(DeleteAll(m, names))
    ensures DeleteAll(m, names).values == m.values - Elems(names)
    ensures Elems(DeleteAll(m, names).keys) == Elems(m.keys) - Elems(names)
    ensures InOrderOf(DeleteAll(m, names).keys, m.keys)
  {
    var r := DeleteAll(m, names);
    if names == [] {
      assert m.values - Elems(names) == m.values;
      InOrderOfSelf(m.keys);
    } else {
      var init, last := names[..|names| - 1], names[|names| - 1];
      DeleteAllLeavesTheRest(m, init);
      var m0 := DeleteAll(m, init);
      assert Elems(names) == Elems(init) + {last} by {
        assert names == init + [last];
        ElemsConcat(init, [last]);
      }
      assert r.values == m.values - Elems(names) by {
        MinusTwice(m.values, Elems(init), last);
      }
      assert InOrderOf(r.keys, m.keys) by {
        RemoveInOrder(m0.keys, last);
        InOrderOfTransitive(r.keys, m0.keys, m.keys);
      }
    }
  }

  /** What a sweep returns: the map left behind and the packages it finished. */
  datatype Swept = Swept(remaining: DependencyMap, finished: seq<string>)

  /** No remaining package has an empty set: everything buildable has been handed out. */
  ghost predicate NoneReady(m: DependencyMap) {
    forall k :: k in m.values ==> m.values[k] != []
  }

  /**
   * `filterCompletedDependencies(dependencies, completed)`: the finished
   * packages are exactly the keys whose set is empty once `completed` is
   * deleted, in key order; they leave the map, and every other key stays, in
   * its order, with its set minus `completed`.
   */
  function Sweep(m: DependencyMap, completed: Option<string>): (s: Swept)
    requires IsDependencyMap(m)
    ensures forall x :: x in s.finished <==> x in m.values && After(m.values[x], completed) == []
    ensures Distinct(s.finished) && InOrderOf(s.finished, m.keys)
    ensures IsDependencyMap(s.remaining) && NoneReady(s.remaining)
    ensures Elems(s.remaining.keys) == Elems(m.keys) - Elems(s.finished)
    ensures InOrderOf(s.remaining.keys, m.keys)
    ensures forall k :: k in s.remaining.values ==>
      k in m.values && s.remaining.values[k] == After(m.values[k], completed)
  {
    var finished := Ready(m.keys, m, completed);
    ReadyMembers(m.keys, m, completed);
    ReadyInOrder(m.keys, m, completed);
    DeleteAllLeavesTheRest(Cleared(m, completed), finished);
    Swept(DeleteAll(Cleared(m, completed), finished), finished)
  }

  /** The sets after the first loop has deleted `completed` from those of `names`, one key at a time. */
  function ClearedAlong(values: map<string, seq<string>>, names: seq<string>, completed: Option<string>): (r: map<string, seq<string>>)
    ensures r.Keys == values.Keys
  {
    if names == [] then values
    else
      var last := names[|names| - 1];
      var before := ClearedAlong(values, names[..|names| - 1], completed);
      if last in values then before[last := After(values[last], completed)] else before
  }

  /** Each set has lost `completed` exactly when its key is one of `names`. */
  lemma {:induction false} ClearedAlongAt(values: map<string, seq<string>>, names: seq<string>, completed: Option<string>, k: string)
    requires k in values
    ensures ClearedAlong(values, names, completed)[k] == if k in names then After(values[k], completed) else values[k]
  {
    if names != [] {
      var init := names[..|names| - 1];
      assert names == init + [names[|names| - 1]];
      ClearedAlongAt(values, init, completed, k);
    }
  }

  /** Once every key has been visited, the first loop has produced `Cleared`. */
  lemma ClearedAlongAll(m: DependencyMap, completed: Option<string>)
    requires IsDependencyMap(m)
    ensures OrderedMap(m.keys, ClearedAlong(m.values, m.keys, completed)) == Cleared(m, completed)
  {
    forall k | k in m.values ensures ClearedAlong(m.values, m.keys, completed)[k] == Cleared(m, completed).values[k] {
      ClearedAlongAt(m.values, m.keys, completed, k);
    }
  }

  /** One more step of the first loop: the set of `names[i]` loses `completed`, if there is one. */
  lemma ClearStep(values: map<string, seq<string>>, names: seq<string>, i: nat, completed: Option<string>)
    requires i < |names| && names[i] in values
    requires names[i] !in names[..i]
    ensures ClearedAlong(values, names[..i], completed)[names[i]] == values[names[i]]
    ensures completed.None? ==> ClearedAlong(values, names[..i + 1], completed) == ClearedAlong(values, names[..i], completed)
    ensures completed.Some? ==>
      ClearedAlong(values, names[..i + 1], completed) ==
      ClearedAlong(values, names[..i], completed)[names[i] := Remove(values[names[i]], completed.value)]
  {
    assert names[..i + 1][..i] == names[..i];
    ClearedAlongAt(values, names[..i], completed, names[i]);
    var before := ClearedAlong(values, names[..i], completed);
    if completed.None? {
      assert before[names[i] := values[names[i]]] == before;
    }
  }

  /** One more step of the first loop. */
  lemma ReadyStep(names: seq<string>, i: nat, m: DependencyMap, completed: Option<string>)
    requires i < |names| && names[i] in m.values
    ensures Ready(names[..i + 1], m, completed) == Ready(names[..i], m, completed) +
      if After(m.values[names[i]], completed) == [] then [names[i]] else []
  {
    assert names[..i + 1][..i] == names[..i];
  }

  /** When no listed key is left with an empty set, none is ready. */
  lemma {:induction false} NothingReady(names: seq<string>, m: DependencyMap, completed: Option<string>)
    requires forall n :: n in names ==> n in m.values && After(m.values[n], completed) != []
    ensures Ready(names, m, completed) == []
  {
    if names != [] {
      NothingReady(names[..|names| - 1], m, completed);
    }
  }

  /** Once nothing is ready, a sweep without a completed package finds nothing and changes nothing. */
  lemma SweepWithoutCompletionIsIdle(m: DependencyMap)
    requires IsDependencyMap(m) && NoneReady(m)
    ensures Sweep(m, None) == Swept(m, [])
  {
    var cleared := Cleared(m, None);
    assert cleared.values == m.values;
    assert cleared == m;
    NothingReady(m.keys, m, None);
  }

  /** No remaining package waits for `p`. */
  ghost predicate NoneDependOn(m: DependencyMap, p: string) {
    forall k :: k in m.values ==> p !in m.values[k]
  }

  /** Completing a name that no remaining package depends on finds nothing and changes nothing. */
  lemma SweepUnrelatedCompletionIsIdle(m: DependencyMap, p: string)
    requires IsDependencyMap(m) && NoneReady(m)
    requires NoneDependOn(m, p)
    ensures Sweep(m, Some(p)) == Swept(m, [])
  {
    var cleared := Cleared(m, Some(p));
    assert cleared.values == m.values;
    assert cleared == m;
    NothingReady(m.keys, m, Some(p));
  }

  class ParallelBuildTracker {
    /** Packages that are available to build, in the order they became available. */
    var availablePackages: seq<string>
    /** Packages not yet available, with their incomplete dependencies. */
    var dependencies: DependencyMap

    /** The map is well formed, and no package is both available and pending, or available twice. */
    ghost predicate Coherent()
      reads this
    {
      IsDependencyMap(dependencies) && Distinct(availablePackages) &&
      Elems(availablePackages) !! dependencies.values.Keys
    }

    /** Between public calls, also no pending package has an empty set. */
    ghost predicate Valid()
      reads this
    {
      Coherent() && NoneReady(dependencies)
    }

    /** The constructor takes the map and computes the first sweep through `getAvailablePackages`. */
    constructor (dependencies: DependencyMap)
      requires IsDependencyMap(dependencies)
      ensures Valid()
      ensures availablePackages == Sweep(dependencies, None).finished
      ensures this.dependencies == Sweep(dependencies, None).remaining
      ensures forall x :: x in availablePackages <==> x in dependencies.values && dependencies.values[x] == []
      ensures InOrderOf(availablePackages, dependencies.keys)
    {
      availablePackages := [];
      this.dependencies := dependencies;
      new;
      var _ := GetAvailablePackages();
    }

    /**
     * `getAvailablePackages`: sweeps without a completed package and returns
     * the whole list.  Between public calls the sweep finds nothing, so two
     * calls in a row return the same list.
     */
    method GetAvailablePackages() returns (available: seq<string>)
      requires Coherent()
      modifies this
      ensures Valid()
      ensures dependencies == Sweep(old(dependencies), None).remaining
      ensures availablePackages == old(availablePackages) + Sweep(old(dependencies), None).finished
      ensures old(Valid()) ==> dependencies == old(dependencies) && availablePackages == old(availablePackages)
      ensures available == availablePackages
    {
      ghost var before := dependencies;
      var newlyAvailable := FilterCompletedDependencies(None);
      availablePackages := availablePackages + newlyAvailable;
      available := availablePackages;
      AppendKeepsCoherent(old(availablePackages), before, newlyAvailable, None);
      if old(Valid()) {
        SweepWithoutCompletionIsIdle(before);
      }
    }

    /**
     * `markCompleted(packageName)`: returns the packages whose last outstanding
     * dependency was `packageName`, in key order, and appends them to the list.
     */
    method MarkCompleted(packageName: string) returns (newlyAvailable: seq<string>)
      requires Valid()
      modifies this
      ensures Valid()
      ensures newlyAvailable == Sweep(old(dependencies), Some(packageName)).finished
      ensures dependencies == Sweep(old(dependencies), Some(packageName)).remaining
      ensures availablePackages == old(availablePackages) + newlyAvailable
    {
      ghost var before := dependencies;
      newlyAvailable := FilterCompletedDependencies(Some(packageName));
      availablePackages := availablePackages + newlyAvailable;
      AppendKeepsCoherent(old(availablePackages), before, newlyAvailable, Some(packageName));
    }

    /** Appending a sweep's finished packages keeps the list and the map apart. */
    static lemma AppendKeepsCoherent(available: seq<string>, m: DependencyMap, finished: seq<string>, completed: Option<string>)
      requires IsDependencyMap(m) && Distinct(available) && Elems(available) !! m.values.Keys
      requires finished == Sweep(m, completed).finished
      ensures Distinct(available + finished)
      ensures Elems(available + finished) !! Sweep(m, completed).remaining.values.Keys
    {
      ElemsConcat(available, finished);
      var s := Sweep(m, completed);
      assert Elems(finished) <= m.values.Keys;
      DistinctConcat(available, finished);
    }

    /** `filterCompletedDependencies`, run on the tracker's own map. */
    method FilterCompletedDependencies(completedPackage: Option<string>) returns (finishedPackages: seq<string>)
      requires IsDependencyMap(dependencies)
      modifies this`dependencies
      ensures Sweep(old(dependencies), completedPackage) == Swept(dependencies, finishedPackages)
    {
      ClearedAlongAll(dependencies, completedPackage);
      var cleared;
      cleared, finishedPackages := ClearCompleted(dependencies, completedPackage);
      dependencies := DeleteFinished(cleared, finishedPackages);
    }
  }

  /**
   * The first loop of `filterCompletedDependencies`: walks the map in key
   * order, deletes the completed name from each set and collects the keys
   * whose set is then empty.
   */
  method ClearCompleted(dependencies: DependencyMap, completedPackage: Option<string>)
    returns (cleared: DependencyMap, finishedPackages: seq<string>)
    requires IsDependencyMap(dependencies)
    ensures cleared.keys == dependencies.keys
    ensures cleared.values == ClearedAlong(dependencies.values, dependencies.keys, completedPackage)
    ensures finishedPackages == Ready(dependencies.keys, dependencies, completedPackage)
  {
    cleared := dependencies;
    finishedPackages := [];
    var names := dependencies.keys;
    for i := 0 to |names|
      invariant cleared.keys == names
      invariant cleared.values == ClearedAlong(dependencies.values, names[..i], completedPackage)
      invariant finishedPackages == Ready(names[..i], dependencies, completedPackage)
    {
      var packageName := names[i];
      ClearStep(dependencies.values, names, i, completedPackage);
      ReadyStep(names, i, dependencies, completedPackage);
      var packageDependencies := cleared.values[packageName];
      if completedPackage.Some? {
        packageDependencies := Remove(packageDependencies, completedPackage.value);
        cleared := cleared.(values := cleared.values[packageName := packageDependencies]);
      }
      if |packageDependencies| == 0 {
        finishedPackages := finishedPackages + [packageName];
      }
    }
    assert names[..|names|] == names;
  }

  /** The second loop of `filterCompletedDependencies`: deletes each finished key from the map. */
  method DeleteFinished(dependencies: DependencyMap, finishedPackages: seq<string>) returns (remaining: DependencyMap)
    requires dependencies.Valid()
    ensures remaining == DeleteAll(dependencies, finishedPackages)
  {
    remaining := dependencies;
    for j := 0 to |finishedPackages|
      invariant remaining == DeleteAll(dependencies, finishedPackages[..j])
    {
      assert finishedPackages[..j + 1][..j] == finishedPackages[..j];
      remaining := remaining.Delete(finishedPackages[j]);
    }
    assert finishedPackages[..|finishedPackages|] == finishedPackages;
  }

  // ----- Completing every package -----

  /**
   * `markCompleted` called for each name of `ps` in turn, starting from the
   * map `m`: the map left behind and everything the calls returned, in order.
   */
  function CompleteEach(m: DependencyMap, ps: seq<string>): (r: Swept)
    requires IsDependencyMap(m)
    ensures IsDependencyMap(r.remaining)
  {
    if ps == [] then Swept(m, [])
    else
      var before := CompleteEach(m, ps[..|ps| - 1]);
      var s := Sweep(before.remaining, Some(ps[|ps| - 1]));
      Swept(s.remaining, before.finished + s.finished)
  }

  /** Every pending package of `r` was a package of `m`, and its set is part of its old set without any name of `ps`. */
  ghost predicate SetsCleared(r: DependencyMap, m: DependencyMap, ps: seq<string>) {
    forall k :: k in r.values ==> k in m.values && forall d :: d in r.values[k] ==> d in m.values[k] && d !in ps
  }

  /** The facts about one sweep that the completions rely on. */
  lemma SweepFacts(m: DependencyMap, completed: Option<string>)
    requires IsDependencyMap(m)
    ensures var s := Sweep(m, completed);
      Distinct(s.finished) && Elems(s.finished) <= m.values.Keys &&
      IsDependencyMap(s.remaining) && NoneReady(s.remaining) &&
      s.remaining.values.Keys == m.values.Keys - Elems(s.finished) &&
      forall k :: k in s.remaining.values ==> k in m.values && s.remaining.values[k] == After(m.values[k], completed)
  {
    var s := Sweep(m, completed);
    assert s.remaining.values.Keys == Elems(s.remaining.keys);
  }

  /** `CompleteEach` over one more name is one more sweep. */
  lemma CompleteEachStep(m: DependencyMap, ps: seq<string>, i: nat)
    requires IsDependencyMap(m) && i < |ps|
    ensures var before := CompleteEach(m, ps[..i]);
      var s := Sweep(before.remaining, Some(ps[i]));
      CompleteEach(m, ps[..i + 1]) == Swept(s.remaining, before.finished + s.finished)
  {
    assert ps[..i + 1][..i] == ps[..i];
  }

  /**
   * Along the completions nothing is handed out twice, each package of `m`
   * is either handed out or still pending, and the pending sets have lost
   * every completed name.
   */
  lemma {:induction false} CompleteEachReports(m: DependencyMap, ps: seq<string>)
    requires IsDependencyMap(m)
    ensures var r := CompleteEach(m, ps);
      Distinct(r.finished) && Elems(r.finished) !! r.remaining.values.Keys &&
      Elems(r.finished) + r.remaining.values.Keys == m.values.Keys &&
      SetsCleared(r.remaining, m, ps)
    ensures NoneReady(m) ==> NoneReady(CompleteEach(m, ps).remaining)
  {
    if ps != [] {
      var init, last := ps[..|ps| - 1], ps[|ps| - 1];
      assert ps == init + [last];
      CompleteEachReports(m, init);
      var before := CompleteEach(m, init);
      SweepFacts(before.remaining, Some(last));
      CompleteStep(m, init, last, before, Sweep(before.remaining, Some(last)));
    }
  }

  /** One more completion keeps the facts of `CompleteEachReports`. */
  lemma CompleteStep(m: DependencyMap, init: seq<string>, last: string, before: Swept, s: Swept)
    requires Distinct(before.finished) && Elems(before.finished) !! before.remaining.values.Keys
    requires Elems(before.finished) + before.remaining.values.Keys == m.values.Keys
    requires SetsCleared(before.remaining, m, init)
    requires Distinct(s.finished) && Elems(s.finished) <= before.remaining.values.Keys
    requires s.remaining.values.Keys == before.remaining.values.Keys - Elems(s.finished)
    requires forall k :: k in s.remaining.values ==>
      k in before.remaining.values && s.remaining.values[k] == Remove(before.remaining.values[k], last)
    ensures Distinct(before.finished + s.finished)
    ensures Elems(before.finished + s.finished) !! s.remaining.values.Keys
    ensures Elems(before.finished + s.finished) + s.remaining.values.Keys == m.values.Keys
    ensures SetsCleared(s.remaining, m, init + [last])
  {
    ElemsConcat(before.finished, s.finished);
    DistinctConcat(before.finished, s.finished);
    forall k | k in s.remaining.values
      ensures k in m.values && forall d :: d in s.remaining.values[k] ==> d in m.values[k] && d !in init + [last]
    {
      assert k in before.remaining.values;
    }
  }

  /**
   * The tracker's round trip: once every package has been reported complete,
   * each package has been handed out exactly once, first by the constructor
   * and then by the completions, and nothing is left pending, provided every
   * dependency is itself a package.
   */
  lemma CompletingEveryPackageReportsEachOnce(g: DependencyMap, ps: seq<string>)
    requires IsDependencyMap(g)
    requires forall k, d :: k in g.values && d in g.values[k] ==> d in g.values
    requires forall k :: k in g.values ==> k in ps
    ensures var first := Sweep(g, None);
      var rest := CompleteEach(first.remaining, ps);
      Distinct(first.finished + rest.finished) &&
      Elems(first.finished + rest.finished) == Elems(g.keys) &&
      rest.remaining == EmptyMap()
  {
    var first := Sweep(g, None);
    SweepFacts(g, None);
    CompleteEachReports(first.remaining, ps);
    RoundTrip(g, ps, first, CompleteEach(first.remaining, ps));
  }

  /** The counting argument behind the round trip, over the two results. */
  lemma RoundTrip(g: DependencyMap, ps: seq<string>, first: Swept, rest: Swept)
    requires g.Valid()
    requires forall k, d :: k in g.values && d in g.values[k] ==> d in g.values
    requires forall k :: k in g.values ==> k in ps
    requires Distinct(first.finished) && Elems(first.finished) <= g.values.Keys
    requires first.remaining.values.Keys == g.values.Keys - Elems(first.finished)
    requires forall k :: k in first.remaining.values ==> first.remaining.values[k] == After(g.values[k], None)
    requires Distinct(rest.finished) && IsDependencyMap(rest.remaining) && NoneReady(rest.remaining)
    requires Elems(rest.finished) + rest.remaining.values.Keys == first.remaining.values.Keys
    requires SetsCleared(rest.remaining, first.remaining, ps)
    ensures Distinct(first.finished + rest.finished)
    ensures Elems(first.finished + rest.finished) == Elems(g.keys)
    ensures rest.remaining == EmptyMap()
  {
    LeftoverSetsEmpty(g, ps, first.remaining, rest.remaining);
    NothingLeftPending(rest.remaining);
    ElemsConcat(first.finished, rest.finished);
    DistinctConcat(first.finished, rest.finished);
  }

  /** Once every package is reported, a set still pending has lost all its names. */
  lemma LeftoverSetsEmpty(g: DependencyMap, ps: seq<string>, first: DependencyMap, left: DependencyMap)
    requires IsDependencyMap(left)
    requires forall k, d :: k in g.values && d in g.values[k] ==> d in g.values
    requires forall k :: k in g.values ==> k in ps
    requires first.values.Keys <= g.values.Keys
    requires forall k :: k in first.values ==> first.values[k] == After(g.values[k], None)
    requires SetsCleared(left, first, ps)
    ensures forall k :: k in left.values ==> left.values[k] == []
  {
    forall k | k in left.values ensures left.values[k] == [] {
      assert first.values[k] == g.values[k];
      assert forall d :: d in left.values[k] ==> d in g.values && d in ps;
      assert Elems(left.values[k]) == {};
      DistinctFewElements(left.values[k], "");
    }
  }

  /** A map that keeps no empty set and has only empty sets is empty. */
  lemma NothingLeftPending(left: DependencyMap)
    requires IsDependencyMap(left) && NoneReady(left)
    requires forall k :: k in left.values ==> left.values[k] == []
    ensures left == EmptyMap()
  {
    assert left.values.Keys == {};
    DistinctFewElements(left.keys, "");
  }

  /** In particular, reporting the packages complete in their build order hands out each package exactly once. */
  lemma CompletingInBuildOrderReportsEachOnce(g: DependencyMap)
    requires IsDependencyMap(g)
    requires forall k, d :: k in g.values && d in g.values[k] ==> d in g.values
    ensures var first := Sweep(g, None);
      var rest := CompleteEach(first.remaining, Sorting.SortOrder(g));
      Distinct(first.finished + rest.finished) &&
      Elems(first.finished + rest.finished) == Elems(g.keys) &&
      rest.remaining == EmptyMap()
  {
    var order := Sorting.SortOrder(g);
    Sorting.SortOrderIsPermutation(g);
    forall k | k in g.values ensures k in order {
      assert k in multiset(g.keys);
    }
    CompletingEveryPackageReportsEachOnce(g, order);
  }

  /** Appending in two steps is appending the two parts at once. */
  lemma AppendAssociates(a: seq<string>, b: seq<string>, c: seq<string>)
    ensures (a + b) + c == a + (b + c)
  {
  }

  /** Telling a tracker that the next name of `ps` is complete advances it along `CompleteEach`. */
  method CompleteNext(tracker: ParallelBuildTracker, ps: seq<string>, i: nat, ghost m: DependencyMap)
    returns (newly: seq<string>)
    requires IsDependencyMap(m) && tracker.Valid() && i < |ps|
    requires tracker.dependencies == CompleteEach(m, ps[..i]).remaining
    modifies tracker
    ensures tracker.Valid()
    ensures tracker.dependencies == CompleteEach(m, ps[..i + 1]).remaining
    ensures CompleteEach(m, ps[..i + 1]).finished == CompleteEach(m, ps[..i]).finished + newly
    ensures tracker.availablePackages == old(tracker.availablePackages) + newly
  {
    CompleteEachStep(m, ps, i);
    newly := tracker.MarkCompleted(ps[i]);
  }

  /** A fresh tracker for `g` and the packages it hands out before any completion. */
  method Start(g: DependencyMap) returns (tracker: ParallelBuildTracker, available: seq<string>)
    requires IsDependencyMap(g)
    ensures fresh(tracker) && tracker.Valid()
    ensures available == Sweep(g, None).finished
    ensures tracker.dependencies == Sweep(g, None).remaining
    ensures tracker.availablePackages == available
  {
    tracker := new ParallelBuildTracker(g);
    available := tracker.GetAvailablePackages();
  }

  /**
   * A tracker built for `g`, asked for its available packages and then told
   * that each name of `ps` is complete, in turn: everything it hands out, in
   * order.  When every dependency is a package and every package is
   * reported, each package is handed out exactly once.
   */
  method CompleteAll(g: DependencyMap, ps: seq<string>) returns (reported: seq<string>)
    requires IsDependencyMap(g)
    ensures reported == Sweep(g, None).finished + CompleteEach(Sweep(g, None).remaining, ps).finished
    ensures
      ((forall k, d :: k in g.values && d in g.values[k] ==> d in g.values) &&
       (forall k :: k in g.values ==> k in ps)) ==>
      Distinct(reported) && Elems(reported) == Elems(g.keys)
  {
    var tracker;
    tracker, reported := Start(g);
    var rest := CompleteFrom(tracker, ps);
    reported := reported + rest;
    ghost var full := (forall k, d :: k in g.values && d in g.values[k] ==> d in g.values) &&
      (forall k :: k in g.values ==> k in ps);
    if full {
      CompletingEveryPackageReportsEachOnce(g, ps);
    }
  }

  /** A tracker told that each name of `ps` is complete, in turn, hands out `CompleteEach`'s list. */
  method CompleteFrom(tracker: ParallelBuildTracker, ps: seq<string>) returns (reported: seq<string>)
    requires tracker.Valid()
    modifies tracker
    ensures tracker.Valid()
    ensures reported == CompleteEach(old(tracker.dependencies), ps).finished
    ensures tracker.dependencies == CompleteEach(old(tracker.dependencies), ps).remaining
    ensures tracker.availablePackages == old(tracker.availablePackages) + reported
  {
    reported := [];
    ghost var m := tracker.dependencies;
    ghost var a0 := tracker.availablePackages;
    for i := 0 to |ps|
      invariant tracker.Valid()
      invariant tracker.dependencies == CompleteEach(m, ps[..i]).remaining
      invariant reported == CompleteEach(m, ps[..i]).finished
      invariant tracker.availablePackages == a0 + reported
    {
      ghost var r := reported;
      var newly := CompleteNext(tracker, ps, i, m);
      reported := reported + newly;
      AppendAssociates(a0, r, newly);
    }
    assert ps[..|ps|] == ps;
  }
}
