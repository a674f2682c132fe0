/**
 * The depth-first build-order sort of src/sorting.ts.
 *
 * `sortPackages` walks the keys of the dependency map in insertion order and
 * visits each one.  A visit marks the package visited before anything else,
 * visits every dependency that is itself a key, and only then appends the
 * package to the order.  The functions `Visit`, `VisitDependencies` and
 * `VisitKeys` give the meaning of that walk as values; the class
 * `OrderGenerator` is the walk itself, over shared mutable state, and its
 * methods are proved to compute those functions.
 */
module Sorting {
  import opened Sequences
  import opened OrderedMaps

  /** The state shared by the visits: the names marked visited and the order built so far. */
  datatype Walk = Walk(visited: set<string>, order: seq<string>)

  /** Each emitted name is emitted once, and emitted names were visited first; only keys are visited. */
  ghost predicate Tidy(g: DependencyMap, w: Walk) {
    Distinct(w.order) && Elems(w.order) <= w.visited <= g.values.Keys
  }

  /** Names whose visit has started but not yet finished. */
  ghost function InProgress(w: Walk): set<string> {
    w.visited - Elems(w.order)
  }

  /** A walk that emitted exactly what it newly visited leaves the same visits open. */
  lemma InProgressKept(w: Walk, r: Walk)
    requires Elems(w.order) <= w.visited <= r.visited && w.order <= r.order
    requires Elems(r.order[|w.order|..]) == r.visited - w.visited
    ensures InProgress(r) == InProgress(w)
  {
    assert r.order == w.order + r.order[|w.order|..];
    ElemsConcat(w.order, r.order[|w.order|..]);
  }

  /**
   * `visitPackage(name)`.  A package already visited is skipped; otherwise it
   * is marked, its dependencies are visited, and it is emitted.  The walk
   * terminates on every graph, cyclic ones included, because every recursive
   * visit starts with one more key marked visited.
   */
  function Visit(g: DependencyMap, name: string, w: Walk): (r: Walk)
    requires g.Valid() && name in g.values && Tidy(g, w)
    ensures Tidy(g, r)
    ensures w.visited + {name} <= r.visited
    ensures w.order <= r.order
    ensures Elems(r.order[|w.order|..]) == r.visited - w.visited
    ensures InProgress(r) == InProgress(w)
    decreases g.values.Keys - w.visited, 0
  {
    if name in w.visited then w
    else
      var start := Walk(w.visited + {name}, w.order);
      var inner := VisitDependencies(g, g.values[name], start);
      Emitted(g, name, w, inner);
      Walk(inner.visited, inner.order + [name])
  }

  /** Emitting `name` after its dependencies' visits keeps the walk tidy and closes only its own visit. */
  lemma Emitted(g: DependencyMap, name: string, w: Walk, inner: Walk)
    requires Tidy(g, w) && name in g.values && name !in w.visited
    requires Tidy(g, inner) && w.visited + {name} <= inner.visited && w.order <= inner.order
    requires Elems(inner.order[|w.order|..]) == inner.visited - (w.visited + {name})
    ensures var r := Walk(inner.visited, inner.order + [name]);
      Tidy(g, r) && Elems(r.order[|w.order|..]) == r.visited - w.visited && InProgress(r) == InProgress(w)
  {
    var r := Walk(inner.visited, inner.order + [name]);
    assert inner.order == w.order + inner.order[|w.order|..];
    ElemsConcat(w.order, inner.order[|w.order|..]);
    assert name !in inner.order;
    assert r.order[|w.order|..] == inner.order[|w.order|..] + [name];
    ElemsConcat(inner.order[|w.order|..], [name]);
    ElemsConcat(inner.order, [name]);
    InProgressKept(w, r);
  }

  /** The loop over one package's dependencies: only names that are keys are visited. */
  function VisitDependencies(g: DependencyMap, ds: seq<string>, w: Walk): (r: Walk)
    requires g.Valid() && Tidy(g, w)
    ensures Tidy(g, r)
    ensures w.visited <= r.visited
    ensures w.order <= r.order
    ensures Elems(r.order[|w.order|..]) == r.visited - w.visited
    ensures InProgress(r) == InProgress(w)
    ensures forall d :: d in ds && d in g.values ==> d in r.visited
    decreases g.values.Keys - w.visited, 1, |ds|
  {
    if ds == [] then w
    else
      var next := if ds[0] in g.values then Visit(g, ds[0], w) else w;
      var r := VisitDependencies(g, ds[1..], next);
      Chained(w, next, r);
      r
  }

  /** The loop of `generateOrder` over the map's keys, each visited in turn. */
  function VisitKeys(g: DependencyMap, names: seq<string>, w: Walk): (r: Walk)
    requires g.Valid() && Tidy(g, w)
    requires forall n :: n in names ==> n in g.values
    ensures Tidy(g, r)
    ensures w.visited + Elems(names) <= r.visited
    ensures w.order <= r.order
    ensures Elems(r.order[|w.order|..]) == r.visited - w.visited
    ensures InProgress(r) == InProgress(w)
    decreases |names|
  {
    if names == [] then w
    else
      var next := Visit(g, names[0], w);
      var r := VisitKeys(g, names[1..], next);
      Chained(w, next, r);
      ElemsCons(names);
      r
  }

  /** Two walks in a row each emitting exactly what they newly visit make one such walk. */
  lemma Chained(w: Walk, next: Walk, r: Walk)
    requires w.visited <= next.visited && w.order <= next.order
    requires Elems(next.order[|w.order|..]) == next.visited - w.visited
    requires next.visited <= r.visited && next.order <= r.order
    requires Elems(r.order[|next.order|..]) == r.visited - next.visited
    ensures w.order <= r.order && Elems(r.order[|w.order|..]) == r.visited - w.visited
  {
    assert r.order[|w.order|..] == next.order[|w.order|..] + r.order[|next.order|..];
    ElemsConcat(next.order[|w.order|..], r.order[|next.order|..]);
  }

  /** The order `sortPackages` returns: every key visited, starting from nothing. */
  function SortOrder(g: DependencyMap): seq<string>
    requires g.Valid()
  {
    VisitKeys(g, g.keys, Walk({}, [])).order
  }

  /**
   * `generateOrder`'s closure state: `visited` (a `Map<string, boolean>` in the
   * source, where only `true` is ever stored) and the `order` array.
   */
  class OrderGenerator {
    const packages: DependencyMap
    var visited: set<string>
    var order: seq<string>

    ghost function State(): Walk
      reads this
    {
      Walk(visited, order)
    }

    /** `sortPackages` starts from an empty visited map and an empty order. */
    constructor (packages: DependencyMap)
      ensures this.packages == packages
      ensures visited == {} && order == []
    {
      this.packages := packages;
      visited := {};
      order := [];
    }

    /** The recursive `visitPackage` closure. */
    method VisitPackage(name: string)
      requires packages.Valid() && name in packages.values && Tidy(packages, State())
      modifies this
      ensures State() == Visit(packages, name, old(State()))
      decreases packages.values.Keys - visited, 0
    {
      if name in visited {
        return;
      }
      visited := visited + {name};
      ghost var start := State();
      var dependencies := packages.values[name];
      for i := 0 to |dependencies|
        invariant Tidy(packages, State())
        invariant start.visited <= visited
        invariant VisitDependencies(packages, dependencies[i..], State())
               == VisitDependencies(packages, dependencies, start)
      {
        assert dependencies[i..][1..] == dependencies[i + 1..];
        if dependencies[i] in packages.values {
          VisitPackage(dependencies[i]);
        }
      }
      order := order + [name];
    }

    /** The `for...of` loop of `generateOrder` over the keys. */
    method GenerateOrder()
      requires packages.Valid() && Tidy(packages, State())
      modifies this
      ensures State() == VisitKeys(packages, packages.keys, old(State()))
    {
      ghost var start := State();
      for i := 0 to |packages.keys|
        invariant Tidy(packages, State())
        invariant VisitKeys(packages, packages.keys[i..], State())
               == VisitKeys(packages, packages.keys, start)
      {
        assert packages.keys[i..][1..] == packages.keys[i + 1..];
        VisitPackage(packages.keys[i]);
      }
    }
  }

  /** `sortPackages`: the packages in a safe build order. */
  method SortPackages(packages: DependencyMap) returns (order: seq<string>)
    requires packages.Valid()
    ensures order == SortOrder(packages)
    ensures Distinct(order) && multiset(order) == multiset(packages.keys)
  {
    var generator := new OrderGenerator(packages);
    generator.GenerateOrder();
    order := generator.order;
    SortOrderIsPermutation(packages);
  }

  // ----- Every key exactly once -----

  /** Every key of the map is emitted exactly once, and nothing else is emitted. */
  lemma SortOrderIsPermutation(g: DependencyMap)
    requires g.Valid()
    ensures Distinct(SortOrder(g))
    ensures multiset(SortOrder(g)) == multiset(g.keys)
  {
    var r := VisitKeys(g, g.keys, Walk({}, []));
    assert r.order[0..] == r.order;
    DistinctPermutation(r.order, g.keys);
  }

  // ----- Dependencies come first on acyclic graphs -----

  /** `p` follows dependency edges: each name but the last is a key and lists the next one. */
  ghost predicate IsPath(g: DependencyMap, p: seq<string>) {
    forall i :: 0 <= i < |p| - 1 ==> p[i] in g.values && p[i + 1] in g.values[p[i]]
  }

  /** No path of one edge or more leads from a package back to itself. */
  ghost predicate Acyclic(g: DependencyMap) {
    forall p :: IsPath(g, p) && |p| >= 2 ==> p[0] != p[|p| - 1]
  }

  /** Each emitted package is preceded by all of its dependencies that are keys. */
  ghost predicate DependenciesFirst(g: DependencyMap, order: seq<string>) {
    forall i, d :: 0 <= i < |order| && order[i] in g.values && d in g.values[order[i]] && d in g.values
      ==> d in order[..i]
  }

  /** A key met again while its own visit is still open closes a cycle. */
  lemma ClosingCycle(g: DependencyMap, stack: seq<string>, name: string)
    requires IsPath(g, stack) && name in stack
    requires stack[|stack| - 1] in g.values && name in g.values[stack[|stack| - 1]]
    ensures !Acyclic(g)
  {
    var j := IndexOf(stack, name);
    var cycle := stack[j..] + [name];
    forall i | 0 <= i < |cycle| - 1
      ensures cycle[i] in g.values && cycle[i + 1] in g.values[cycle[i]]
    {
      if i < |stack| - j - 1 {
        assert cycle[i] == stack[j + i] && cycle[i + 1] == stack[j + i + 1];
      } else {
        assert cycle[i] == stack[|stack| - 1] && cycle[i + 1] == name;
      }
    }
    assert IsPath(g, cycle) && |cycle| >= 2 && cycle[0] == cycle[|cycle| - 1];
  }

  /**
   * On an acyclic graph a visit emits its package, after all of that package's
   * key dependencies.  `stack` is the chain of visits still open, a path that
   * ends in a package depending on `name`.
   */
  lemma {:induction false} VisitEmitsDependenciesFirst(g: DependencyMap, name: string, w: Walk, stack: seq<string>)
    requires g.Valid() && Acyclic(g) && name in g.values && Tidy(g, w)
    requires DependenciesFirst(g, w.order)
    requires IsPath(g, stack) && InProgress(w) == Elems(stack)
    requires stack != [] ==> stack[|stack| - 1] in g.values && name in g.values[stack[|stack| - 1]]
    ensures DependenciesFirst(g, Visit(g, name, w).order)
    ensures name in Visit(g, name, w).order
    decreases g.values.Keys - w.visited, 0
  {
    if name in w.visited {
      if name !in w.order {
        assert name in Elems(stack);
        ClosingCycle(g, stack, name);
        assert false;
      }
    } else {
      var start := Walk(w.visited + {name}, w.order);
      var stack' := stack + [name];
      ElemsConcat(stack, [name]);
      assert InProgress(start) == Elems(stack');
      PathExtended(g, stack, name);
      var ds := g.values[name];
      VisitDependenciesEmitFirst(g, ds, start, stack', name);
      var inner := VisitDependencies(g, ds, start);
      EmittedAfterDependencies(g, inner.order, name);
      assert Visit(g, name, w).order == inner.order + [name];
    }
  }

  /** A path ending in a package that depends on `name` goes on to `name`. */
  lemma PathExtended(g: DependencyMap, stack: seq<string>, name: string)
    requires IsPath(g, stack) && name in g.values
    requires stack != [] ==> stack[|stack| - 1] in g.values && name in g.values[stack[|stack| - 1]]
    ensures IsPath(g, stack + [name])
  {
    var stack' := stack + [name];
    forall i | 0 <= i < |stack'| - 1
      ensures stack'[i] in g.values && stack'[i + 1] in g.values[stack'[i]]
    {
      if i < |stack| - 1 {
        assert stack'[i] == stack[i] && stack'[i + 1] == stack[i + 1];
      }
    }
  }

  /** Emitting a package once all its key dependencies are emitted keeps dependencies first. */
  lemma EmittedAfterDependencies(g: DependencyMap, order: seq<string>, name: string)
    requires DependenciesFirst(g, order) && name in g.values
    requires forall d :: d in g.values[name] && d in g.values ==> d in order
    ensures DependenciesFirst(g, order + [name])
  {
    var order' := order + [name];
    forall i, d | 0 <= i < |order'| && order'[i] in g.values && d in g.values[order'[i]] && d in g.values
      ensures d in order'[..i]
    {
      if i < |order| {
        assert order'[i] == order[i] && order'[..i] == order[..i];
      } else {
        assert order'[..i] == order;
      }
    }
  }

  /** The dependency loop of a visit to `parent` emits every key dependency in `ds`. */
  lemma {:induction false} VisitDependenciesEmitFirst(g: DependencyMap, ds: seq<string>, w: Walk, stack: seq<string>, parent: string)
    requires g.Valid() && Acyclic(g) && Tidy(g, w)
    requires DependenciesFirst(g, w.order)
    requires IsPath(g, stack) && InProgress(w) == Elems(stack)
    requires stack != [] && stack[|stack| - 1] == parent && parent in g.values
    requires forall d :: d in ds ==> d in g.values[parent]
    ensures DependenciesFirst(g, VisitDependencies(g, ds, w).order)
    ensures forall d :: d in ds && d in g.values ==> d in VisitDependencies(g, ds, w).order
    decreases g.values.Keys - w.visited, 1, |ds|
  {
    if ds != [] {
      var next := if ds[0] in g.values then Visit(g, ds[0], w) else w;
      if ds[0] in g.values {
        VisitEmitsDependenciesFirst(g, ds[0], w, stack);
      }
      VisitDependenciesEmitFirst(g, ds[1..], next, stack, parent);
      var r := VisitDependencies(g, ds, w);
      assert r == VisitDependencies(g, ds[1..], next);
      assert next.order <= r.order;
      forall d | d in ds && d in g.values ensures d in r.order {
        if d != ds[0] {
          assert d in ds[1..];
        } else {
          assert d in next.order;
        }
      }
    }
  }

  /** The key loop keeps every emitted package after its key dependencies. */
  lemma {:induction false} VisitKeysEmitFirst(g: DependencyMap, names: seq<string>, w: Walk)
    requires g.Valid() && Acyclic(g) && Tidy(g, w)
    requires DependenciesFirst(g, w.order) && InProgress(w) == {}
    requires forall n :: n in names ==> n in g.values
    ensures DependenciesFirst(g, VisitKeys(g, names, w).order)
    decreases |names|
  {
    if names != [] {
      assert InProgress(w) == Elems([]);
      VisitEmitsDependenciesFirst(g, names[0], w, []);
      VisitKeysEmitFirst(g, names[1..], Visit(g, names[0], w));
    }
  }

  /** For an acyclic graph, every package comes after each of its dependencies that is a key. */
  lemma SortPlacesDependenciesFirst(g: DependencyMap)
    requires g.Valid() && Acyclic(g)
    ensures forall i :: 0 <= i < |SortOrder(g)| ==> SortOrder(g)[i] in g.values
    ensures forall i, j ::
      0 <= i < |SortOrder(g)| && 0 <= j < |SortOrder(g)| && SortOrder(g)[j] in g.values[SortOrder(g)[i]]
      ==> j < i
  {
    var o := SortOrder(g);
    VisitKeysEmitFirst(g, g.keys, Walk({}, []));
    assert Tidy(g, VisitKeys(g, g.keys, Walk({}, [])));
    DependenciesFirstIndices(g, o);
  }

  /** In an order without repetitions that puts dependencies first, each dependency has a smaller index. */
  lemma DependenciesFirstIndices(g: DependencyMap, o: seq<string>)
    requires Distinct(o) && Elems(o) <= g.values.Keys && DependenciesFirst(g, o)
    ensures forall i :: 0 <= i < |o| ==> o[i] in g.values
    ensures forall i, j :: 0 <= i < |o| && 0 <= j < |o| && o[j] in g.values[o[i]] ==> j < i
  {
    forall i | 0 <= i < |o| ensures o[i] in g.values {
      assert o[i] in Elems(o);
    }
    forall i, j | 0 <= i < |o| && 0 <= j < |o| && o[j] in g.values[o[i]]
      ensures j < i
    {
      assert o[j] in Elems(o);
      assert o[j] in o[..i];
      var k :| 0 <= k < i && o[..i][k] == o[j];
      assert o[k] == o[j];
    }
  }

  // ----- Key order when there are no edges -----

  /** No package lists another package of the map among its dependencies. */
  ghost predicate NoKeyDependencies(g: DependencyMap) {
    forall k, d :: k in g.values && d in g.values[k] ==> d !in g.values
  }

  /** A dependency loop over names that are not keys changes nothing. */
  lemma {:induction false} VisitDependenciesWithoutKeys(g: DependencyMap, ds: seq<string>, w: Walk)
    requires g.Valid() && Tidy(g, w)
    requires forall d :: d in ds ==> d !in g.values
    ensures VisitDependencies(g, ds, w) == w
    decreases |ds|
  {
    if ds != [] {
      VisitDependenciesWithoutKeys(g, ds[1..], w);
    }
  }

  /** Without edges, each unvisited key is visited and emitted on its own turn. */
  lemma {:induction false} VisitKeysWithoutEdges(g: DependencyMap, names: seq<string>, w: Walk)
    requires g.Valid() && Tidy(g, w) && NoKeyDependencies(g)
    requires Distinct(names) && forall n :: n in names ==> n in g.values && n !in w.visited
    ensures VisitKeys(g, names, w) == Walk(w.visited + Elems(names), w.order + names)
    decreases |names|
  {
    if names != [] {
      LeafVisited(g, names, w);
      VisitKeysWithoutEdges(g, names[1..], Walk(w.visited + {names[0]}, w.order + [names[0]]));
    }
  }

  /** Without edges, the first of the unvisited keys is emitted alone, and the rest stay unvisited. */
  lemma LeafVisited(g: DependencyMap, names: seq<string>, w: Walk)
    requires g.Valid() && Tidy(g, w) && NoKeyDependencies(g)
    requires names != [] && Distinct(names) && forall n :: n in names ==> n in g.values && n !in w.visited
    ensures var next := Walk(w.visited + {names[0]}, w.order + [names[0]]);
      Visit(g, names[0], w) == next && Tidy(g, next) && Distinct(names[1..]) &&
      (forall n :: n in names[1..] ==> n in g.values && n !in next.visited) &&
      next.visited + Elems(names[1..]) == w.visited + Elems(names) &&
      next.order + names[1..] == w.order + names
  {
    var n := names[0];
    VisitWithDependenciesVisited(g, n, w);
    DistinctTail(names);
    ElemsCons(names);
    assert w.order + [n] + names[1..] == w.order + names;
  }

  /** With no edges between packages the order is the key insertion order. */
  lemma SortWithoutEdgesKeepsKeyOrder(g: DependencyMap)
    requires g.Valid() && NoKeyDependencies(g)
    ensures SortOrder(g) == g.keys
  {
    VisitKeysWithoutEdges(g, g.keys, Walk({}, []));
  }

  // ----- A package whose dependencies are done -----

  /** A dependency loop over names already visited (or not keys) changes nothing. */
  lemma {:induction false} VisitDependenciesAllVisited(g: DependencyMap, ds: seq<string>, w: Walk)
    requires g.Valid() && Tidy(g, w)
    requires forall d :: d in ds && d in g.values ==> d in w.visited
    ensures VisitDependencies(g, ds, w) == w
    decreases |ds|
  {
    if ds != [] {
      VisitDependenciesAllVisited(g, ds[1..], w);
    }
  }

  /** An unvisited package whose key dependencies are all visited is emitted at once. */
  lemma VisitWithDependenciesVisited(g: DependencyMap, name: string, w: Walk)
    requires g.Valid() && name in g.values && Tidy(g, w) && name !in w.visited
    requires forall d :: d in g.values[name] && d in g.values ==> d in w.visited
    ensures Visit(g, name, w) == Walk(w.visited + {name}, w.order + [name])
  {
    VisitDependenciesAllVisited(g, g.values[name], Walk(w.visited + {name}, w.order));
  }
}
