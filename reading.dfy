/**
 * Building the dependency map of src/reading.ts.
 *
 * Each package's manifest is read through a resolver (a parameter standing for
 * reading and parsing the manifest file), its `dependencies` and
 * `devDependencies` are flattened to names, and the names go into a `Set`.
 * The packages are read one after the other, in the key order of the paths
 * map; the first read that fails makes the whole build fail.
 */
module Reading {
  import opened Wrappers
  import opened Sequences
  import opened OrderedMaps

  /**
   * One dependency category of a manifest: absent, an array of names, or an
   * object whose keys are names (and whose values are version ranges).
   */
  datatype Category = Missing | NameList(names: seq<string>) | NameRecord(record: OrderedMap<string>)

  /** The part of a parsed manifest that is read. */
  datatype PackageInfo = PackageInfo(dependencies: Category, devDependencies: Category)

  /** `flatten`: an array as it is, an object's keys in enumeration order, and nothing for a missing category. */
  function Flatten(contents: Category): (r: seq<string>)
    ensures contents.Missing? ==> r == []
    ensures contents.NameList? ==> r == contents.names
    ensures contents.NameRecord? && contents.record.Valid() ==>
      Distinct(r) && Elems(r) == contents.record.values.Keys
  {
    match contents
    case Missing => []
    case NameList(names) => names
    case NameRecord(record) => record.keys
  }

  /**
   * `new Set(names)`: the names in the order of their first occurrence, each
   * once.  Each element is added in turn, and an element already present is
   * not added again.
   */
  function Dedup(names: seq<string>): seq<string>
  {
    if names == [] then []
    else
      var r := Dedup(names[..|names| - 1]);
      var last := names[|names| - 1];
      if last in r then r else r + [last]
  }

  /** The set holds each given name, and nothing else, exactly once. */
  lemma {:induction false} DedupMembers(names: seq<string>)
    ensures Distinct(Dedup(names))
    ensures forall x :: x in Dedup(names) <==> x in names
  {
    if names != [] {
      var init, last := names[..|names| - 1], names[|names| - 1];
      DedupMembers(init);
      assert names == init + [last];
    }
  }

  /** The set keeps the order in which names first occur. */
  lemma {:induction false} DedupInOrder(names: seq<string>)
    ensures InOrderOf(Dedup(names), names)
  {
    if names != [] {
      var init, last := names[..|names| - 1], names[|names| - 1];
      var r0, r := Dedup(init), Dedup(names);
      DedupInOrder(init);
      DedupMembers(init);
      assert names == init + [last];
      forall i, j | 0 <= i < j < |r| ensures IndexOf(names, r[i]) < IndexOf(names, r[j]) {
        assert r[i] == r0[i] && r0[i] in init;
        IndexOfPrefix(names, |init|, r[i]);
        if j < |r0| {
          assert r[j] == r0[j] && r0[j] in init;
          IndexOfPrefix(names, |init|, r[j]);
        } else {
          assert r[j] == last && last !in init;
          assert IndexOf(names, last) == |init|;
        }
      }
    }
  }

  /** The set built from `a + b` begins with the set built from `a`. */
  lemma {:induction false} DedupPrefix(a: seq<string>, b: seq<string>)
    ensures Dedup(a) <= Dedup(a + b)
  {
    if b != [] {
      var init := b[..|b| - 1];
      DedupPrefix(a, init);
      assert (a + b)[..|a + b| - 1] == a + init;
    } else {
      assert a + b == a;
    }
  }

  /** A list without repetitions is its own set. */
  lemma {:induction false} DedupOfDistinct(names: seq<string>)
    requires Distinct(names)
    ensures Dedup(names) == names
  {
    if names != [] {
      var init, last := names[..|names| - 1], names[|names| - 1];
      DedupOfDistinct(init);
      assert names == init + [last];
      assert last !in init;
    }
  }

  /** `getPackageDependencies` once the manifest is read: the set of its dependency and devDependency names. */
  function PackageDependencies(info: PackageInfo): seq<string>
  {
    Dedup(Flatten(info.dependencies) + Flatten(info.devDependencies))
  }

  /**
   * A package's set holds exactly the names of both categories, each once;
   * `dependencies` names come first, then the `devDependencies` names not
   * already listed, and a repeated name keeps its first place.
   */
  lemma PackageDependenciesAreUnion(info: PackageInfo)
    ensures Distinct(PackageDependencies(info))
    ensures forall d :: d in PackageDependencies(info) <==>
      d in Flatten(info.dependencies) || d in Flatten(info.devDependencies)
    ensures Dedup(Flatten(info.dependencies)) <= PackageDependencies(info)
    ensures InOrderOf(PackageDependencies(info), Flatten(info.dependencies) + Flatten(info.devDependencies))
  {
    var a, b := Flatten(info.dependencies), Flatten(info.devDependencies);
    DedupMembers(a + b);
    DedupInOrder(a + b);
    DedupPrefix(a, b);
  }

  /** A package's set holds each name once. */
  lemma PackageDependenciesDistinct(info: PackageInfo)
    ensures Distinct(PackageDependencies(info))
  {
    DedupMembers(Flatten(info.dependencies) + Flatten(info.devDependencies));
  }

  /** A manifest with neither category gives an empty set. */
  lemma NoCategoriesNoDependencies()
    ensures PackageDependencies(PackageInfo(Missing, Missing)) == []
  {
    assert Flatten(Missing) + Flatten(Missing) == [];
  }

  /** Reads and parses the manifest at a path; a failure is an unreadable file or unparsable text. */
  type Resolver = string -> Result<PackageInfo>

  /** `getPackageDependencies(packagePath)`: the package's set, or the failure of its read. */
  function GetPackageDependencies(read: Resolver, packagePath: string): (r: Result<seq<string>>)
    ensures r.Success? <==> read(packagePath).Success?
    ensures r.Failure? ==> r.error == read(packagePath).error
    ensures r.Success? ==> Distinct(r.value)
    ensures r.Success? ==> forall d :: d in r.value <==>
      d in Flatten(read(packagePath).value.dependencies) || d in Flatten(read(packagePath).value.devDependencies)
  {
    match read(packagePath)
    case Failure(e) => Failure(e)
    case Success(info) =>
      PackageDependenciesAreUnion(info);
      Success(PackageDependencies(info))
  }

  /**
   * The map `getAllPackageDependencies` builds from the packages of `names`
   * (keys of `paths`), read in the order of `names`; the first failed read
   * ends the build with its failure.
   */
  function Gathered(read: Resolver, paths: OrderedMap<string>, names: seq<string>): (r: Result<DependencyMap>)
    requires forall n :: n in names ==> n in paths.values
    ensures r.Success? ==> r.value.Valid()
  {
    if names == [] then Success(EmptyMap())
    else
      var last := names[|names| - 1];
      match Gathered(read, paths, names[..|names| - 1])
      case Failure(e) => Failure(e)
      case Success(m) =>
        match GetPackageDependencies(read, paths.values[last])
        case Failure(e) => Failure(e)
        case Success(ds) => Success(m.Set(last, ds))
  }

  /** `getAllPackageDependencies(packagePaths)` as a value. */
  function AllPackageDependencies(read: Resolver, paths: OrderedMap<string>): Result<DependencyMap>
    requires paths.Valid()
  {
    Gathered(read, paths, paths.keys)
  }

  /** `getAllPackageDependencies`: reads every package in key order and records its set. */
  method GetAllPackageDependencies(read: Resolver, packagePaths: OrderedMap<string>) returns (r: Result<DependencyMap>)
    requires packagePaths.Valid()
    ensures r == AllPackageDependencies(read, packagePaths)
  {
    var packageDependencies := EmptyMap();
    var names := packagePaths.keys;
    for i := 0 to |names|
      invariant packageDependencies.Valid()
      invariant Gathered(read, packagePaths, names[..i]) == Success(packageDependencies)
    {
      var packageName := names[i];
      assert names[..i + 1][..i] == names[..i];
      var deps := GetPackageDependencies(read, packagePaths.values[packageName]);
      if deps.Failure? {
        assert Gathered(read, packagePaths, names[..i + 1]) == Failure(deps.error);
        FailureStaysFailure(read, packagePaths, names, i + 1);
        return Failure(deps.error);
      }
      packageDependencies := packageDependencies.Set(packageName, deps.value);
    }
    assert names[..|names|] == names;
    return Success(packageDependencies);
  }

  /** Once a read has failed, reading further packages keeps that failure. */
  lemma {:induction false} FailureStaysFailure(read: Resolver, paths: OrderedMap<string>, names: seq<string>, k: nat)
    requires forall n :: n in names ==> n in paths.values
    requires k <= |names| && Gathered(read, paths, names[..k]).Failure?
    ensures Gathered(read, paths, names) == Gathered(read, paths, names[..k])
    decreases |names| - k
  {
    if k < |names| {
      assert names[..k + 1][..k] == names[..k];
      FailureStaysFailure(read, paths, names, k + 1);
    } else {
      assert names[..k] == names;
    }
  }

  /** The build succeeds exactly when the manifest of every listed package can be read. */
  lemma {:induction false} GatheredSucceeds(read: Resolver, paths: OrderedMap<string>, names: seq<string>)
    requires forall n :: n in names ==> n in paths.values
    ensures Gathered(read, paths, names).Success? <==>
      forall n :: n in names ==> read(paths.values[n]).Success?
  {
    if names != [] {
      var init, last := names[..|names| - 1], names[|names| - 1];
      assert names == init + [last];
      GatheredSucceeds(read, paths, init);
    }
  }

  /**
   * When every read succeeds, the map has the given keys in the given order,
   * each with the set of its own manifest; names that are not packages are
   * kept in the sets.
   */
  lemma {:induction false} GatheredShape(read: Resolver, paths: OrderedMap<string>, names: seq<string>)
    requires forall n :: n in names ==> n in paths.values && read(paths.values[n]).Success?
    requires Distinct(names)
    ensures Gathered(read, paths, names).Success?
    ensures var m := Gathered(read, paths, names).value;
      IsDependencyMap(m) && m.keys == names &&
      forall n :: n in names ==> m.values[n] == PackageDependencies(read(paths.values[n]).value)
  {
    if names != [] {
      var init, last := names[..|names| - 1], names[|names| - 1];
      assert names == init + [last];
      assert last !in init;
      GatheredShape(read, paths, init);
      var m0 := Gathered(read, paths, init).value;
      GatheredShapeStep(read, paths, init, last, m0);
      var m := Gathered(read, paths, names).value;
      forall n | n in names ensures m.values[n] == PackageDependencies(read(paths.values[n]).value) {
        if n != last {
          assert n in init && n in m0.values;
        }
      }
    }
  }

  /** Setting one more package's set keeps the map a dependency map, extends its keys and keeps the other sets. */
  lemma GatheredShapeStep(read: Resolver, paths: OrderedMap<string>, init: seq<string>, last: string, m0: DependencyMap)
    requires last in paths.values && read(paths.values[last]).Success?
    requires IsDependencyMap(m0) && m0.keys == init && last !in init
    ensures var m := m0.Set(last, PackageDependencies(read(paths.values[last]).value));
      IsDependencyMap(m) && m.keys == init + [last] &&
      m.values[last] == PackageDependencies(read(paths.values[last]).value) &&
      forall j :: j in m0.values ==> m.values[j] == m0.values[j]
  {
    var info := read(paths.values[last]).value;
    PackageDependenciesDistinct(info);
    assert last !in m0.values by {
      assert last !in Elems(init);
    }
    SetNewKey(m0, last, PackageDependencies(info));
  }

  /**
   * The map has exactly the keys of the paths map, in its order, and each
   * package's set is built from that package's manifest; the build succeeds
   * exactly when every manifest can be read.
   */
  lemma AllPackageDependenciesShape(read: Resolver, paths: OrderedMap<string>)
    requires paths.Valid()
    ensures AllPackageDependencies(read, paths).Success? <==>
      forall k :: k in paths.values ==> read(paths.values[k]).Success?
    ensures AllPackageDependencies(read, paths).Success? ==>
      var m := AllPackageDependencies(read, paths).value;
      IsDependencyMap(m) && m.keys == paths.keys &&
      forall k :: k in paths.values ==> m.values[k] == PackageDependencies(read(paths.values[k]).value)
  {
    GatheredSucceeds(read, paths, paths.keys);
    if forall k :: k in paths.values ==> read(paths.values[k]).Success? {
      GatheredShape(read, paths, paths.keys);
    }
  }

  /** The failure reported is that of the first package, in key order, whose read fails. */
  lemma {:induction false} GatheredFirstFailure(read: Resolver, paths: OrderedMap<string>, names: seq<string>, i: nat)
    requires forall n :: n in names ==> n in paths.values
    requires i < |names| && read(paths.values[names[i]]).Failure?
    requires forall j :: 0 <= j < i ==> read(paths.values[names[j]]).Success?
    ensures Gathered(read, paths, names) == Failure(read(paths.values[names[i]]).error)
  {
    var prefix := names[..i];
    assert forall n :: n in prefix ==> read(paths.values[n]).Success? by {
      forall n | n in prefix ensures read(paths.values[n]).Success? {
        var j := IndexOf(prefix, n);
        assert names[j] == n;
      }
    }
    GatheredSucceeds(read, paths, prefix);
    assert names[..i + 1][..i] == prefix;
    FailureStaysFailure(read, paths, names, i + 1);
  }
}
