/**
 * `normalizePackagePaths` of src/packages.ts: the package paths, keyed by
 * package name, given either as a `Map` or as a plain object, copied into a
 * new `Map`.
 */
module Packages {
  import opened Sequences
  import opened OrderedMaps

  /**
   * The two accepted forms.  An object is given by its own enumerable
   * properties and, separately, the enumerable properties it inherits from
   * its prototype chain, each in enumeration order.
   */
  datatype PackagePaths =
    | FromMap(paths: OrderedMap<string>)
    | FromObject(own: OrderedMap<string>, inherited: OrderedMap<string>)
  {
    predicate Valid() {
      match this
      case FromMap(paths) => paths.Valid()
      case FromObject(own, inherited) => own.Valid() && inherited.Valid()
    }

    /** What `for (const i in packagePaths)` visits: own keys, then inherited keys no own key shadows. */
    function ForInKeys(): (r: seq<string>)
      requires FromObject? && Valid()
      ensures own.keys <= r
      ensures forall k :: k in r <==> k in own.keys || k in inherited.keys
    {
      own.keys + Unshadowed(inherited.keys, own)
    }

    /** The entries the normalised `Map` holds, in its key order. */
    function Entries(): (r: OrderedMap<string>)
      requires Valid()
      ensures r.Valid()
    {
      match this
      case FromMap(paths) => paths
      case FromObject(own, _) => own
    }
  }

  /** The names of `names` that are not keys of `own`, in order. */
  function Unshadowed(names: seq<string>, own: OrderedMap<string>): (r: seq<string>)
    ensures forall k :: k in r <==> k in names && k !in own.values
  {
    if names == [] then []
    else (if names[0] in own.values then [] else [names[0]]) + Unshadowed(names[1..], own)
  }

  /** The first `n` entries of an ordered map. */
  function Take(m: OrderedMap<string>, n: nat): (r: OrderedMap<string>)
    requires m.Valid() && n <= |m.keys|
    ensures r.Valid() && r.keys == m.keys[..n]
  {
    var ks := m.keys[..n];
    assert Distinct(ks);
    OrderedMap(ks, map k | k in ks :: m.values[k])
  }

  /** Setting the next key of `m` extends its first `n` entries by one. */
  lemma TakeStep(m: OrderedMap<string>, n: nat)
    requires m.Valid() && n < |m.keys|
    ensures Take(m, n + 1) == Take(m, n).Set(m.keys[n], m.values[m.keys[n]])
  {
    var k := m.keys[n];
    assert m.keys[..n + 1] == m.keys[..n] + [k];
    assert k !in m.keys[..n];
    assert Take(m, n + 1).values == Take(m, n).values[k := m.values[k]];
  }

  /** All entries of a valid map are the map itself. */
  lemma TakeAll(m: OrderedMap<string>)
    requires m.Valid()
    ensures Take(m, |m.keys|) == m
  {
    assert m.keys[..|m.keys|] == m.keys;
  }

  /**
   * `normalizePackagePaths`: a `Map` is copied entry for entry; an object's
   * enumerable keys are visited with `for...in`, and each key that is an own
   * property is set to its value.
   */
  method NormalizePackagePaths(packagePaths: PackagePaths) returns (output: OrderedMap<string>)
    requires packagePaths.Valid()
    ensures output == packagePaths.Entries()
  {
    if packagePaths.FromMap? {
      return packagePaths.paths;
    }
    var own := packagePaths.own;
    output := EmptyMap();
    var keys := packagePaths.ForInKeys();
    for i := 0 to |keys|
      invariant output == Take(own, if i < |own.keys| then i else |own.keys|)
    {
      var name := keys[i];
      if name in own.values {
        assert i < |own.keys| && keys[i] == own.keys[i];
        TakeStep(own, i);
        output := output.Set(name, own.values[name]);
      }
    }
    TakeAll(own);
  }
}
