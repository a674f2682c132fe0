/** Facts about sequences used as ordered collections of package names. */
module Sequences {

  /** No element occurs twice: what a JS `Set` or the key list of a `Map` guarantees. */
  predicate Distinct<T(==)>(s: seq<T>) {
    forall i, j :: 0 <= i < j < |s| ==> s[i] != s[j]
  }

  /** The elements of `s`, forgetting order and multiplicity. */
  function Elems<T>(s: seq<T>): set<T> {
    set x | x in s
  }

  /** The elements of a concatenation are those of its parts. */
  lemma ElemsConcat<T>(a: seq<T>, b: seq<T>)
    ensures Elems(a + b) == Elems(a) + Elems(b)
  {
    assert forall x :: x in a + b <==> x in a || x in b;
  }

  /** The position of the first occurrence of `x` in `s`, or `|s|` when there is none. */
  function IndexOf<T(==)>(s: seq<T>, x: T): (i: nat)
    ensures i <= |s|
    ensures i < |s| <==> x in s
    ensures i < |s| ==> s[i] == x && x !in s[..i]
  {
    if s == [] then 0
    else if s[0] == x then 0
    else
      var j := IndexOf(s[1..], x);
      assert j < |s| - 1 ==> s[..j + 1] == [s[0]] + s[1..][..j];
      1 + j
  }

  /** An element of a prefix is first found at the same place in the whole sequence. */
  lemma IndexOfPrefix<T>(s: seq<T>, k: nat, x: T)
    requires k <= |s| && x in s[..k]
    ensures IndexOf(s, x) == IndexOf(s[..k], x)
  {
    var i := IndexOf(s[..k], x);
    assert s[..k][..i] == s[..i];
  }

  /** In a sequence without repetitions, the element at `i` is first found at `i`. */
  lemma IndexOfDistinct<T>(s: seq<T>, i: nat)
    requires Distinct(s) && i < |s|
    ensures IndexOf(s, s[i]) == i
  {
  }

  /** Two sequences without repetitions and without common elements make one. */
  lemma DistinctConcat<T>(a: seq<T>, b: seq<T>)
    requires Distinct(a) && Distinct(b) && Elems(a) !! Elems(b)
    ensures Distinct(a + b)
  {
    forall i, j | 0 <= i < j < |a + b| ensures (a + b)[i] != (a + b)[j] {
      if i < |a| && j >= |a| {
        assert (a + b)[i] in Elems(a) && (a + b)[j] in Elems(b);
      }
    }
  }

  /** The elements of a non-empty sequence are its head and those of its tail. */
  lemma ElemsCons<T>(s: seq<T>)
    requires s != []
    ensures Elems(s) == {s[0]} + Elems(s[1..])
  {
    assert s == [s[0]] + s[1..];
    ElemsConcat([s[0]], s[1..]);
  }

  /** A sequence without repetitions is determined by its elements when it has at most one. */
  lemma DistinctFewElements<T>(s: seq<T>, x: T)
    requires Distinct(s)
    ensures Elems(s) == {} ==> s == []
    ensures Elems(s) == {x} ==> s == [x]
  {
    if s != [] {
      assert s[0] in Elems(s);
      if |s| > 1 {
        assert s[1] in Elems(s) && s[0] != s[1];
      }
    }
  }

  /** The head of a sequence without repetitions does not recur in its tail. */
  lemma DistinctTail<T>(s: seq<T>)
    requires Distinct(s) && s != []
    ensures s[0] !in s[1..] && Distinct(s[1..])
  {
    forall k | 0 <= k < |s| - 1 ensures s[1..][k] != s[0] {
      assert s[1..][k] == s[k + 1];
    }
  }

  /** The elements of `sub` come in the same relative order as they do in `s`. */
  ghost predicate InOrderOf<T>(sub: seq<T>, s: seq<T>) {
    forall i, j :: 0 <= i < j < |sub| ==> IndexOf(s, sub[i]) < IndexOf(s, sub[j])
  }

  /** A sequence without repetitions is in its own order. */
  lemma InOrderOfSelf<T>(s: seq<T>)
    requires Distinct(s)
    ensures InOrderOf(s, s)
  {
    forall i, j | 0 <= i < j < |s| ensures IndexOf(s, s[i]) < IndexOf(s, s[j]) {
      IndexOfDistinct(s, i);
      IndexOfDistinct(s, j);
    }
  }

  /** Keeping the relative order is transitive through a sequence without repetitions. */
  lemma InOrderOfTransitive<T>(a: seq<T>, b: seq<T>, c: seq<T>)
    requires InOrderOf(a, b) && InOrderOf(b, c) && Distinct(b)
    requires Elems(a) <= Elems(b)
    ensures InOrderOf(a, c)
  {
    forall i, j | 0 <= i < j < |a|
      ensures IndexOf(c, a[i]) < IndexOf(c, a[j])
    {
      assert a[i] in Elems(b) && a[j] in Elems(b);
      var p, q := IndexOf(b, a[i]), IndexOf(b, a[j]);
      assert p < q;
      assert b[p] == a[i] && b[q] == a[j];
    }
  }

  /** `s` without any occurrence of `x`: what `Set.prototype.delete` does to a set. */
  function Remove<T(==,!new)>(s: seq<T>, x: T): (r: seq<T>)
    ensures forall y :: y in r <==> y in s && y != x
    ensures x !in s ==> r == s
    ensures Distinct(s) ==> Distinct(r)
  {
    if s == [] then []
    else
      var rest := Remove(s[1..], x);
      if s[0] == x then rest
      else
        assert Distinct(s) ==> s[0] !in rest by {
          if Distinct(s) { DistinctTail(s); }
        }
        [s[0]] + rest
  }

  /** An element other than the head is found one place further on than in the tail. */
  lemma IndexOfTail<T>(s: seq<T>, y: T)
    requires s != [] && y != s[0]
    ensures IndexOf(s, y) == 1 + IndexOf(s[1..], y)
  {
  }

  /** Order kept in the tail of `s` is kept in `s`, with or without the head in front. */
  lemma ConsInOrder<T>(s: seq<T>, t: seq<T>)
    requires s != [] && InOrderOf(t, s[1..])
    requires forall y :: y in t ==> y in s[1..] && y != s[0]
    ensures InOrderOf(t, s) && InOrderOf([s[0]] + t, s)
  {
    forall i, j | 0 <= i < j < |t| ensures IndexOf(s, t[i]) < IndexOf(s, t[j]) {
      assert t[i] in t && t[j] in t;
      IndexOfTail(s, t[i]);
      IndexOfTail(s, t[j]);
    }
    var u := [s[0]] + t;
    forall i, j | 0 <= i < j < |u| ensures IndexOf(s, u[i]) < IndexOf(s, u[j]) {
      assert u[j] == t[j - 1] && t[j - 1] in t;
      IndexOfTail(s, t[j - 1]);
      if i > 0 {
        assert u[i] == t[i - 1] && t[i - 1] in t;
        IndexOfTail(s, t[i - 1]);
      }
    }
  }

  /** Removing an element keeps the relative order of the others. */
  lemma {:induction false} RemoveInOrder<T(!new)>(s: seq<T>, x: T)
    requires Distinct(s)
    ensures InOrderOf(Remove(s, x), s)
  {
    if s != [] {
      DistinctTail(s);
      RemoveInOrder(s[1..], x);
      ConsInOrder(s, Remove(s[1..], x));
    }
  }

  /** In a sequence without repetitions every element occurs exactly once. */
  lemma {:induction false} DistinctMultiplicity<T>(s: seq<T>, x: T)
    requires Distinct(s)
    ensures multiset(s)[x] == if x in s then 1 else 0
  {
    if s != [] {
      DistinctTail(s);
      DistinctMultiplicity(s[1..], x);
      assert s == [s[0]] + s[1..];
      assert multiset(s) == multiset{s[0]} + multiset(s[1..]);
    }
  }

  /** Two sequences without repetitions and with the same elements are permutations of each other. */
  lemma DistinctPermutation<T>(a: seq<T>, b: seq<T>)
    requires Distinct(a) && Distinct(b) && Elems(a) == Elems(b)
    ensures multiset(a) == multiset(b)
  {
    forall x ensures multiset(a)[x] == multiset(b)[x] {
      DistinctMultiplicity(a, x);
      DistinctMultiplicity(b, x);
      assert x in a <==> x in Elems(a);
      assert x in b <==> x in Elems(b);
    }
  }
}
