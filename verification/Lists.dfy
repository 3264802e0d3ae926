/** Lists whose elements carry a string key: the filter behind every diff, and distinctness of keys. */
module Lists {

  ghost function Keys<T>(xs: seq<T>, key: T -> string): set<string> {
    set x | x in xs :: key(x)
  }

  /** The elements whose key is not in `ks`, in their original order and multiplicity. */
  function Without<T>(xs: seq<T>, key: T -> string, ks: set<string>): seq<T> {
    if xs == [] then []
    else
      var last := xs[|xs| - 1];
      Without(xs[..|xs| - 1], key, ks) + if key(last) in ks then [] else [last]
  }

  ghost predicate DistinctKeys<T>(xs: seq<T>, key: T -> string) {
    forall i, j :: 0 <= i < j < |xs| ==> key(xs[i]) != key(xs[j])
  }

  /** One more element of the list: the step of every diff loop. */
  lemma WithoutStep<T>(xs: seq<T>, key: T -> string, ks: set<string>, i: nat)
    requires i < |xs|
    ensures Without(xs[..i + 1], key, ks) == Without(xs[..i], key, ks) + if key(xs[i]) in ks then [] else [xs[i]]
  {
    assert xs[..i + 1][..i] == xs[..i];
  }

  /** The filter keeps exactly the multiplicity of every element it lets through, and nothing else. */
  lemma {:induction false} WithoutCounts<T>(xs: seq<T>, key: T -> string, ks: set<string>, x: T)
    ensures multiset(Without(xs, key, ks))[x] == if key(x) in ks then 0 else multiset(xs)[x]
  {
    if xs != [] {
      var n := |xs| - 1;
      WithoutCounts(xs[..n], key, ks, x);
      assert xs == xs[..n] + [xs[n]];
    }
  }

  /** `ps` lists, in increasing order, exactly the positions of `xs` whose key is not in `ks`. */
  ghost predicate KeptPositions<T>(ps: seq<nat>, xs: seq<T>, key: T -> string, ks: set<string>) {
    && (forall i :: 0 <= i < |ps| ==> ps[i] < |xs| && key(xs[ps[i]]) !in ks)
    && (forall i, j :: 0 <= i < j < |ps| ==> ps[i] < ps[j])
    && (forall p: nat :: p < |xs| && key(xs[p]) !in ks ==> p in ps)
  }

  lemma KeptPositionsStep<T>(front: seq<nat>, xs: seq<T>, key: T -> string, ks: set<string>)
    requires xs != [] && KeptPositions(front, xs[..|xs| - 1], key, ks)
    ensures key(xs[|xs| - 1]) in ks ==> KeptPositions(front, xs, key, ks)
    ensures key(xs[|xs| - 1]) !in ks ==> KeptPositions(front + [|xs| - 1], xs, key, ks)
  {
    var n := |xs| - 1;
    var ps := front + [n];
    assert ps[|front|] == n;
    forall p: nat | p < |xs| && key(xs[p]) !in ks ensures p in ps && (p < n ==> p in front) {
      if p < n {
        assert xs[..n][p] == xs[p];
      }
    }
    forall i | 0 <= i < |front| ensures front[i] < n && key(xs[front[i]]) !in ks {
      assert xs[..n][front[i]] == xs[front[i]];
    }
  }

  /** The filter read as positions: it holds the elements at exactly the kept positions, in increasing order. */
  lemma {:induction false} WithoutPositions<T>(xs: seq<T>, key: T -> string, ks: set<string>) returns (ps: seq<nat>)
    ensures KeptPositions(ps, xs, key, ks)
    ensures |ps| == |Without(xs, key, ks)|
    ensures forall i :: 0 <= i < |ps| ==> Without(xs, key, ks)[i] == xs[ps[i]]
  {
    if xs == [] {
      ps := [];
    } else {
      var n := |xs| - 1;
      var front := WithoutPositions(xs[..n], key, ks);
      KeptPositionsStep(front, xs, key, ks);
      var kept := Without(xs[..n], key, ks);
      assert forall i :: 0 <= i < |front| ==> kept[i] == xs[front[i]];
      ps := if key(xs[n]) in ks then front else front + [n];
    }
  }

  lemma WithoutMembers<T>(xs: seq<T>, key: T -> string, ks: set<string>)
    ensures forall x :: x in Without(xs, key, ks) <==> x in xs && key(x) !in ks
  {
    forall x
      ensures x in Without(xs, key, ks) <==> x in xs && key(x) !in ks
    {
      WithoutCounts(xs, key, ks, x);
      assert x in Without(xs, key, ks) <==> x in multiset(Without(xs, key, ks));
      assert x in xs <==> x in multiset(xs);
    }
  }

  lemma KeyOf<T>(xs: seq<T>, key: T -> string, x: T)
    requires x in xs
    ensures key(x) in Keys(xs, key)
  {
  }

  lemma WithoutKeys<T>(xs: seq<T>, key: T -> string, ks: set<string>)
    ensures Keys(Without(xs, key, ks), key) == Keys(xs, key) - ks
  {
    WithoutMembers(xs, key, ks);
    forall k | k in Keys(xs, key) - ks
      ensures k in Keys(Without(xs, key, ks), key)
    {
      var x :| x in xs && key(x) == k;
      KeyOf(Without(xs, key, ks), key, x);
    }
    forall k | k in Keys(Without(xs, key, ks), key)
      ensures k in Keys(xs, key) - ks
    {
      var x :| x in Without(xs, key, ks) && key(x) == k;
      KeyOf(xs, key, x);
    }
  }

  /** The filter finds nothing exactly when every key is already covered. */
  lemma WithoutEmpty<T>(xs: seq<T>, key: T -> string, ks: set<string>)
    ensures Without(xs, key, ks) == [] <==> Keys(xs, key) <= ks
  {
    WithoutMembers(xs, key, ks);
    var kept := Without(xs, key, ks);
    if kept != [] {
      var x := kept[0];
      WithoutCounts(xs, key, ks, x);
      assert x in multiset(kept);
      assert x in multiset(xs);
      KeyOf(xs, key, x);
    } else {
      forall k | k in Keys(xs, key) ensures k in ks {
        var x :| x in xs && key(x) == k;
        assert x !in kept;
      }
    }
  }

  lemma {:induction false} DistinctCounts<T>(xs: seq<T>, key: T -> string, x: T)
    requires DistinctKeys(xs, key)
    ensures multiset(xs)[x] == if x in xs then 1 else 0
  {
    if xs != [] {
      var n := |xs| - 1;
      DistinctCounts(xs[..n], key, x);
      assert xs == xs[..n] + [xs[n]];
      if x in xs[..n] {
        var i :| 0 <= i < n && xs[i] == x;
        assert key(xs[i]) != key(xs[n]);
      }
    }
  }

  /** Without repeated keys, two lists are permutations of each other exactly when they have the same elements. */
  lemma DistinctPermutation<T>(xs: seq<T>, ys: seq<T>, key: T -> string)
    requires DistinctKeys(xs, key) && DistinctKeys(ys, key)
    ensures multiset(xs) == multiset(ys) <==> forall x :: x in xs <==> x in ys
  {
    if forall x :: x in xs <==> x in ys {
      forall x ensures multiset(xs)[x] == multiset(ys)[x] {
        DistinctCounts(xs, key, x);
        DistinctCounts(ys, key, x);
      }
    }
    if multiset(xs) == multiset(ys) {
      assert forall x :: x in xs <==> x in multiset(xs);
      assert forall x :: x in ys <==> x in multiset(ys);
    }
  }
}
