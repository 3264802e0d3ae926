/** The sort-and-compare test: both lists are sorted by a string key with an unstable sort, then compared. */
module Ordering {

  import opened Lists

  /** Go's `<` on strings. */
  predicate Less(a: string, b: string) {
    b != [] && (a == [] || a[0] < b[0] || (a[0] == b[0] && Less(a[1..], b[1..])))
  }

  /** The first position at which two strings differ, or where the shorter one ends, decides their order. */
  lemma {:induction false} LessIsLexicographic(a: string, b: string, n: nat)
    requires n <= |a| && n <= |b| && a[..n] == b[..n]
    requires n == |a| || n == |b| || a[n] != b[n]
    ensures Less(a, b) <==> n < |b| && (n == |a| || a[n] < b[n])
    decreases n
  {
    if n > 0 {
      assert a[..n][0] == a[0] && b[..n][0] == b[0];
      assert a[..n][1..] == a[1..][..n - 1] && b[..n][1..] == b[1..][..n - 1];
      LessIsLexicographic(a[1..], b[1..], n - 1);
    }
  }

  lemma {:induction false} LessTrichotomy(a: string, b: string)
    ensures Less(a, b) || a == b || Less(b, a)
    ensures !(Less(a, b) && Less(b, a)) && !(a == b && Less(a, b))
  {
    if a != [] && b != [] && a[0] == b[0] {
      LessTrichotomy(a[1..], b[1..]);
      assert a == [a[0]] + a[1..] && b == [b[0]] + b[1..];
    }
  }

  lemma {:induction false} LessTransitive(a: string, b: string, c: string)
    requires !Less(b, a) && !Less(c, b)
    ensures !Less(c, a)
  {
    if c != [] && a != [] && b != [] && a[0] == b[0] == c[0] {
      LessTransitive(a[1..], b[1..], c[1..]);
    }
  }

  ghost predicate SortedBy<T>(s: seq<T>, key: T -> string) {
    forall i, j :: 0 <= i < j < |s| ==> !Less(key(s[j]), key(s[i]))
  }

  /** What an unstable sort may leave behind: any sorted permutation. */
  ghost predicate IsSortOf<T>(s: seq<T>, xs: seq<T>, key: T -> string) {
    multiset(s) == multiset(xs) && SortedBy(s, key)
  }

  lemma InFront<T>(x: T, s: seq<T>, key: T -> string)
    requires SortedBy(s, key) && (s != [] ==> !Less(key(s[0]), key(x)))
    ensures SortedBy([x] + s, key)
  {
    forall j | 0 <= j < |s| ensures !Less(key(s[j]), key(x)) {
      LessTrichotomy(key(s[0]), key(s[0]));
      LessTransitive(key(x), key(s[0]), key(s[j]));
    }
  }

  lemma InsertedFits<T>(x: T, s: seq<T>, r: seq<T>, key: T -> string)
    requires SortedBy(s, key) && s != [] && Less(key(s[0]), key(x))
    requires IsSortOf(r, [x] + s[1..], key)
    ensures IsSortOf([s[0]] + r, [x] + s, key)
  {
    LessTrichotomy(key(s[0]), key(x));
    assert s == [s[0]] + s[1..];
    forall j | 0 <= j < |r| ensures !Less(key(r[j]), key(s[0])) {
      assert r[j] in multiset(r);
      assert r[j] in multiset([x] + s[1..]);
      assert r[j] in [x] + s[1..];
    }
  }

  function Insert<T>(x: T, s: seq<T>, key: T -> string): (r: seq<T>)
    requires SortedBy(s, key)
    ensures IsSortOf(r, [x] + s, key)
  {
    if s == [] || !Less(key(s[0]), key(x)) then
      InFront(x, s, key);
      [x] + s
    else
      var r := Insert(x, s[1..], key);
      InsertedFits(x, s, r, key);
      [s[0]] + r
  }

  function Sort<T>(xs: seq<T>, key: T -> string): (r: seq<T>)
    ensures IsSortOf(r, xs, key)
  {
    if xs == [] then []
    else
      assert xs == [xs[0]] + xs[1..];
      Insert(xs[0], Sort(xs[1..], key), key)
  }

  /**
    sort.Slice on one list. Callers learn only that the result is some sorted permutation, so whatever they
    prove holds for every order in which an unstable sort may leave equal keys.
   */
  method SortSlice<T>(a: array<T>, key: T -> string)
    modifies a
    ensures IsSortOf(a[..], old(a[..]), key)
  {
    var s := Sort(a[..], key);
    assert |s| == a.Length by {
      assert |multiset(s)| == |multiset(a[..])|;
    }
    forall i | 0 <= i < a.Length {
      a[i] := s[i];
    }
    assert a[..] == s;
  }

  /** The deep copy both tests take before sorting, and the comparison of the two sorted lists. */
  method SortAndCompare<T(==,!new)>(desired: array<T>, actual: seq<T>, key: T -> string) returns (equal: bool)
    ensures MayReport(desired[..], actual, key, equal)
  {
    var d := new T[desired.Length](i requires 0 <= i < desired.Length reads desired => desired[i]);
    assert d[..] == desired[..];
    SortSlice(d, key);
    var a := new T[|actual|](i requires 0 <= i < |actual| => actual[i]);
    assert a[..] == actual;
    SortSlice(a, key);
    equal := d[..] == a[..];
    assert IsSortOf(d[..], desired[..], key) && IsSortOf(a[..], actual, key);
  }

  /** `answer` is possible for some pair of orders the two sorts may choose. */
  ghost predicate MayReport<T(!new)>(desired: seq<T>, actual: seq<T>, key: T -> string, answer: bool) {
    exists d: seq<T>, a: seq<T> :: IsSortOf(d, desired, key) && IsSortOf(a, actual, key) && answer == (d == a)
  }

  /** The key determines the element; in particular so when no key is repeated. */
  ghost predicate KeyDetermines<T>(xs: seq<T>, key: T -> string) {
    forall i, j :: 0 <= i < |xs| && 0 <= j < |xs| && key(xs[i]) == key(xs[j]) ==> xs[i] == xs[j]
  }

  lemma DistinctKeysDetermine<T>(xs: seq<T>, key: T -> string)
    requires DistinctKeys(xs, key)
    ensures KeyDetermines(xs, key)
  {
  }

  lemma KeyDeterminesPermutation<T>(xs: seq<T>, ys: seq<T>, key: T -> string)
    requires multiset(xs) == multiset(ys) && KeyDetermines(xs, key)
    ensures KeyDetermines(ys, key)
  {
    forall i, j | 0 <= i < |ys| && 0 <= j < |ys| && key(ys[i]) == key(ys[j])
      ensures ys[i] == ys[j]
    {
      assert ys[i] in multiset(xs) && ys[j] in multiset(xs) by {
        assert ys[i] in multiset(ys) && ys[j] in multiset(ys);
      }
      assert ys[i] in xs && ys[j] in xs;
    }
  }

  /** When the key determines the element there is only one sorted order. */
  lemma {:induction false} SortedUnique<T>(s: seq<T>, t: seq<T>, key: T -> string)
    requires multiset(s) == multiset(t) && SortedBy(s, key) && SortedBy(t, key) && KeyDetermines(s, key)
    ensures s == t
  {
    if s == [] || t == [] {
      assert |multiset(s)| == |multiset(t)|;
    } else {
      SameHead(s, t, key);
      SortedTail(s, key);
      SortedTail(t, key);
      KeyDeterminesTail(s, key);
      SortedUnique(s[1..], t[1..], key);
    }
  }

  lemma SortedTail<T>(s: seq<T>, key: T -> string)
    requires s != [] && SortedBy(s, key)
    ensures SortedBy(s[1..], key) && multiset(s[1..]) == multiset(s) - multiset{s[0]} && s == [s[0]] + s[1..]
  {
    assert s == [s[0]] + s[1..];
  }

  lemma SameHead<T>(s: seq<T>, t: seq<T>, key: T -> string)
    requires multiset(s) == multiset(t) && SortedBy(s, key) && SortedBy(t, key) && KeyDetermines(s, key)
    requires s != [] && t != []
    ensures s[0] == t[0]
  {
    assert s[0] in multiset(s) && t[0] in multiset(t);
    assert s[0] in multiset(t) && t[0] in multiset(s);
    var i :| 0 <= i < |t| && t[i] == s[0];
    var j :| 0 <= j < |s| && s[j] == t[0];
    LessTrichotomy(key(s[0]), key(t[0]));
    assert key(s[0]) == key(s[j]);
  }

  lemma KeyDeterminesTail<T>(s: seq<T>, key: T -> string)
    requires s != [] && KeyDetermines(s, key)
    ensures KeyDetermines(s[1..], key)
  {
  }

  /** A positive answer is never wrong: the two lists are permutations of each other. */
  lemma ReportSound<T(!new)>(desired: seq<T>, actual: seq<T>, key: T -> string)
    requires MayReport(desired, actual, key, true)
    ensures multiset(desired) == multiset(actual)
  {
  }

  /** Where the key determines the element the answer is exactly multiset equality, whatever the sort does. */
  lemma ReportExact<T(!new)>(desired: seq<T>, actual: seq<T>, key: T -> string, answer: bool)
    requires MayReport(desired, actual, key, answer)
    requires KeyDetermines(desired, key)
    ensures answer <==> multiset(desired) == multiset(actual)
  {
    var d, a :| IsSortOf(d, desired, key) && IsSortOf(a, actual, key) && answer == (d == a);
    if multiset(desired) == multiset(actual) {
      KeyDeterminesPermutation(desired, d, key);
      SortedUnique(d, a, key);
    }
  }

  /** Swapping two different elements with one key in a sorted list gives another sorted list. */
  lemma SwapEquals<T>(s: seq<T>, key: T -> string, i: nat, j: nat) returns (t: seq<T>)
    requires i < j < |s| && key(s[i]) == key(s[j]) && SortedBy(s, key)
    ensures IsSortOf(t, s, key) && |t| == |s| && t[i] == s[j]
  {
    t := s[i := s[j]][j := s[i]];
    assert forall k :: 0 <= k < |s| ==> key(t[k]) == key(s[k]);
  }

  lemma TwoSortedOrders<T(!new)>(desired: seq<T>, actual: seq<T>, key: T -> string)
    requires multiset(desired) == multiset(actual) && !KeyDetermines(desired, key)
    ensures MayReport(desired, actual, key, true) && MayReport(desired, actual, key, false)
  {
    var s := Sort(desired, key);
    if KeyDetermines(s, key) {
      KeyDeterminesPermutation(s, desired, key);
      assert false;
    }
    var i, j :| 0 <= i < |s| && 0 <= j < |s| && key(s[i]) == key(s[j]) && s[i] != s[j];
    var t := SwapEquals(s, key, if i < j then i else j, if i < j then j else i);
    assert s != t;
    assert IsSortOf(s, actual, key) && IsSortOf(t, actual, key);
    assert true == (s == s) && false == (s == t);
  }

  /**
    The answer depends on the order the unstable sort picks exactly when the two lists are permutations of
    each other and some key is shared by two different elements.
   */
  lemma ReportDeterminate<T(!new)>(desired: seq<T>, actual: seq<T>, key: T -> string)
    ensures MayReport(desired, actual, key, true) && MayReport(desired, actual, key, false)
       <==> multiset(desired) == multiset(actual) && !KeyDetermines(desired, key)
  {
    if multiset(desired) == multiset(actual) && !KeyDetermines(desired, key) {
      TwoSortedOrders(desired, actual, key);
    } else if MayReport(desired, actual, key, true) && MayReport(desired, actual, key, false) {
      ReportSound(desired, actual, key);
      if KeyDetermines(desired, key) {
        ReportExact(desired, actual, key, true);
        ReportExact(desired, actual, key, false);
      }
    }
  }

  /** Every possible answer, for every pair of lists: yes exactly for permutations, no unless they sort in one way. */
  lemma ReportPossible<T(!new)>(desired: seq<T>, actual: seq<T>, key: T -> string)
    ensures MayReport(desired, actual, key, true) <==> multiset(desired) == multiset(actual)
    ensures MayReport(desired, actual, key, false) <==>
              multiset(desired) != multiset(actual) || !KeyDetermines(desired, key)
  {
    var d, a := Sort(desired, key), Sort(actual, key);
    if multiset(desired) == multiset(actual) {
      assert IsSortOf(d, actual, key) && true == (d == d);
    } else {
      assert d != a by {
        assert multiset(d) != multiset(a);
      }
      assert IsSortOf(d, desired, key) && IsSortOf(a, actual, key) && false == (d == a);
    }
    ReportDeterminate(desired, actual, key);
  }
}
