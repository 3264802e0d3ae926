/** bump-version.py: the next release version, and its place in the sorted version list of the README. */
module Versions {

  import opened Pointers
  import opened VersionText

  function Parts(v: string): seq<string> {
    Split(v, ".")
  }

  predicate AllNumerals(parts: seq<string>) {
    forall i :: 0 <= i < |parts| ==> IsNumeral(parts[i])
  }

  /** Three numerals with dots between them. */
  predicate IsVersion(v: string) {
    |Parts(v)| == 3 && AllNumerals(Parts(v))
  }

  // ---------------------------------------------------------------- the order

  /**
    Lexicographic, over as many components as both lists have; nothing when a component that the comparison reaches
    is not a number. Components behind the first difference are not looked at.
   */
  function Compare(v1: seq<string>, v2: seq<string>): Option<int>
    decreases |v1|
  {
    if v1 == [] || v2 == [] then Some(0)
    else if !IsNumeral(v1[0]) || !IsNumeral(v2[0]) then None
    else if Int(v1[0]) > Int(v2[0]) then Some(1)
    else if Int(v1[0]) < Int(v2[0]) then Some(-1)
    else Compare(v1[1..], v2[1..])
  }

  /** A conversion that fails ends the comparison without an answer. */
  method CompareVersions(v1: seq<string>, v2: seq<string>) returns (r: Option<int>)
    ensures r == Compare(v1, v2)
  {
    var i := 0;
    while i < |v1| && i < |v2|
      invariant i <= |v1| && i <= |v2|
      invariant Compare(v1, v2) == Compare(v1[i..], v2[i..])
    {
      if !IsNumeral(v1[i]) || !IsNumeral(v2[i]) {
        return None;
      }
      if Int(v1[i]) > Int(v2[i]) {
        return Some(1);
      }
      if Int(v1[i]) < Int(v2[i]) {
        return Some(-1);
      }
      assert v1[i..][1..] == v1[i + 1..] && v2[i..][1..] == v2[i + 1..];
      i := i + 1;
    }
    return Some(0);
  }

  /** The components at which two lists first differ as numbers, or where the shorter one ends. */
  predicate IsFirstDifference(v1: seq<string>, v2: seq<string>, d: nat) {
    && d <= |v1| && d <= |v2|
    && (forall i :: 0 <= i < d ==> IsNumeral(v1[i]) && IsNumeral(v2[i]) && Int(v1[i]) == Int(v2[i]))
    && (d < |v1| && d < |v2| && IsNumeral(v1[d]) && IsNumeral(v2[d]) ==> Int(v1[d]) != Int(v2[d]))
  }

  /** The first difference decides, whatever stands behind it; the comparison fails when it is not between numbers. */
  lemma {:induction false} FirstDifferenceDecides(v1: seq<string>, v2: seq<string>, d: nat)
    requires IsFirstDifference(v1, v2, d)
    ensures Compare(v1, v2) ==
            if d == |v1| || d == |v2| then Some(0)
            else if !IsNumeral(v1[d]) || !IsNumeral(v2[d]) then None
            else if Int(v1[d]) > Int(v2[d]) then Some(1) else Some(-1)
    decreases d
  {
    if d > 0 {
      assert forall i :: 0 <= i < d - 1 ==> v1[1..][i] == v1[i + 1] && v2[1..][i] == v2[i + 1];
      FirstDifferenceDecides(v1[1..], v2[1..], d - 1);
    }
  }

  /** On number lists of one length the comparison is a total preorder, and it ties exactly on equal numbers. */
  lemma {:induction false} CompareTotalPreorder(a: seq<string>, b: seq<string>, c: seq<string>)
    requires AllNumerals(a) && AllNumerals(b) && AllNumerals(c)
    requires |a| == |b| == |c|
    ensures Compare(a, b).Some? && Compare(b, a).Some? && Compare(b, c).Some? && Compare(a, c).Some?
    ensures -1 <= Compare(a, b).value <= 1 && Compare(a, b).value == -Compare(b, a).value
    ensures Compare(a, b).value == 0 <==> forall i :: 0 <= i < |a| ==> Int(a[i]) == Int(b[i])
    ensures Compare(a, b).value <= 0 && Compare(b, c).value <= 0 ==> Compare(a, c).value <= 0
  {
    if a != [] {
      CompareTotalPreorder(a[1..], b[1..], c[1..]);
      if Int(a[0]) == Int(b[0]) {
        TailNumbers(a, b);
      }
    }
  }

  lemma TailNumbers(a: seq<string>, b: seq<string>)
    requires AllNumerals(a) && AllNumerals(b) && |a| == |b| > 0 && Int(a[0]) == Int(b[0])
    ensures (forall i :: 0 <= i < |a| ==> Int(a[i]) == Int(b[i]))
       <==> (forall i :: 0 <= i < |a| - 1 ==> Int(a[1..][i]) == Int(b[1..][i]))
  {
    if forall i :: 0 <= i < |a| - 1 ==> Int(a[1..][i]) == Int(b[1..][i]) {
      forall i | 0 <= i < |a| ensures Int(a[i]) == Int(b[i]) {
        if i > 0 {
          assert a[i] == a[1..][i - 1] && b[i] == b[1..][i - 1];
        }
      }
    }
  }

  /** What a three-part version stands for. */
  datatype Number = Number(major: nat, minor: nat, patch: nat)
  {
    predicate LessThan(other: Number) {
      || major < other.major
      || (major == other.major && (minor < other.minor || (minor == other.minor && patch < other.patch)))
    }
  }

  /** The number of a version; any other text is given the least one. */
  function Num(v: string): Number {
    if IsVersion(v) then Number(Int(Parts(v)[0]), Int(Parts(v)[1]), Int(Parts(v)[2])) else Number(0, 0, 0)
  }

  lemma CompareNumbers(a: string, b: string)
    requires IsVersion(a) && IsVersion(b)
    ensures Compare(Parts(a), Parts(b)) ==
            Some(if Num(b).LessThan(Num(a)) then 1 else if Num(a).LessThan(Num(b)) then -1 else 0)
  {
    CompareThree(Parts(a), Parts(b));
  }

  lemma CompareThree(a: seq<string>, b: seq<string>)
    requires |a| == 3 && |b| == 3 && AllNumerals(a) && AllNumerals(b)
    ensures var x, y := Number(Int(a[0]), Int(a[1]), Int(a[2])), Number(Int(b[0]), Int(b[1]), Int(b[2]));
            Compare(a, b) == Some(if y.LessThan(x) then 1 else if x.LessThan(y) then -1 else 0)
  {
    var a1, b1 := a[1..], b[1..];
    var a2, b2 := a1[1..], b1[1..];
    assert a2[1..] == [] && b2[1..] == [];
    assert Compare(a2, b2) == Some(if Int(a[2]) > Int(b[2]) then 1 else if Int(a[2]) < Int(b[2]) then -1 else 0);
    assert Compare(a1, b1) ==
           if Int(a[1]) > Int(b[1]) then Some(1) else if Int(a[1]) < Int(b[1]) then Some(-1) else Compare(a2, b2);
  }

  // ---------------------------------------------------------------- the next version

  /** The component that a bump increments is there and is a number. */
  predicate CanBump(parts: seq<string>, bump: string) {
    && (bump == "patch" ==> |parts| > 2 && IsNumeral(parts[2]))
    && (bump == "minor" ==> |parts| > 2 && IsNumeral(parts[1]))
  }

  function NextParts(parts: seq<string>, bump: string): seq<string>
    requires CanBump(parts, bump)
  {
    if bump == "patch" then parts[2 := Str(Int(parts[2]) + 1)]
    else if bump == "minor" then parts[2 := "0"][1 := Str(Int(parts[1]) + 1)]
    else parts
  }

  /** Fails exactly where the component to bump is missing or not a number; the others may be any text. */
  method CalculateNextVersion(release: string, bump: string) returns (next: Option<string>)
    ensures next.Some? <==> CanBump(Parts(release), bump)
    ensures next.Some? ==> next.value == NextVersion(release, bump)
  {
    var parts := Split(release, ".");
    if bump == "patch" {
      if |parts| <= 2 || !IsNumeral(parts[2]) {
        return None;
      }
      parts := parts[2 := Str(Int(parts[2]) + 1)];
    } else if bump == "minor" {
      if |parts| <= 2 {
        return None;
      }
      parts := parts[2 := "0"];
      if !IsNumeral(parts[1]) {
        return None;
      }
      parts := parts[1 := Str(Int(parts[1]) + 1)];
    }
    next := Some(Join(parts, "."));
  }

  function NextVersion(release: string, bump: string): string {
    if CanBump(Parts(release), bump) then Join(NextParts(Parts(release), bump), ".") else release
  }

  /** A bump of any release that can be bumped, as `v1.2.3` can: the components that it is about, and no others. */
  lemma BumpsOneComponent(release: string, bump: string)
    requires |Parts(release)| > 2
    requires (bump == "patch" && IsNumeral(Parts(release)[2])) || (bump == "minor" && IsNumeral(Parts(release)[1]))
    ensures CanBump(Parts(release), bump)
    ensures var parts, next := Parts(release), Parts(NextVersion(release, bump));
      && |next| == |parts|
      && (forall i :: 0 <= i < |parts| && i != 1 && i != 2 ==> next[i] == parts[i])
      && IsNumeral(next[1]) == IsNumeral(parts[1]) && IsNumeral(next[2])
      && (if bump == "patch" then next[1] == parts[1] && Int(next[2]) == Int(parts[2]) + 1
          else Int(next[1]) == Int(parts[1]) + 1 && next[2] == "0")
  {
    var parts := NextParts(Parts(release), bump);
    SplitChars(release, '.');
    forall i | 0 <= i < |parts| ensures '.' !in parts[i] {
      if parts[i] != Parts(release)[i] {
        NumeralChars(parts[i]);
      }
    }
    SplitJoin(parts, ".");
  }

  lemma NumeralChars(s: string)
    requires IsNumeral(s)
    ensures '.' !in s && ',' !in s
  {
  }

  lemma JoinedVersion(parts: seq<string>)
    requires |parts| == 3 && AllNumerals(parts)
    ensures IsVersion(Join(parts, ".")) && Parts(Join(parts, ".")) == parts
  {
    forall i | 0 <= i < 3 ensures '.' !in parts[i] {
      NumeralChars(parts[i]);
    }
    SplitJoin(parts, ".");
  }

  /** A bump gives a version again: one more patch, or one more minor with no patch, hence strictly greater. */
  lemma NextIsGreater(release: string, bump: string)
    requires IsVersion(release)
    ensures var next := NextVersion(release, bump);
      && IsVersion(next)
      && Num(next) == (if bump == "patch" then Num(release).(patch := Num(release).patch + 1)
                       else if bump == "minor" then Num(release).(minor := Num(release).minor + 1, patch := 0)
                       else Num(release))
      && (bump == "patch" || bump == "minor" ==> Compare(Parts(next), Parts(release)) == Some(1))
  {
    var parts := NextParts(Parts(release), bump);
    assert Int("0") == 0 by {
      assert "0"[..0] == "";
    }
    JoinedVersion(parts);
    CompareNumbers(NextVersion(release, bump), release);
  }

  // ---------------------------------------------------------------- the version list

  /** `line[2:-1]`, which is empty on a short line. */
  function Middle(line: string): string {
    if |line| < 3 then "" else line[2..|line| - 1]
  }

  /** `line[:2]`. */
  function Prefix(line: string): string {
    if |line| < 2 then line else line[..2]
  }

  function Listed(line: string): (vs: seq<string>)
    ensures vs != []
  {
    Split(Middle(line), ", ")
  }

  function WithInserted<T>(xs: seq<T>, x: T, i: nat): (r: seq<T>)
    requires i <= |xs|
    ensures multiset(r) == multiset(xs) + multiset{x}
    ensures r[i] == x && r[..i] == xs[..i] && r[i + 1..] == xs[i..]
  {
    assert xs == xs[..i] + xs[i..];
    xs[..i] + [x] + xs[i..]
  }

  predicate AllVersions(vs: seq<string>) {
    forall i :: 0 <= i < |vs| ==> IsVersion(vs[i])
  }

  /** A line of the list: a dash, a blank, versions separated by a comma and a blank, and a line end. */
  predicate IsListLine(line: string) {
    |line| >= 3 && line[..2] == "- " && line[|line| - 1] == '\n' && AllVersions(Listed(line))
  }

  function Nums(vs: seq<string>): (ns: seq<Number>)
    ensures |ns| == |vs|
  {
    seq(|vs|, i requires 0 <= i < |vs| => Num(vs[i]))
  }

  predicate Ascending(ns: seq<Number>) {
    forall i, j :: 0 <= i < j < |ns| ==> !ns[j].LessThan(ns[i])
  }

  predicate Sorted(vs: seq<string>) {
    Ascending(Nums(vs))
  }

  lemma VersionChars(v: string)
    requires IsVersion(v)
    ensures ',' !in v
  {
    forall i | 0 <= i < 3 ensures ',' !in Parts(v)[i] {
      NumeralChars(Parts(v)[i]);
    }
    JoinChars(Parts(v), ".", ',');
    JoinSplit(v, ".");
  }

  function Line(vs: seq<string>): string {
    "- " + Join(vs, ", ") + "\n"
  }

  /** Printing a list of versions gives a line of the list, and parsing that line gives the versions back. */
  lemma LineRoundTrip(vs: seq<string>)
    requires vs != [] && AllVersions(vs)
    ensures IsListLine(Line(vs)) && Listed(Line(vs)) == vs
  {
    assert Middle(Line(vs)) == Join(vs, ", ");
    forall i | 0 <= i < |vs| ensures ',' !in vs[i] {
      VersionChars(vs[i]);
    }
    assert ", "[0] == ',';
    SplitJoin(vs, ", ");
  }

  /** The position in front of the first greater number, or the end. */
  predicate IsInsertionPoint(ns: seq<Number>, n: Number, i: nat) {
    && i <= |ns|
    && (forall k :: 0 <= k < i ==> !n.LessThan(ns[k]))
    && (i < |ns| ==> n.LessThan(ns[i]))
  }

  function InsertionPoint(ns: seq<Number>, n: Number): (i: nat)
    ensures IsInsertionPoint(ns, n, i)
  {
    if ns == [] || n.LessThan(ns[0]) then 0
    else
      var i := InsertionPoint(ns[1..], n);
      assert forall k :: 0 < k < 1 + i ==> ns[k] == ns[1..][k - 1];
      1 + i
  }

  /** Inserting there keeps an ascending list ascending and puts the number after its equals. */
  lemma InsertKeepsAscending(ns: seq<Number>, n: Number, i: nat)
    requires Ascending(ns) && IsInsertionPoint(ns, n, i)
    ensures var r := WithInserted(ns, n, i);
            Ascending(r) && r[i] == n && forall k :: i < k < |r| ==> n.LessThan(r[k])
  {
    var r := WithInserted(ns, n, i);
    forall k | i < k < |r| ensures n.LessThan(r[k]) {
      assert r[k] == ns[k - 1];
      assert k - 1 > i ==> !ns[k - 1].LessThan(ns[i]);
    }
    forall a, b | 0 <= a < b < |r| ensures !r[b].LessThan(r[a]) {
      var a', b' := if a < i then a else a - 1, if b < i then b else b - 1;
      assert a != i ==> r[a] == ns[a'];
      assert b != i ==> r[b] == ns[b'];
    }
  }

  lemma NumsInserted(vs: seq<string>, v: string, i: nat)
    requires i <= |vs|
    ensures Nums(WithInserted(vs, v, i)) == WithInserted(Nums(vs), Num(v), i)
  {
    assert forall k :: 0 <= k < i ==> WithInserted(vs, v, i)[k] == vs[k];
    assert forall k :: i < k <= |vs| ==> WithInserted(vs, v, i)[k] == vs[k - 1];
  }

  lemma VersionsInserted(vs: seq<string>, v: string, i: nat)
    requires i <= |vs| && AllVersions(vs) && IsVersion(v)
    ensures AllVersions(WithInserted(vs, v, i))
  {
    forall k | 0 <= k <= |vs| ensures IsVersion(WithInserted(vs, v, i)[k]) {
      assert k < i ==> WithInserted(vs, v, i)[k] == vs[k];
      assert k > i ==> WithInserted(vs, v, i)[k] == vs[k - 1];
    }
  }

  /** What the method makes of a line of the list and a version. */
  function WithVersion(line: string, addition: string): string {
    Line(WithInserted(Listed(line), addition, InsertionPoint(Nums(Listed(line)), Num(addition))))
  }

  /** The comparison has an answer, and it is not "greater". */
  predicate NotAbove(v: string, addition: string) {
    var order := Compare(Parts(v), Parts(addition));
    order.Some? && order.value != 1
  }

  /** The first greater version by comparison is the first greater number. */
  lemma InsertsThere(line: string, addition: string, i: nat)
    requires IsListLine(line) && IsVersion(addition) && i <= |Listed(line)|
    requires var vs := Listed(line);
      && (forall k :: 0 <= k < i ==> Compare(Parts(vs[k]), Parts(addition)) != Some(1))
      && (i < |vs| ==> Compare(Parts(vs[i]), Parts(addition)) == Some(1))
    ensures Prefix(line) + Join(WithInserted(Listed(line), addition, i), ", ") + "\n" == WithVersion(line, addition)
  {
    var vs := Listed(line);
    forall k | 0 <= k < |vs|
      ensures Compare(Parts(vs[k]), Parts(addition)) == Some(1) <==> Num(addition).LessThan(Nums(vs)[k])
    {
      CompareNumbers(vs[k], addition);
    }
    var j := InsertionPoint(Nums(vs), Num(addition));
    assert i == j;
  }

  /**
    The addition goes in front of the first version that is greater, or to the end. It fails exactly when a
    comparison that comes before that place fails.
   */
  method AddToVersionListLine(line: string, addition: string) returns (r: Option<string>, ghost i: nat)
    ensures i <= |Listed(line)| && forall k :: 0 <= k < i ==> NotAbove(Listed(line)[k], addition)
    ensures i < |Listed(line)| ==>
              Compare(Parts(Listed(line)[i]), Parts(addition)) == if r.Some? then Some(1) else None
    ensures r.None? ==> i < |Listed(line)|
    ensures r.Some? ==> r.value == Prefix(line) + Join(WithInserted(Listed(line), addition, i), ", ") + "\n"
    ensures IsListLine(line) && IsVersion(addition) ==> r == Some(WithVersion(line, addition))
  {
    var versions := Split(Middle(line), ", ");
    var n := 0;
    while n < |versions|
      invariant 0 <= n <= |versions|
      invariant forall k :: 0 <= k < n ==> NotAbove(versions[k], addition)
    {
      var order := CompareVersions(Split(versions[n], "."), Split(addition, "."));
      if order.None? {
        assert IsListLine(line) && IsVersion(addition) ==> order.Some? by {
          if IsListLine(line) && IsVersion(addition) {
            CompareNumbers(versions[n], addition);
          }
        }
        return None, n;
      }
      if order.value == 1 {
        break;
      }
      n := n + 1;
    }
    i := n;
    var newVersions := versions[..n] + [addition] + versions[n..];
    r := Some(Prefix(line) + Join(newVersions, ", ") + "\n");
    if IsListLine(line) && IsVersion(addition) {
      InsertsThere(line, addition, i);
    }
  }

  /** A sorted line of the list becomes a sorted line of the list with exactly one version more. */
  lemma AdditionKeepsLine(line: string, addition: string)
    requires IsListLine(line) && Sorted(Listed(line)) && IsVersion(addition)
    ensures var line', i := WithVersion(line, addition), InsertionPoint(Nums(Listed(line)), Num(addition));
      && IsListLine(line') && Sorted(Listed(line'))
      && Listed(line') == WithInserted(Listed(line), addition, i)
      && multiset(Listed(line')) == multiset(Listed(line)) + multiset{addition}
  {
    var vs := Listed(line);
    var i := InsertionPoint(Nums(vs), Num(addition));
    InsertKeepsAscending(Nums(vs), Num(addition), i);
    NumsInserted(vs, addition, i);
    VersionsInserted(vs, addition, i);
    LineRoundTrip(WithInserted(vs, addition, i));
  }

  // ---------------------------------------------------------------- runs of bumps

  predicate AllBumps(bumps: seq<string>) {
    forall i :: 0 <= i < |bumps| ==> bumps[i] == "patch" || bumps[i] == "minor"
  }

  /** The versions that a sequence of bumps releases. */
  function Releases(release: string, bumps: seq<string>): seq<string>
    decreases |bumps|
  {
    if bumps == [] then []
    else
      var next := NextVersion(release, bumps[0]);
      [next] + Releases(next, bumps[1..])
  }

  /** The line after a sequence of runs of the script. */
  function LineAfter(release: string, line: string, bumps: seq<string>): string
    decreases |bumps|
  {
    if bumps == [] then line
    else
      var next := NextVersion(release, bumps[0]);
      LineAfter(next, WithVersion(line, next), bumps[1..])
  }

  /** Over every run of bumps the line stays well formed and sorted and gains exactly the released versions. */
  lemma {:induction false} ListStaysSorted(release: string, line: string, bumps: seq<string>)
    requires IsVersion(release) && IsListLine(line) && Sorted(Listed(line)) && AllBumps(bumps)
    ensures var r := LineAfter(release, line, bumps);
      && IsListLine(r) && Sorted(Listed(r))
      && multiset(Listed(r)) == multiset(Listed(line)) + multiset(Releases(release, bumps))
    decreases |bumps|
  {
    if bumps != [] {
      var next := NextVersion(release, bumps[0]);
      NextIsGreater(release, bumps[0]);
      AdditionKeepsLine(line, next);
      ListStaysSorted(next, WithVersion(line, next), bumps[1..]);
    }
  }

  /** No number of the list is above `n`. */
  predicate NoneAbove(ns: seq<Number>, n: Number) {
    forall i :: 0 <= i < |ns| ==> !n.LessThan(ns[i])
  }

  /** When no listed version is above the release, the bumps are appended in the order in which they were made. */
  lemma {:induction false} ReleasesAreAppended(release: string, line: string, bumps: seq<string>)
    requires IsVersion(release) && IsListLine(line) && Sorted(Listed(line)) && AllBumps(bumps)
    requires NoneAbove(Nums(Listed(line)), Num(release))
    ensures Listed(LineAfter(release, line, bumps)) == Listed(line) + Releases(release, bumps)
    decreases |bumps|
  {
    if bumps != [] {
      var next, rest := NextVersion(release, bumps[0]), bumps[1..];
      AppendOne(release, line, bumps[0]);
      ReleasesAreAppended(next, WithVersion(line, next), rest);
      AppendThenRest(Listed(line), next, Releases(next, rest));
    }
  }

  lemma AppendThenRest(vs: seq<string>, v: string, rest: seq<string>)
    ensures (vs + [v]) + rest == vs + ([v] + rest)
  {
  }

  lemma AppendOne(release: string, line: string, bump: string)
    requires IsVersion(release) && IsListLine(line) && Sorted(Listed(line)) && (bump == "patch" || bump == "minor")
    requires NoneAbove(Nums(Listed(line)), Num(release))
    ensures var next := NextVersion(release, bump); var line' := WithVersion(line, next);
      && IsVersion(next) && IsListLine(line') && Sorted(Listed(line'))
      && Listed(line') == Listed(line) + [next]
      && NoneAbove(Nums(Listed(line')), Num(next))
  {
    var next := NextVersion(release, bump);
    NextIsGreater(release, bump);
    AdditionKeepsLine(line, next);
    AppendedAtEnd(Listed(line), Num(release), next);
  }

  lemma AppendedAtEnd(vs: seq<string>, release: Number, next: string)
    requires release.LessThan(Num(next)) && NoneAbove(Nums(vs), release)
    ensures InsertionPoint(Nums(vs), Num(next)) == |vs|
    ensures WithInserted(vs, next, |vs|) == vs + [next]
    ensures NoneAbove(Nums(vs + [next]), Num(next))
  {
    assert Nums(vs + [next]) == Nums(vs) + [Num(next)];
  }
}
