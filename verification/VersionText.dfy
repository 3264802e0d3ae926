/** The text functions of bump-version.py: splitting and joining, and decimal numerals. */
module VersionText {

  /** `s.split(sep)`: the leftmost occurrence of the separator ends a part. */
  function Split(s: string, sep: string): (parts: seq<string>)
    requires sep != ""
    ensures parts != []
    decreases |s|
  {
    if |s| < |sep| then [s]
    else if s[..|sep|] == sep then [""] + Split(s[|sep|..], sep)
    else
      var rest := Split(s[1..], sep);
      [[s[0]] + rest[0]] + rest[1..]
  }

  /** `sep.join(parts)`. */
  function Join(parts: seq<string>, sep: string): string {
    if parts == [] then ""
    else if |parts| == 1 then parts[0]
    else parts[0] + sep + Join(parts[1..], sep)
  }

  /** Lengthening the first part by a character in front lengthens the joined text in the same way. */
  lemma JoinFront(c: char, parts: seq<string>, sep: string)
    requires parts != []
    ensures Join([[c] + parts[0]] + parts[1..], sep) == [c] + Join(parts, sep)
  {
    var longer := [[c] + parts[0]] + parts[1..];
    assert longer[1..] == parts[1..];
    if |parts| > 1 {
      assert ([c] + parts[0]) + sep + Join(parts[1..], sep) == [c] + (parts[0] + sep + Join(parts[1..], sep));
    }
  }

  /** Joining undoes splitting. */
  lemma {:induction false} JoinSplit(s: string, sep: string)
    requires sep != ""
    ensures Join(Split(s, sep), sep) == s
    decreases |s|
  {
    if |s| < |sep| {
    } else if s[..|sep|] == sep {
      var rest := Split(s[|sep|..], sep);
      JoinSplit(s[|sep|..], sep);
      assert ([""] + rest)[1..] == rest;
      assert s == sep + s[|sep|..];
      assert "" + sep == sep;
    } else {
      JoinSplit(s[1..], sep);
      JoinFront(s[0], Split(s[1..], sep), sep);
      assert s == [s[0]] + s[1..];
    }
  }

  predicate NoneHolds(parts: seq<string>, c: char) {
    forall i :: 0 <= i < |parts| ==> c !in parts[i]
  }

  lemma SplitAtSeparator(s: string, sep: string)
    requires sep != ""
    ensures Split(sep + s, sep) == [""] + Split(s, sep)
  {
    assert (sep + s)[..|sep|] == sep && (sep + s)[|sep|..] == s;
  }

  lemma SplitOrdinary(c: char, s: string, sep: string)
    requires sep != "" && sep[0] != c
    ensures Split([c] + s, sep) == [[c] + Split(s, sep)[0]] + Split(s, sep)[1..]
  {
    var t := [c] + s;
    assert t[1..] == s && t[0] == c;
    if |t| < |sep| {
      assert Split(s, sep) == [s];
    } else {
      assert t[..|sep|][0] == c;
    }
  }

  /** Splitting undoes joining when no part holds the first character of the separator. */
  lemma {:induction false} SplitJoin(parts: seq<string>, sep: string)
    requires sep != "" && parts != [] && NoneHolds(parts, sep[0])
    ensures Split(Join(parts, sep), sep) == parts
    decreases |parts|, |parts[0]|
  {
    if parts[0] == "" {
      if |parts| > 1 {
        SplitJoin(parts[1..], sep);
        SplitAtSeparator(Join(parts[1..], sep), sep);
        assert parts[0] + sep == sep;
      }
      assert parts == [parts[0]] + parts[1..];
    } else {
      var c := parts[0][0];
      var shorter := [parts[0][1..]] + parts[1..];
      assert c in parts[0];
      assert parts[0] == [c] + parts[0][1..];
      assert shorter[1..] == parts[1..];
      assert parts == [[c] + shorter[0]] + shorter[1..];
      SplitJoin(shorter, sep);
      JoinFront(c, shorter, sep);
      SplitOrdinary(c, Join(shorter, sep), sep);
    }
  }

  /** No part holds a one-character separator. */
  lemma {:induction false} SplitChars(s: string, c: char)
    ensures NoneHolds(Split(s, [c]), c)
    decreases |s|
  {
    if s == "" {
    } else if s[..1] == [c] {
      SplitChars(s[1..], c);
    } else {
      SplitChars(s[1..], c);
      assert s[..1] == [s[0]];
    }
  }

  /** A joined text has no characters but those of its parts and its separator. */
  lemma {:induction false} JoinChars(parts: seq<string>, sep: string, c: char)
    requires c !in sep && NoneHolds(parts, c)
    ensures c !in Join(parts, sep)
  {
    if |parts| > 1 {
      JoinChars(parts[1..], sep, c);
    }
  }

  predicate IsDigit(c: char) {
    '0' <= c <= '9'
  }

  predicate IsNumeral(s: string) {
    s != "" && forall i :: 0 <= i < |s| ==> IsDigit(s[i])
  }

  /** `int(s)` on a decimal numeral; leading zeros are allowed. */
  function Int(s: string): nat
    requires forall i :: 0 <= i < |s| ==> IsDigit(s[i])
  {
    if s == "" then 0
    else
      var last := s[|s| - 1];
      assert IsDigit(last);
      Int(s[..|s| - 1]) * 10 + (last as int - '0' as int)
  }

  /** Decimal, most significant digit first: one more digit at the end multiplies by ten and adds it. */
  lemma IntAppend(s: string, c: char)
    requires (forall i :: 0 <= i < |s| ==> IsDigit(s[i])) && IsDigit(c)
    ensures Int(s + [c]) == 10 * Int(s) + (c as int - '0' as int)
    ensures Int([]) == 0
  {
    assert (s + [c])[..|s|] == s;
  }

  /** `str(n)`, without leading zeros. */
  function Str(n: nat): (s: string)
    ensures IsNumeral(s) && Int(s) == n
    ensures s[0] == '0' <==> s == "0"
    ensures s == "0" ==> n == 0
  {
    var last := ['0' + (n % 10) as char];
    if n < 10 then
      assert last[..0] == "";
      last
    else
      var s := Str(n / 10) + last;
      assert s[..|s| - 1] == Str(n / 10);
      s
  }
}
