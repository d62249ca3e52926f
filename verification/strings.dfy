/**
 * The handful of Python `str` operations the resolver relies on:
 * `startswith`, `endswith`, `in`, `find`, `replace` (global and first-only),
 * `split` and `join`, all on strings as sequences of characters.
 */
module Strings {

  predicate StartsWith(s: string, p: string) {
    |p| <= |s| && s[..|p|] == p
  }

  predicate EndsWith(s: string, p: string) {
    |p| <= |s| && s[|s| - |p|..] == p
  }

  /** `p` occurs in `s` starting at index `i`. */
  predicate OccursAt(s: string, p: string, i: int) {
    0 <= i && i + |p| <= |s| && s[i..i + |p|] == p
  }

  /** Python's `p in s`. */
  predicate Contains(s: string, p: string) {
    exists i | 0 <= i <= |s| - |p| :: OccursAt(s, p, i)
  }

  lemma OccursAtTail(s: string, p: string, i: int)
    requires |s| > 0 && i >= 0
    ensures OccursAt(s, p, i + 1) <==> OccursAt(s[1..], p, i)
  {
    if i + 1 + |p| <= |s| {
      assert s[i + 1..i + 1 + |p|] == s[1..][i..i + |p|];
    }
  }

  /** Python's `s.find(p)`: the lowest index where `p` occurs, or -1. */
  function Find(s: string, p: string): (r: int)
    ensures r == -1 || OccursAt(s, p, r)
    ensures r == -1 <==> !Contains(s, p)
    ensures forall j :: 0 <= j < r ==> !OccursAt(s, p, j)
    decreases |s|
  {
    if StartsWith(s, p) then
      assert OccursAt(s, p, 0);
      0
    else if |s| == 0 then
      assert forall i :: !OccursAt(s, p, i);
      -1
    else
      var k := Find(s[1..], p);
      forall j | 1 <= j
        ensures OccursAt(s, p, j) <==> OccursAt(s[1..], p, j - 1)
      {
        OccursAtTail(s, p, j - 1);
      }
      assert !OccursAt(s, p, 0);
      if k < 0 then
        assert forall i :: OccursAt(s, p, i) ==> OccursAt(s[1..], p, i - 1);
        -1
      else
        k + 1
  }

  /**
   * Python's `s.replace(p, r)`: every non-overlapping occurrence of `p`,
   * scanning left to right, is replaced by `r`.
   */
  function ReplaceAll(s: string, p: string, r: string): string
    requires |p| > 0
    decreases |s|
  {
    if |s| < |p| then s
    else if s[..|p|] == p then r + ReplaceAll(s[|p|..], p, r)
    else [s[0]] + ReplaceAll(s[1..], p, r)
  }

  /** Python's `s.replace(p, r, 1)`: only the first occurrence is replaced. */
  function ReplaceFirst(s: string, p: string, r: string): (t: string)
    ensures !Contains(s, p) ==> t == s
    ensures Contains(s, p) ==>
      exists i :: OccursAt(s, p, i) && t == s[..i] + r + s[i + |p|..]
  {
    var i := Find(s, p);
    if i < 0 then s else s[..i] + r + s[i + |p|..]
  }

  /** Python's `s.split(p)` for a non-empty separator. */
  function Split(s: string, p: string): (parts: seq<string>)
    requires |p| > 0
    ensures |parts| > 0
    decreases |s|
  {
    if |s| < |p| then [s]
    else if s[..|p|] == p then [""] + Split(s[|p|..], p)
    else
      var rest := Split(s[1..], p);
      [[s[0]] + rest[0]] + rest[1..]
  }

  /** Python's `sep.join(parts)`. */
  function Join(parts: seq<string>, sep: string): string
  {
    if |parts| == 0 then ""
    else if |parts| == 1 then parts[0]
    else parts[0] + sep + Join(parts[1..], sep)
  }

  lemma JoinCons(x: string, parts: seq<string>, sep: string)
    requires |parts| > 0
    ensures Join([x] + parts, sep) == x + sep + Join(parts, sep)
  {
    assert ([x] + parts)[1..] == parts;
  }

  lemma JoinPrependChar(c: char, parts: seq<string>, sep: string)
    requires |parts| > 0
    ensures Join([[c] + parts[0]] + parts[1..], sep) == [c] + Join(parts, sep)
  {
    var q := [[c] + parts[0]] + parts[1..];
    assert q[1..] == parts[1..];
  }

  /**
   * Global replacement is the same as splitting at the pattern and joining
   * with the replacement, which is how Python documents `str.replace`.
   */
  lemma {:induction false} ReplaceAllIsSplitJoin(s: string, p: string, r: string)
    requires |p| > 0
    ensures ReplaceAll(s, p, r) == Join(Split(s, p), r)
    decreases |s|
  {
    if |s| < |p| {
    } else if s[..|p|] == p {
      ReplaceAllIsSplitJoin(s[|p|..], p, r);
      JoinCons("", Split(s[|p|..], p), r);
    } else {
      ReplaceAllIsSplitJoin(s[1..], p, r);
      JoinPrependChar(s[0], Split(s[1..], p), r);
    }
  }

  /** Replacing a pattern by itself changes nothing. */
  lemma {:induction false} ReplaceBySelf(s: string, p: string)
    requires |p| > 0
    ensures ReplaceAll(s, p, p) == s
    decreases |s|
  {
    if |s| < |p| {
    } else if s[..|p|] == p {
      ReplaceBySelf(s[|p|..], p);
      assert s == s[..|p|] + s[|p|..];
    } else {
      ReplaceBySelf(s[1..], p);
      assert s == [s[0]] + s[1..];
    }
  }

  /** Splitting and joining back with the same separator restores the string. */
  lemma SplitJoinRoundTrip(s: string, p: string)
    requires |p| > 0
    ensures Join(Split(s, p), p) == s
  {
    ReplaceAllIsSplitJoin(s, p, p);
    ReplaceBySelf(s, p);
  }

  /** A string that does not contain the pattern is left unchanged. */
  lemma {:induction false} ReplaceAbsent(s: string, p: string, r: string)
    requires |p| > 0
    requires !Contains(s, p)
    ensures ReplaceAll(s, p, r) == s
    decreases |s|
  {
    if |s| >= |p| {
      assert !OccursAt(s, p, 0);
      assert !Contains(s[1..], p) by {
        forall i | 0 <= i <= |s| - 1 - |p|
          ensures !OccursAt(s[1..], p, i)
        {
          OccursAtTail(s, p, i);
          assert !OccursAt(s, p, i + 1);
        }
      }
      ReplaceAbsent(s[1..], p, r);
      assert s == [s[0]] + s[1..];
    }
  }

  /**
   * Global replacement does not rescan its own output: removing "%d" from
   * "%%dd" leaves a fresh "%d" behind.
   */
  lemma ReplaceMayCreatePattern()
    ensures ReplaceAll("%%dd", "%d", "") == "%d"
  {
    assert "%%dd"[1] == '%' && "%d"[1] == 'd';
    assert "%%dd"[..2] != "%d";
    assert "%%dd"[1..] == "%dd";
    assert "%dd"[..2] == "%d";
    assert "%dd"[2..] == "d";
  }
}
