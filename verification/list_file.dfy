/**
 * `desktop_list_parser`: reading `mimeapps.list` / `defaults.list` files,
 * one `mimetype=desktopfile` association per line.
 */
module ListFile {
  import opened Wrappers

  function Concat(lines: seq<string>): string {
    if |lines| == 0 then "" else lines[0] + Concat(lines[1..])
  }

  predicate NoNewline(s: string) {
    forall k :: 0 <= k < |s| ==> s[k] != '\n'
  }

  predicate EndsWithNewline(l: string) {
    |l| > 0 && l[|l| - 1] == '\n'
  }

  /** A line as Python's file iteration yields it: non-empty, a newline only at its end. */
  predicate WellFormedLine(l: string) {
    |l| > 0 && NoNewline(l[..|l| - 1])
  }

  /** Iterating over an open text file: lines keep their terminating newline. */
  function Lines(text: string): (ls: seq<string>)
    ensures Concat(ls) == text
    ensures forall i :: 0 <= i < |ls| ==> WellFormedLine(ls[i])
    ensures forall i :: 0 <= i < |ls| - 1 ==> EndsWithNewline(ls[i])
    decreases |text|
  {
    if |text| == 0 then []
    else if text[0] == '\n' then
      var rest := Lines(text[1..]);
      assert [text[0]] + text[1..] == text;
      assert (["\n"] + rest)[1..] == rest;
      ["\n"] + rest
    else
      var rest := Lines(text[1..]);
      if |rest| == 0 then
        assert text == [text[0]];
        [[text[0]]]
      else
        var first := [text[0]] + rest[0];
        var ls := [first] + rest[1..];
        assert ls[1..] == rest[1..];
        assert Concat(rest) == rest[0] + Concat(rest[1..]);
        assert first + Concat(rest[1..]) == [text[0]] + Concat(rest);
        assert [text[0]] + text[1..] == text;
        assert first[..|first| - 1] == [text[0]] + rest[0][..|rest[0]| - 1];
        ls
  }

  /**
   * Reading a file in text mode (universal newlines): `\r\n` and a lone
   * `\r` both become `\n`; everything else is kept.
   */
  function Translate(text: string): string
    decreases |text|
  {
    if |text| == 0 then ""
    else if text[0] == '\r' then
      "\n" + Translate(if |text| > 1 && text[1] == '\n' then text[2..] else text[1..])
    else [text[0]] + Translate(text[1..])
  }

  /** The translated text has no carriage return left and is never longer than the original. */
  lemma {:induction false} TranslateNoCr(text: string)
    ensures forall k :: 0 <= k < |Translate(text)| ==> Translate(text)[k] != '\r'
    ensures |Translate(text)| <= |text|
    decreases |text|
  {
    if |text| > 0 {
      var rest := if text[0] == '\r' && |text| > 1 && text[1] == '\n' then text[2..] else text[1..];
      TranslateNoCr(rest);
      if text[0] != '\r' {
        assert rest == text[1..];
      }
    }
  }

  /** A text without carriage returns reads back unchanged. */
  lemma {:induction false} TranslatePlain(text: string)
    requires forall k :: 0 <= k < |text| ==> text[k] != '\r'
    ensures Translate(text) == text
    decreases |text|
  {
    if |text| > 0 {
      TranslatePlain(text[1..]);
      assert [text[0]] + text[1..] == text;
    }
  }

  /** The lines a list file yields when iterated: newline-translated, then split. */
  function FileLines(text: string): seq<string> {
    Lines(Translate(text))
  }

  /** A `\r\n`-terminated association line reads as the `\n`-terminated one and yields the same pair. */
  lemma CrLfAssociation(key: string, value: string)
    requires key != "" && NoBracket(key)
    requires value != "" && NoNewline(value)
    requires forall k :: 0 <= k < |value| ==> value[k] != '=' && value[k] != '\r'
    requires forall k :: 0 <= k < |key| ==> key[k] != '\r'
    ensures Translate(key + "=" + value + "\r\n") == key + "=" + value + "\n"
    ensures MatchLine(Translate(key + "=" + value + "\r\n")) == Some((key, value))
  {
    var a := key + "=" + value;
    assert forall k :: 0 <= k < |a| ==> a[k] != '\r' by {
      forall k | 0 <= k < |a| ensures a[k] != '\r' {
        if k < |key| { assert a[k] == key[k]; }
        else if k > |key| { assert a[k] == value[k - |key| - 1]; }
      }
    }
    TranslateAppendCrLf(a);
    MatchAt(key, value, "\n");
  }

  lemma {:induction false} TranslateAppendCrLf(a: string)
    requires forall k :: 0 <= k < |a| ==> a[k] != '\r'
    ensures Translate(a + "\r\n") == a + "\n"
    decreases |a|
  {
    if |a| == 0 {
      assert a + "\r\n" == "\r\n";
      assert ("\r\n")[2..] == "";
    } else {
      TranslateAppendCrLf(a[1..]);
      assert (a + "\r\n")[1..] == a[1..] + "\r\n";
      assert [a[0]] + (a[1..] + "\n") == a + "\n";
    }
  }

  predicate NoBracket(s: string) {
    forall k :: 0 <= k < |s| ==> s[k] != '['
  }

  /**
   * What `(.+)[;]?$` captures from the text after `=`: everything up to a
   * single trailing newline, provided that is non-empty and holds no other
   * newline. A trailing `;` stays in the capture because `.+` is greedy.
   */
  function ValueOf(rest: string): (r: Option<string>)
    ensures r.Some? ==> r.value != "" && NoNewline(r.value)
  {
    var body := if |rest| > 0 && rest[|rest| - 1] == '\n' then rest[..|rest| - 1] else rest;
    if body != "" && NoNewline(body) then Some(body) else None
  }

  /** The pattern can match with the key part `line[..i]` and `=` at index `i`. */
  predicate IsSplit(line: string, i: int) {
    1 <= i < |line| && line[i] == '=' && NoBracket(line[..i]) && ValueOf(line[i + 1..]).Some?
  }

  /** The largest `i < j` at which the pattern can split the line. */
  function LastSplit(line: string, j: nat): (r: Option<nat>)
    requires j <= |line|
    ensures r.Some? ==> r.value < j && IsSplit(line, r.value)
    ensures forall i :: (if r.Some? then r.value + 1 else 0) <= i < j ==> !IsSplit(line, i)
  {
    if j == 0 then None
    else if IsSplit(line, j - 1) then Some(j - 1)
    else LastSplit(line, j - 1)
  }

  /**
   * `mt_df_re.search(line)`: the key part is the longest bracket-free prefix
   * followed by `=` that leaves a valid value; the greedy `[^[]+` backtracks
   * to it from the right. A line matches iff some split is possible, and
   * then the key is the longest possible one.
   */
  function MatchLine(line: string): (r: Option<(string, string)>)
    ensures r.None? <==> forall i :: 0 <= i < |line| ==> !IsSplit(line, i)
    ensures r.Some? ==>
      && IsSplit(line, |r.value.0|) && line[..|r.value.0|] == r.value.0
      && ValueOf(line[|r.value.0| + 1..]) == Some(r.value.1)
      && forall j :: |r.value.0| < j < |line| ==> !IsSplit(line, j)
  {
    match LastSplit(line, |line|)
    case None => None
    case Some(i) => Some((line[..i], ValueOf(line[i + 1..]).value))
  }

  predicate KeyIs(line: string, key: string) {
    MatchLine(line).Some? && MatchLine(line).value.0 == key
  }

  /** The search for one MIME type from line `n` on: the value of the first line whose key equals it. */
  function LookupFrom(lines: seq<string>, key: string, n: nat): (r: Option<string>)
    requires n <= |lines|
    ensures r.None? <==> forall i :: n <= i < |lines| ==> !KeyIs(lines[i], key)
    ensures r.Some? ==> exists i :: (n <= i < |lines| && MatchLine(lines[i]) == Some((key, r.value))
                                     && forall j :: n <= j < i ==> !KeyIs(lines[j], key))
    decreases |lines| - n
  {
    if n == |lines| then None
    else if KeyIs(lines[n], key) then Some(MatchLine(lines[n]).value.1)
    else
      var r := LookupFrom(lines, key, n + 1);
      assert r.Some? ==> exists i :: (n <= i < |lines| && MatchLine(lines[i]) == Some((key, r.value))
                                      && forall j :: n <= j < i ==> !KeyIs(lines[j], key)) by {
        if r.Some? {
          var i :| n + 1 <= i < |lines| && MatchLine(lines[i]) == Some((key, r.value))
                   && forall j :: n + 1 <= j < i ==> !KeyIs(lines[j], key);
          assert forall j :: n <= j < i ==> !KeyIs(lines[j], key);
        }
      }
      r
  }

  /** The search for one MIME type: the value of the first line whose key equals it. */
  function Lookup(lines: seq<string>, key: string): (r: Option<string>)
    ensures r.None? <==> forall i :: 0 <= i < |lines| ==> !KeyIs(lines[i], key)
    ensures r.Some? ==> exists i :: (0 <= i < |lines| && MatchLine(lines[i]) == Some((key, r.value))
                                     && forall j :: 0 <= j < i ==> !KeyIs(lines[j], key))
  {
    LookupFrom(lines, key, 0)
  }

  /** All associations in the file, folded left to right into a dict. */
  function Collect(lines: seq<string>): map<string, string>
    decreases |lines|
  {
    if |lines| == 0 then map[]
    else
      var m := Collect(lines[..|lines| - 1]);
      var last := MatchLine(lines[|lines| - 1]);
      if last.Some? then m[last.value.0 := last.value.1] else m
  }

  /** A key is collected exactly when some line carries it. */
  lemma {:induction false} CollectKeys(lines: seq<string>, k: string)
    ensures k in Collect(lines) <==> exists i :: 0 <= i < |lines| && KeyIs(lines[i], k)
    decreases |lines|
  {
    if |lines| > 0 {
      var init := lines[..|lines| - 1];
      CollectKeys(init, k);
      CollectLast(lines, k);
      ExistsLast(lines, init, l => KeyIs(l, k));
    }
  }

  /** Some element satisfies `f` iff the last one does or one before it. */
  lemma ExistsLast<T>(s: seq<T>, init: seq<T>, f: T -> bool)
    requires |s| > 0 && init == s[..|s| - 1]
    ensures (exists i :: 0 <= i < |s| && f(s[i])) <==> (exists i :: 0 <= i < |init| && f(init[i])) || f(s[|s| - 1])
  {
    if exists i :: 0 <= i < |init| && f(init[i]) {
      var i :| 0 <= i < |init| && f(init[i]);
      assert s[i] == init[i];
    }
    if exists i :: 0 <= i < |s| && f(s[i]) {
      var i :| 0 <= i < |s| && f(s[i]);
      if i < |init| {
        assert init[i] == s[i];
      }
    }
  }

  /** The last line adds its key, if it carries one, to those of the lines before it. */
  lemma CollectLast(lines: seq<string>, k: string)
    requires |lines| > 0
    ensures k in Collect(lines) <==> k in Collect(lines[..|lines| - 1]) || KeyIs(lines[|lines| - 1], k)
  {
  }

  /** A later line overrides an earlier one: the collected value is that of the last line with the key. */
  lemma {:induction false} CollectLastWins(lines: seq<string>, k: string, i: int)
    requires 0 <= i < |lines| && KeyIs(lines[i], k)
    requires forall j :: i < j < |lines| ==> !KeyIs(lines[j], k)
    ensures k in Collect(lines) && Collect(lines)[k] == MatchLine(lines[i]).value.1
    decreases |lines|
  {
    var init := lines[..|lines| - 1];
    if i < |lines| - 1 {
      assert init[i] == lines[i];
      assert forall j :: i < j < |init| ==> init[j] == lines[j];
      CollectLastWins(init, k, i);
    }
  }

  /** What `desktop_list_parser` returns. */
  datatype Parsed = NoMatch | One(desktopFile: string) | All(pairs: map<string, string>)

  /**
   * `desktop_list_parser(path, mime_type_find)` on the lines of the file:
   * with a non-empty key, the first matching value; otherwise every
   * association, or nothing when no line matched.
   */
  function Parse(lines: seq<string>, find: string): (r: Parsed)
    ensures find != "" ==> r.NoMatch? || r.One?
    ensures find != "" ==> (r.One? <==> Lookup(lines, find).Some?)
    ensures find != "" && r.One? ==> r.desktopFile == Lookup(lines, find).value
    ensures find == "" ==> r.NoMatch? || r.All?
    ensures find == "" ==> (r.NoMatch? <==> forall i :: 0 <= i < |lines| ==> MatchLine(lines[i]).None?)
    ensures r.All? ==> r.pairs == Collect(lines)
  {
    if find != "" then
      match Lookup(lines, find)
      case Some(v) => One(v)
      case None => NoMatch
    else
      var m := Collect(lines);
      if m == map[] then
        assert forall i :: 0 <= i < |lines| ==> MatchLine(lines[i]).None? by {
          forall i | 0 <= i < |lines| ensures MatchLine(lines[i]).None? {
            if MatchLine(lines[i]).Some? {
              var k := MatchLine(lines[i]).value.0;
              assert KeyIs(lines[i], k);
              CollectKeys(lines, k);
            }
          }
        }
        NoMatch
      else
        var k :| k in m;
        CollectKeys(lines, k);
        All(m)
  }

  /**
   * A plain association line splits at its `=`; the value keeps a trailing
   * `;`, and a `=` inside the key does not stop the key (the last `=` wins).
   */
  lemma MatchAssociation(key: string, value: string)
    requires key != "" && NoBracket(key)
    requires value != "" && NoNewline(value)
    requires forall k :: 0 <= k < |value| ==> value[k] != '='
    ensures MatchLine(key + "=" + value + "\n") == Some((key, value))
    ensures MatchLine(key + "=" + value) == Some((key, value))
  {
    MatchAt(key, value, "\n");
    MatchAt(key, value, "");
    assert key + "=" + value + "" == key + "=" + value;
  }

  lemma MatchAt(key: string, value: string, nl: string)
    requires key != "" && NoBracket(key)
    requires value != "" && NoNewline(value)
    requires forall k :: 0 <= k < |value| ==> value[k] != '='
    requires nl == "" || nl == "\n"
    ensures MatchLine(key + "=" + value + nl) == Some((key, value))
  {
    var line := key + "=" + value + nl;
    var n := |key|;
    assert line[..n] == key;
    assert line[n + 1..] == value + nl;
    assert ValueOf(value + nl) == Some(value) by {
      if nl == "\n" {
        assert (value + nl)[..|value|] == value;
      } else {
        assert value + nl == value;
      }
    }
    assert IsSplit(line, n);
    NoEqualsAfter(line, n, value, nl);
    LastSplitIs(line, n);
  }

  lemma NoEqualsAfter(line: string, n: int, value: string, nl: string)
    requires 0 <= n && n + 1 <= |line| && line[n + 1..] == value + nl
    requires forall k :: 0 <= k < |value| ==> value[k] != '='
    requires nl == "" || nl == "\n"
    ensures forall j :: n < j < |line| ==> line[j] != '='
  {
    forall j | n < j < |line| ensures line[j] != '=' {
      assert line[j] == (value + nl)[j - n - 1];
    }
  }

  /** The split `MatchLine` reports is the last possible one. */
  lemma LastSplitIs(line: string, i: int)
    requires IsSplit(line, i)
    requires forall j :: i < j < |line| ==> line[j] != '='
    ensures MatchLine(line) == Some((line[..i], ValueOf(line[i + 1..]).value))
  {
    var r := LastSplit(line, |line|);
    assert IsSplit(line, i);
    assert r.Some?;
    assert line[r.value] == '=';
    assert r.value == i;
  }

  /** Lines whose text before every `=` holds a `[`, such as group headers, never match. */
  lemma BracketLineNeverMatches(line: string)
    requires |line| > 0 && line[0] == '['
    ensures MatchLine(line).None?
  {
    forall i | 0 <= i < |line| ensures !IsSplit(line, i) {
      if 1 <= i {
        assert line[..i][0] == '[';
      }
    }
  }

  /** Searching for one key succeeds exactly when the key is among all associations. */
  lemma LookupAgreesWithCollect(lines: seq<string>, key: string)
    ensures Lookup(lines, key).Some? <==> key in Collect(lines)
  {
    CollectKeys(lines, key);
  }

  /** The search returns the value of the first line carrying the key. */
  lemma LookupFirst(lines: seq<string>, key: string, i: int)
    requires 0 <= i < |lines| && KeyIs(lines[i], key)
    requires forall j :: 0 <= j < i ==> !KeyIs(lines[j], key)
    ensures Lookup(lines, key) == Some(MatchLine(lines[i]).value.1)
  {
    var r := Lookup(lines, key);
    var k :| 0 <= k < |lines| && MatchLine(lines[k]) == Some((key, r.value))
             && forall j :: 0 <= j < k ==> !KeyIs(lines[j], key);
    assert KeyIs(lines[k], key);
    assert k == i;
  }

  /** When only one line carries the key, the search and the dict give the same file. */
  lemma LookupUniqueKey(lines: seq<string>, key: string, i: int)
    requires 0 <= i < |lines| && KeyIs(lines[i], key)
    requires forall j :: 0 <= j < |lines| && j != i ==> !KeyIs(lines[j], key)
    ensures Lookup(lines, key) == Some(MatchLine(lines[i]).value.1)
    ensures key in Collect(lines) && Collect(lines)[key] == MatchLine(lines[i]).value.1
  {
    assert forall j :: i < j < |lines| ==> !KeyIs(lines[j], key);
    CollectLastWins(lines, key, i);
    assert forall j :: 0 <= j < i ==> !KeyIs(lines[j], key);
    LookupFirst(lines, key, i);
  }
}
