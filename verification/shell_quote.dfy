/**
 * `shlex.quote` and, as its partner, the way a POSIX shell reads a single
 * word built from bare characters, single-quoted and double-quoted parts.
 */
module ShellQuote {
  import opened Wrappers
  import opened Strings

  /** The characters `shlex.quote` leaves bare: ASCII `\w` and `@%+=:,./-`. */
  predicate SafeChar(c: char) {
    'a' <= c <= 'z' || 'A' <= c <= 'Z' || '0' <= c <= '9'
    || c == '_' || c == '@' || c == '%' || c == '+' || c == '='
    || c == ':' || c == ',' || c == '.' || c == '/' || c == '-'
  }

  predicate AllSafe(s: string) {
    forall k :: 0 <= k < |s| ==> SafeChar(s[k])
  }

  /** How `shlex.quote` spells an embedded single quote inside single quotes. */
  const QuoteEscape := "'\"'\"'"

  /** `shlex.quote(s)`. */
  function Quote(s: string): (r: string)
    ensures |r| > 0
    ensures AllSafe(s) && s != "" ==> r == s
  {
    if s == "" then "''"
    else if AllSafe(s) then s
    else "'" + ReplaceAll(s, "'", QuoteEscape) + "'"
  }

  function Prepend(c: char, r: Option<string>): Option<string> {
    if r.Some? then Some([c] + r.value) else None
  }

  /**
   * Reads one shell word: bare safe characters stand for themselves, `'...'`
   * yields its contents verbatim, `"..."` yields its contents provided no
   * `$`, backquote or backslash occurs inside. None for anything else.
   */
  function ReadWord(w: string): Option<string>
    decreases |w|, 1
  {
    if |w| == 0 then Some("")
    else if w[0] == '\'' then ReadSingle(w[1..])
    else if w[0] == '"' then ReadDouble(w[1..])
    else if SafeChar(w[0]) then Prepend(w[0], ReadWord(w[1..]))
    else None
  }

  function ReadSingle(w: string): Option<string>
    decreases |w|, 0
  {
    if |w| == 0 then None
    else if w[0] == '\'' then ReadWord(w[1..])
    else Prepend(w[0], ReadSingle(w[1..]))
  }

  function ReadDouble(w: string): Option<string>
    decreases |w|, 0
  {
    if |w| == 0 then None
    else if w[0] == '"' then ReadWord(w[1..])
    else if w[0] == '$' || w[0] == '`' || w[0] == '\\' then None
    else Prepend(w[0], ReadDouble(w[1..]))
  }

  predicate NoQuote(s: string) {
    forall k :: 0 <= k < |s| ==> s[k] != '\''
  }

  lemma {:induction false} ReadSafe(s: string)
    requires AllSafe(s)
    ensures ReadWord(s) == Some(s)
    decreases |s|
  {
    if |s| > 0 {
      ReadSafe(s[1..]);
      assert s == [s[0]] + s[1..];
    }
  }

  /** Reading inside single quotes consumes a quote-free run verbatim. */
  lemma {:induction false} ReadSingleRun(p: string, rest: string)
    requires NoQuote(p)
    ensures ReadSingle(p + "'" + rest) == if ReadWord(rest).Some? then Some(p + ReadWord(rest).value) else None
    decreases |p|
  {
    var w := p + "'" + rest;
    if |p| == 0 {
      assert w == "'" + rest;
      assert w[0] == '\'' && w[1..] == rest;
      if ReadWord(rest).Some? {
        assert p + ReadWord(rest).value == ReadWord(rest).value;
      }
    } else {
      assert w[0] == p[0] && w[0] != '\'';
      assert w[1..] == p[1..] + "'" + rest;
      ReadSingleRun(p[1..], rest);
      assert ReadSingle(w) == Prepend(p[0], ReadSingle(w[1..]));
      if ReadWord(rest).Some? {
        assert [p[0]] + (p[1..] + ReadWord(rest).value) == p + ReadWord(rest).value;
      }
    }
  }

  /** An escaped quote `"'"` reads as one quote character. */
  lemma ReadEscapedQuote(rest: string)
    ensures ReadWord("\"'\"" + rest) == Prepend('\'', ReadWord(rest))
  {
    var w := "\"'\"" + rest;
    assert w[0] == '"';
    assert w[1..] == "'\"" + rest;
    assert w[1..][0] == '\'';
    assert w[1..][1..] == "\"" + rest;
    assert w[1..][1..][0] == '"';
    assert w[1..][1..][1..] == rest;
    assert ReadDouble(w[1..][1..]) == ReadWord(rest);
    assert ReadDouble(w[1..]) == Prepend('\'', ReadWord(rest));
  }

  /** The parts `Split` produces with a one-character separator avoid it. */
  lemma {:induction false} SplitPartsNoQuote(s: string)
    ensures forall i :: 0 <= i < |Split(s, "'")| ==> NoQuote(Split(s, "'")[i])
    decreases |s|
  {
    if |s| >= 1 {
      SplitPartsNoQuote(s[1..]);
      if s[..1] != "'" {
        assert s[0] != '\'';
      }
    }
  }

  /** The single-quoted form of a list of quote-free parts reads back as their join. */
  lemma {:induction false} ReadQuotedParts(parts: seq<string>)
    requires |parts| > 0
    requires forall i :: 0 <= i < |parts| ==> NoQuote(parts[i])
    ensures ReadWord("'" + Join(parts, QuoteEscape) + "'") == Some(Join(parts, "'"))
    decreases |parts|
  {
    var w := "'" + Join(parts, QuoteEscape) + "'";
    assert w[0] == '\'';
    assert w[1..] == Join(parts, QuoteEscape) + "'";
    if |parts| == 1 {
      assert w[1..] == parts[0] + "'" + "";
      ReadSingleRun(parts[0], "");
      assert parts[0] + "" == parts[0];
    } else {
      var more := parts[1..];
      ReadQuotedParts(more);
      var inner := "'" + Join(more, QuoteEscape) + "'";
      assert Join(parts, QuoteEscape) + "'" == parts[0] + "'" + ("\"'\"" + inner);
      ReadSingleRun(parts[0], "\"'\"" + inner);
      ReadEscapedQuote(inner);
      assert ReadWord("\"'\"" + inner) == Some("'" + Join(more, "'"));
      assert ReadWord(w) == ReadSingle(w[1..]);
      assert ReadSingle(w[1..]) == Some(parts[0] + ("'" + Join(more, "'")));
      assert Join(parts, "'") == parts[0] + "'" + Join(more, "'");
      assert parts[0] + ("'" + Join(more, "'")) == parts[0] + "'" + Join(more, "'");
    }
  }

  /** What `shlex.quote` produces, a POSIX shell reads back as the original string. */
  lemma QuoteRoundTrip(s: string)
    ensures ReadWord(Quote(s)) == Some(s)
  {
    if s == "" {
      assert "''"[1..] == "'";
      assert "'"[1..] == "";
    } else if AllSafe(s) {
      ReadSafe(s);
    } else {
      ReplaceAllIsSplitJoin(s, "'", QuoteEscape);
      SplitPartsNoQuote(s);
      ReadQuotedParts(Split(s, "'"));
      SplitJoinRoundTrip(s, "'");
    }
  }

  /** A path of safe characters is passed to the shell bare. */
  lemma QuotePlainPath()
    ensures Quote("/tmp/a.txt") == "/tmp/a.txt"
  {
  }

  /** A space forces single quotes; an embedded quote is spelled `'"'"'`. */
  lemma QuoteWithQuote()
    ensures Quote("it's") == "'it'\"'\"'s'"
  {
    assert !SafeChar("it's"[2]);
    assert "it's"[0] == 'i' && "it's"[1] == 't' && "it's"[2] == '\'';
    assert "it's"[..1] != "'";
    assert "it's"[1..][..1] != "'";
    assert "it's"[1..][1..][..1] == "'";
    assert "it's"[1..][1..][1..] == "s";
    assert "s"[..1] != "'";
  }
}
