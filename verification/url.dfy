/** The `URL` class: splitting an input into protocol and target, and guessing its MIME type. */
module Url {
  import opened Wrappers
  import opened Strings
  import opened Paths
  import Percent
  import opened Environment

  datatype Url = Url(url: string, protocol: string, target: string, mimeType: Option<string>)

  /**
   * The characters the pattern `[a-z]` matches under `re.I`: the 52 ASCII
   * letters and four more that case-fold onto them.
   */
  predicate SchemeLetter(c: char) {
    'a' <= c <= 'z' || 'A' <= c <= 'Z'
    || c == '\U{0130}' || c == '\U{0131}' || c == '\U{017F}' || c == '\U{212A}'
  }

  /** Length of the longest prefix of `s` made of scheme letters. */
  function SchemeRun(s: string): (n: nat)
    ensures n <= |s|
    ensures forall k :: 0 <= k < n ==> SchemeLetter(s[k])
    ensures n < |s| ==> !SchemeLetter(s[n])
    decreases |s|
  {
    if |s| > 0 && SchemeLetter(s[0]) then 1 + SchemeRun(s[1..]) else 0
  }

  /** `re.match(r"([a-z]+)://", s, re.I)` succeeds. */
  predicate HasScheme(s: string) {
    SchemeRun(s) > 0 && StartsWith(s[SchemeRun(s)..], "://")
  }

  /** Python's `str.lower` on scheme letters. */
  function LowerChar(c: char): string {
    if 'A' <= c <= 'Z' then [(c as int + 32) as char]
    else if c == '\U{0130}' then "i\U{0307}"
    else if c == '\U{212A}' then "k"
    else [c]
  }

  function Lower(s: string): (r: string)
    ensures |r| >= |s|
  {
    if |s| == 0 then "" else LowerChar(s[0]) + Lower(s[1..])
  }

  /** `URL.__get_protocol_and_target__`: never fails, always names a protocol. */
  function Classify(url: string, cwd: string): (r: (string, string))
    ensures r.0 != ""
    ensures StartsWith(url, "/") ==> r == ("file", url)
    ensures !StartsWith(url, "/") && HasScheme(url) ==>
      r == (Lower(url[..SchemeRun(url)]), Percent.Unquote(url[SchemeRun(url) + 3..]))
    ensures !StartsWith(url, "/") && !HasScheme(url) ==> r == ("file", PathJoin(cwd, url))
  {
    if StartsWith(url, "/") then ("file", url)
    else if HasScheme(url) then
      var n := SchemeRun(url);
      (Lower(url[..n]), Percent.Unquote(url[n + 3..]))
    else
      ("file", PathJoin(cwd, url))
  }

  predicate AsciiLetters(s: string) {
    forall k :: 0 <= k < |s| ==> 'a' <= s[k] <= 'z' || 'A' <= s[k] <= 'Z'
  }

  lemma {:induction false} SchemeRunOfLetters(scheme: string, rest: string)
    requires AsciiLetters(scheme)
    requires |rest| > 0 && !SchemeLetter(rest[0])
    ensures SchemeRun(scheme + rest) == |scheme|
    decreases |scheme|
  {
    if |scheme| > 0 {
      assert (scheme + rest)[1..] == scheme[1..] + rest;
      SchemeRunOfLetters(scheme[1..], rest);
    } else {
      assert scheme + rest == rest;
    }
  }

  /**
   * Writing a scheme of ASCII letters, `://` and a percent-encoded target,
   * and classifying the result, gives back the lower-cased scheme and the
   * target.
   */
  lemma SchemeRoundTrip(scheme: string, target: string, cwd: string)
    requires scheme != "" && AsciiLetters(scheme)
    ensures Classify(scheme + "://" + Percent.Quote(target), cwd) == (Lower(scheme), target)
  {
    SchemeUrl(scheme, Percent.Quote(target), cwd);
    Percent.UnquoteQuote(target);
  }

  /** `scheme://rest` classifies as the lower-cased scheme and the decoded rest. */
  lemma SchemeUrl(scheme: string, rest: string, cwd: string)
    requires scheme != "" && AsciiLetters(scheme)
    ensures Classify(scheme + "://" + rest, cwd) == (Lower(scheme), Percent.Unquote(rest))
  {
    var url := scheme + "://" + rest;
    assert url == scheme + ("://" + rest);
    SchemeRunOfLetters(scheme, "://" + rest);
    assert url[0] == scheme[0];
    assert url[..|scheme|] == scheme;
    assert url[|scheme|..] == "://" + rest;
    assert url[|scheme| + 3..] == rest;
    assert !StartsWith(url, "/");
    assert HasScheme(url);
  }

  /**
   * `scheme:?...` (the form of magnet links) has no `://`, so it is taken
   * for a relative file name under the working directory.
   */
  lemma ColonQuestionIsRelativeFile(scheme: string, rest: string, cwd: string)
    requires scheme != "" && AsciiLetters(scheme)
    ensures Classify(scheme + ":?" + rest, cwd) == ("file", PathJoin(cwd, scheme + ":?" + rest))
  {
    var u := scheme + ":?" + rest;
    assert u == scheme + (":?" + rest);
    SchemeRunOfLetters(scheme, ":?" + rest);
    var n := SchemeRun(u);
    assert u[n..] == ":?" + rest;
    assert u[n..][1] == '?';
    assert !StartsWith(u[n..], "://");
    assert u[0] == scheme[0];
  }

  const OctetStream := "application/octet-stream"
  const ChmType := "application/x-chm"
  const SpringDemoType := "application/x-spring-demo"
  const BitTorrentType := "application/x-bittorrent"
  const SchemeHandlerPrefix := "x-scheme-handler/"

  /** The post-fix for generic binary results, keyed by extension. */
  function FixOctetStream(mt: Option<string>, ext: string): (r: Option<string>)
    ensures mt != Some(OctetStream) ==> r == mt
    ensures mt == Some(OctetStream) && ext == ".chm" ==> r == Some(ChmType)
    ensures mt == Some(OctetStream) && ext == ".sdf" ==> r == Some(SpringDemoType)
    ensures mt == Some(OctetStream) && ext != ".chm" && ext != ".sdf" ==> r == mt
  {
    if mt == Some(OctetStream) then
      if ext == ".chm" then Some(ChmType)
      else if ext == ".sdf" then Some(SpringDemoType)
      else mt
    else mt
  }

  /** The local path a `file` URL names: first `file://` removed, then percent-decoded. */
  function LocalPath(url: string): string {
    Percent.Unquote(ReplaceFirst(url, "file://", ""))
  }

  /**
   * The file the existence test and the sniffer look at: a relative local
   * path is resolved by the operating system against the working directory.
   * The empty path names no file at all (`os.stat("")` fails), so
   * `os.path.exists` is false for it whatever the working directory holds.
   */
  function OnDisk(url: string, cwd: string): (p: Option<string>)
    ensures p.None? <==> LocalPath(url) == ""
    ensures StartsWith(LocalPath(url), "/") ==> p == Some(LocalPath(url))
    ensures LocalPath(url) != "" && !StartsWith(LocalPath(url), "/") ==>
      p.Some? && StartsWith(p.value, cwd) && EndsWith(p.value, LocalPath(url))
  {
    if LocalPath(url) == "" then None else Some(PathJoin(cwd, LocalPath(url)))
  }

  /** `os.path.exists` on the local path of `url`. */
  predicate PathExists(url: string, env: Env) {
    OnDisk(url, env.cwd).Some? && Exists(env.fs, OnDisk(url, env.cwd).value)
  }

  /**
   * `URL.__get_mimetype__`, reading the protocol from the object as the
   * method evidently intends. The extension is taken from the local path as
   * written.
   */
  function MimeType(protocol: string, url: string, env: Env): (r: Option<string>)
    ensures protocol == "magnet" ==> r == Some(BitTorrentType)
    ensures protocol != "file" && protocol != "magnet" ==> r == Some(SchemeHandlerPrefix + protocol)
    ensures protocol == "file" && !PathExists(url, env) ==>
      var e := Ext(LocalPath(url));
      r == (if |e| > 1 && e in env.typesMap then FixOctetStream(Some(env.typesMap[e]), e) else None)
    ensures protocol == "file" && PathExists(url, env) ==>
      r == FixOctetStream(env.magic(OnDisk(url, env.cwd).value), Ext(LocalPath(url)))
    ensures protocol == "file" && LocalPath(url) == "" ==> r.None?
  {
    if protocol == "file" then
      var path := LocalPath(url);
      var e := Ext(path);
      var guess :=
        if !PathExists(url, env) then
          if |e| > 1 && e in env.typesMap then Some(env.typesMap[e]) else None
        else
          env.magic(OnDisk(url, env.cwd).value);
      FixOctetStream(guess, e)
    else if protocol == "magnet" then
      Some(BitTorrentType)
    else
      Some(SchemeHandlerPrefix + protocol)
  }

  /** `URL.__init__`: explicit non-empty arguments override what is derived from `url`. */
  function MakeUrl(url: string, protocol: string, target: string, mimeType: string, env: Env): (r: Url)
    ensures r.url == url
    ensures r.protocol == (if protocol != "" then protocol else Classify(url, env.cwd).0)
    ensures r.target == (if target != "" then target else Classify(url, env.cwd).1)
    ensures r.protocol != ""
    ensures mimeType != "" ==> r.mimeType == Some(mimeType)
    ensures mimeType == "" ==> r.mimeType == MimeType(r.protocol, url, env)
  {
    var pt :=
      if protocol == "" || target == "" then
        var c := Classify(url, env.cwd);
        (if protocol == "" then c.0 else protocol, if target == "" then c.1 else target)
      else
        (protocol, target);
    var m := if mimeType == "" then MimeType(pt.0, url, env) else Some(mimeType);
    Url(url, pt.0, pt.1, m)
  }

  /**
   * A `scheme://` input other than `file` and `magnet` resolves to the
   * scheme-handler type of its lower-cased scheme.
   */
  lemma SchemeHandlerMime(scheme: string, target: string, env: Env)
    requires scheme != "" && AsciiLetters(scheme)
    requires Lower(scheme) != "file" && Lower(scheme) != "magnet"
    ensures MakeUrl(scheme + "://" + Percent.Quote(target), "", "", "", env).mimeType
            == Some(SchemeHandlerPrefix + Lower(scheme))
  {
    SchemeRoundTrip(scheme, target, env.cwd);
  }

  /** The outcome of running the constructor exactly as the source spells it. */
  datatype Construction = Built(u: Url) | NameError(name: string)

  /**
   * `URL.__init__` as written: `__get_mimetype__` reads the unbound name
   * `protocol`, so every construction that has to guess a MIME type raises.
   */
  function MakeUrlAsWritten(url: string, protocol: string, target: string, mimeType: string, env: Env): (r: Construction)
    ensures r.Built? <==> mimeType != ""
    ensures mimeType == "" ==> r == NameError("protocol")
    ensures mimeType != "" ==> r == Built(MakeUrl(url, protocol, target, mimeType, env))
  {
    if mimeType == "" then NameError("protocol")
    else Built(MakeUrl(url, protocol, target, mimeType, env))
  }

  /** `xdg_open` builds every URL with the defaults, so as written no input gets a MIME type. */
  lemma AsWrittenEveryInputRaises(url: string, env: Env)
    ensures MakeUrlAsWritten(url, "", "", "", env) == NameError("protocol")
    ensures MakeUrl(url, "", "", "", env).mimeType == MimeType(Classify(url, env.cwd).0, url, env)
  {
  }

  /**
   * For a plain path (absolute, or relative without a scheme; no escapes,
   * no `file://`), the file whose type is sniffed is exactly the target the
   * constructor records, and a missing one is typed by its extension. The
   * empty argument exists nowhere and gets no type.
   */
  lemma SniffedFileIsTarget(u: string, env: Env)
    requires StartsWith(u, "/") || !HasScheme(u)
    requires forall k :: 0 <= k < |u| ==> u[k] != '%'
    requires !Contains(u, "file://")
    ensures var r := MakeUrl(u, "", "", "", env);
      && r.protocol == "file"
      && r.target == PathJoin(env.cwd, u)
      && (u != "" ==> OnDisk(u, env.cwd) == Some(r.target))
      && (u != "" && Exists(env.fs, r.target) ==> r.mimeType == FixOctetStream(env.magic(r.target), Ext(u)))
      && (u == "" || !Exists(env.fs, r.target) ==>
            r.mimeType == (if |Ext(u)| > 1 && Ext(u) in env.typesMap then FixOctetStream(Some(env.typesMap[Ext(u)]), Ext(u)) else None))
      && (u == "" ==> r.mimeType.None?)
  {
    Percent.UnquoteNoPercent(u);
    assert LocalPath(u) == u;
  }

  /**
   * `xdg-open ""` and `xdg-open file://` name the empty local path, which
   * does not exist, and it has no extension: the URL gets no MIME type.
   */
  lemma EmptyPathHasNoType(env: Env)
    ensures MakeUrl("", "", "", "", env).mimeType.None?
    ensures MakeUrl("file://", "", "", "", env).mimeType.None?
  {
    EmptyLocalPath("", env.cwd);
    EmptyLocalPath("file://", env.cwd);
  }

  /** The empty input and the bare `file://` both classify as `file` with the empty local path. */
  lemma EmptyLocalPath(u: string, cwd: string)
    requires u == "" || u == "file://"
    ensures Classify(u, cwd).0 == "file" && LocalPath(u) == ""
  {
    Percent.UnquoteNoPercent("");
    if u == "" {
      assert !HasScheme(u);
      assert ReplaceFirst(u, "file://", "") == "";
    } else {
      SchemeUrl("file", "", cwd);
      assert "file" + "://" + "" == u;
      LowerFile();
      BareFileUrlPath();
    }
  }

  lemma LowerFile()
    ensures Lower("file") == "file"
  {
    assert Lower("e") == "e" by { assert "e"[1..] == ""; }
    assert Lower("le") == "le" by { assert "le"[1..] == "e"; }
    assert Lower("ile") == "ile" by { assert "ile"[1..] == "le"; }
    assert "file"[1..] == "ile";
  }

  lemma BareFileUrlPath()
    ensures ReplaceFirst("file://", "file://", "") == ""
  {
    var u := "file://";
    assert StartsWith(u, u);
    assert Find(u, u) == 0;
  }

}
