/**
 * Finding the desktop file for a key/value criterion: first through the
 * `mimeapps.list` / `defaults.list` association files (only for the
 * `MimeType` key), then by walking the configured directories for
 * `.desktop` files whose entry for the key contains the value.
 */
module Locator {
  import opened Wrappers
  import opened Strings
  import opened Paths
  import opened Environment
  import ListFile
  import Walk

  /** The outcome of a lookup; `Crash` stands for an exception the source does not catch. */
  datatype Found = Hit(entry: Entry) | Miss | Crash

  /** The association files tried under every root, in this order. */
  const ListFileNames: seq<string> := ["mimeapps.list", "defaults.list"]

  /** What `check_file` reports for one root. */
  datatype Listed = Listed(desktopFile: string, listFile: string) | Unlisted | ListCrash

  /** The list file at `p` parsed for `mime`, as `desktop_list_parser(p, mime)` returns it. */
  function ReadList(fs: Fs, p: string, mime: string): ListFile.Parsed
    requires IsFile(fs, p)
  {
    ListFile.Parse(ListFile.FileLines(fs.files[p]), mime)
  }

  /** `check_file` moves past `p`: it does not exist, or it is a list file with no answer. */
  predicate Skipped(fs: Fs, p: string, mime: string) {
    !Exists(fs, p) || (!IsDir(fs, p) && IsFile(fs, p) && ReadList(fs, p, mime).NoMatch?)
  }

  /**
   * What `check_file` makes of the one list file `p`: a missing file is
   * passed over; opening a directory raises; a parsed file answers with
   * the name it lists, passes when it lists nothing, and with an empty
   * `mime` answers with its whole table, which the caller then passes to
   * `os.path.join`, which raises.
   */
  function Probe(fs: Fs, p: string, mime: string): (r: Listed)
    ensures r.Unlisted? <==> Skipped(fs, p, mime)
    ensures r.Listed? ==>
      && r.listFile == p
      && mime != ""
      && IsFile(fs, p)
      && ListFile.Lookup(ListFile.FileLines(fs.files[p]), mime) == Some(r.desktopFile)
  {
    if !Exists(fs, p) then Unlisted
    else if IsDir(fs, p) then ListCrash
    else match ReadList(fs, p, mime)
      case NoMatch => Unlisted
      case One(d) => Listed(d, p)
      case All(_) => ListCrash
  }

  /** The first outcome, from position `n` on, that is not `Unlisted`: both loops of the lookup stop at the first answer. */
  function FirstAnswer(outs: seq<Listed>, n: nat): (r: Listed)
    requires n <= |outs|
    ensures r.Unlisted? <==> forall i :: n <= i < |outs| ==> outs[i].Unlisted?
    ensures !r.Unlisted? ==> exists i :: n <= i < |outs| && r == outs[i] && forall j :: n <= j < i ==> outs[j].Unlisted?
    decreases |outs| - n
  {
    if n == |outs| then Unlisted
    else if outs[n].Unlisted? then FirstAnswer(outs, n + 1)
    else outs[n]
  }

  /** `Probe` for every list file name under `dp`, in order. */
  function FileOutcomes(fs: Fs, dp: string, names: seq<string>, mime: string): (outs: seq<Listed>)
    ensures |outs| == |names| && forall i :: 0 <= i < |names| ==> outs[i] == Probe(fs, PathJoin(dp, names[i]), mime)
  {
    seq(|names|, i requires 0 <= i < |names| => Probe(fs, PathJoin(dp, names[i]), mime))
  }

  /** `check_file` for the root `dp`: the first list file that does not pass. */
  function CheckFiles(fs: Fs, dp: string, names: seq<string>, mime: string): (r: Listed)
    ensures r.Unlisted? <==> forall i :: 0 <= i < |names| ==> Skipped(fs, PathJoin(dp, names[i]), mime)
    ensures r.Listed? ==>
      && mime != ""
      && IsFile(fs, r.listFile)
      && ListFile.Lookup(ListFile.FileLines(fs.files[r.listFile]), mime) == Some(r.desktopFile)
  {
    var outs := FileOutcomes(fs, dp, names, mime);
    var r := FirstAnswer(outs, 0);
    assert r.Listed? ==> Probe(fs, r.listFile, mime) == r by {
      if r.Listed? {
        var i :| 0 <= i < |outs| && r == outs[i];
        assert r == Probe(fs, PathJoin(dp, names[i]), mime);
      }
    }
    r
  }

  /** The list file that answers is the first one under `dp` that is not skipped. */
  lemma CheckFilesListed(fs: Fs, dp: string, names: seq<string>, mime: string)
    ensures CheckFiles(fs, dp, names, mime).Listed? ==>
      exists i :: (0 <= i < |names| && CheckFiles(fs, dp, names, mime).listFile == PathJoin(dp, names[i])
                   && forall j :: 0 <= j < i ==> Skipped(fs, PathJoin(dp, names[j]), mime))
  {
    if CheckFiles(fs, dp, names, mime).Listed? {
      var i := AnsweringFile(fs, dp, names, mime);
    }
  }

  /** The position of the answering list file among `names`. */
  lemma AnsweringFile(fs: Fs, dp: string, names: seq<string>, mime: string) returns (i: int)
    requires CheckFiles(fs, dp, names, mime).Listed?
    ensures 0 <= i < |names| && CheckFiles(fs, dp, names, mime).listFile == PathJoin(dp, names[i])
    ensures forall j :: 0 <= j < i ==> Skipped(fs, PathJoin(dp, names[j]), mime)
  {
    var outs := FileOutcomes(fs, dp, names, mime);
    var r := CheckFiles(fs, dp, names, mime);
    assert r == FirstAnswer(outs, 0);
    i := FirstAnswerAt(outs, 0);
    assert r == Probe(fs, PathJoin(dp, names[i]), mime);
    forall j | 0 <= j < i ensures Skipped(fs, PathJoin(dp, names[j]), mime) {
      assert outs[j] == Probe(fs, PathJoin(dp, names[j]), mime);
    }
  }

  /** `check_file` for every root, in configured order. */
  function RootOutcomes(fs: Fs, roots: seq<string>, mime: string): (outs: seq<Listed>)
    ensures |outs| == |roots| && forall i :: 0 <= i < |roots| ==> outs[i] == CheckFiles(fs, roots[i], ListFileNames, mime)
  {
    seq(|roots|, i requires 0 <= i < |roots| => CheckFiles(fs, roots[i], ListFileNames, mime))
  }

  /**
   * The `check_file` outcome of the first root whose list files answer:
   * roots are tried in configured order and the loop stops at the first
   * answer.
   */
  function FirstListed(fs: Fs, roots: seq<string>, mime: string): (r: Listed)
    ensures var outs := RootOutcomes(fs, roots, mime);
      r.Unlisted? <==> forall i :: 0 <= i < |outs| ==> outs[i].Unlisted?
    ensures var outs := RootOutcomes(fs, roots, mime);
      !r.Unlisted? ==> exists i :: 0 <= i < |outs| && r == outs[i] && forall j :: 0 <= j < i ==> outs[j].Unlisted?
  {
    FirstAnswer(RootOutcomes(fs, roots, mime), 0)
  }

  /** `get_full_path`: the first root under which `name` is a regular file. */
  function FullPath(fs: Fs, roots: seq<string>, name: string): (r: Option<string>)
    ensures r.None? <==> forall i :: 0 <= i < |roots| ==> !IsFile(fs, PathJoin(roots[i], name))
    ensures r.Some? ==> IsFile(fs, r.value)
    ensures r.Some? ==> exists i :: (0 <= i < |roots| && r.value == PathJoin(roots[i], name)
                                     && forall j :: 0 <= j < i ==> !IsFile(fs, PathJoin(roots[j], name)))
  {
    if |roots| == 0 then None
    else
      assert forall i :: 0 <= i < |roots| - 1 ==> roots[1..][i] == roots[i + 1];
      var p := PathJoin(roots[0], name);
      if IsFile(fs, p) then Some(p)
      else
        var r := FullPath(fs, roots[1..], name);
        assert r.Some? ==> exists i :: (0 <= i < |roots| && r.value == PathJoin(roots[i], name)
                                        && forall j :: 0 <= j < i ==> !IsFile(fs, PathJoin(roots[j], name))) by {
          if r.Some? {
            var i :| 0 <= i < |roots[1..]| && r.value == PathJoin(roots[1..][i], name)
                     && forall j :: 0 <= j < i ==> !IsFile(fs, PathJoin(roots[1..][j], name));
            assert roots[1..][i] == roots[i + 1];
            forall j | 0 <= j < i + 1 ensures !IsFile(fs, PathJoin(roots[j], name)) {
              if j > 0 { assert roots[1..][j - 1] == roots[j]; }
            }
          }
        }
        r
  }

  /** A desktop file opened at `p`: it records the path it was read from. */
  function Load(env: Env, p: string): Option<Entry> {
    if !IsFile(env.fs, p) then None
    else match env.parseDesktop(env.fs.files[p])
    case None => None
    case Some(g) => Some(Entry(p, g))
  }

  /**
   * `get_desktop_file_from_mime_list` once the list files have been read:
   * a named desktop file found under no root is a miss; a parse error of
   * the named file is not caught.
   */
  /** No list file answers, or the desktop file named is under no root. */
  predicate NoListedFile(env: Env, l: Listed) {
    l.Unlisted? || (l.Listed? && FullPath(env.fs, env.config.desktopFilePaths, l.desktopFile).None?)
  }

  /** `e` is the desktop file the answer names, found under the first root that holds it and parsed. */
  predicate LoadedListed(env: Env, l: Listed, e: Entry) {
    && l.Listed?
    && FullPath(env.fs, env.config.desktopFilePaths, l.desktopFile) == Some(e.fileName)
    && Load(env, e.fileName) == Some(e)
  }

  function FromListed(env: Env, l: Listed): (r: Found)
    ensures r.Miss? <==> NoListedFile(env, l)
    ensures r.Hit? ==> LoadedListed(env, l, r.entry)
  {
    match l
    case Unlisted => Miss
    case ListCrash => Crash
    case Listed(d, _) =>
      match FullPath(env.fs, env.config.desktopFilePaths, d)
      case None => Miss
      case Some(p) =>
        match Load(env, p)
        case None => Crash
        case Some(e) => Hit(e)
  }

  /** `get_desktop_file_from_mime_list`. */
  function FromMimeList(env: Env, mime: string): (r: Found)
    ensures r.Miss? <==> NoListedFile(env, FirstListed(env.fs, env.config.desktopFilePaths, mime))
    ensures r.Hit? ==> LoadedListed(env, FirstListed(env.fs, env.config.desktopFilePaths, mime), r.entry)
  {
    FromListed(env, FirstListed(env.fs, env.config.desktopFilePaths, mime))
  }

  /**
   * A hit from the association files is the desktop file that the first
   * answering list file names for `mime`, loaded from the first root that
   * holds it.
   */
  lemma FromMimeListHit(env: Env, mime: string)
    ensures FromMimeList(env, mime).Hit? ==>
      var roots := env.config.desktopFilePaths;
      var e := FromMimeList(env, mime).entry;
      exists i, k, d :: (0 <= i < |roots| && 0 <= k < |ListFileNames|
        && (forall j :: 0 <= j < i ==> CheckFiles(env.fs, roots[j], ListFileNames, mime).Unlisted?)
        && (forall m :: 0 <= m < k ==> Skipped(env.fs, PathJoin(roots[i], ListFileNames[m]), mime))
        && IsFile(env.fs, PathJoin(roots[i], ListFileNames[k]))
        && ListFile.Lookup(ListFile.FileLines(env.fs.files[PathJoin(roots[i], ListFileNames[k])]), mime) == Some(d)
        && FullPath(env.fs, roots, d) == Some(e.fileName)
        && IsFile(env.fs, e.fileName)
        && env.parseDesktop(env.fs.files[e.fileName]) == Some(e.group))
  {
    if FromMimeList(env, mime).Hit? {
      var i, k, d := MimeListSource(env, mime);
    }
  }

  /** The root `i`, list file `k` and listed name `d` behind a hit from the association files. */
  lemma MimeListSource(env: Env, mime: string) returns (i: int, k: int, d: string)
    requires FromMimeList(env, mime).Hit?
    ensures var roots := env.config.desktopFilePaths;
      var e := FromMimeList(env, mime).entry;
      && 0 <= i < |roots| && 0 <= k < |ListFileNames|
      && (forall j :: 0 <= j < i ==> CheckFiles(env.fs, roots[j], ListFileNames, mime).Unlisted?)
      && (forall m :: 0 <= m < k ==> Skipped(env.fs, PathJoin(roots[i], ListFileNames[m]), mime))
      && IsFile(env.fs, PathJoin(roots[i], ListFileNames[k]))
      && ListFile.Lookup(ListFile.FileLines(env.fs.files[PathJoin(roots[i], ListFileNames[k])]), mime) == Some(d)
      && FullPath(env.fs, roots, d) == Some(e.fileName)
      && IsFile(env.fs, e.fileName)
      && env.parseDesktop(env.fs.files[e.fileName]) == Some(e.group)
  {
    var roots := env.config.desktopFilePaths;
    var l := FirstListed(env.fs, roots, mime);
    ListedEntry(env, l);
    d := l.desktopFile;
    i, k := ListedAt(env.fs, roots, mime);
  }

  /** A hit for a list-file answer is the listed name, resolved under the roots and parsed. */
  lemma ListedEntry(env: Env, l: Listed)
    requires FromListed(env, l).Hit?
    ensures var e := FromListed(env, l).entry;
      && l.Listed?
      && FullPath(env.fs, env.config.desktopFilePaths, l.desktopFile) == Some(e.fileName)
      && IsFile(env.fs, e.fileName)
      && env.parseDesktop(env.fs.files[e.fileName]) == Some(e.group)
  {
    match l
    case Listed(d, _) =>
      match FullPath(env.fs, env.config.desktopFilePaths, d)
      case Some(p) =>
        assert Load(env, p) == Some(FromListed(env, l).entry);
  }

  /** The position of the first outcome from `n` on that is not `Unlisted`. */
  lemma FirstAnswerAt(outs: seq<Listed>, n: nat) returns (i: int)
    requires n <= |outs| && !FirstAnswer(outs, n).Unlisted?
    ensures n <= i < |outs| && FirstAnswer(outs, n) == outs[i]
    ensures forall j :: n <= j < i ==> outs[j].Unlisted?
  {
    i :| n <= i < |outs| && FirstAnswer(outs, n) == outs[i] && forall j :: n <= j < i ==> outs[j].Unlisted?;
  }

  /** Where the first answer comes from: root `i`, list file `k`, with every earlier root and list file passed over. */
  lemma ListedAt(fs: Fs, roots: seq<string>, mime: string) returns (i: int, k: int)
    requires FirstListed(fs, roots, mime).Listed?
    ensures 0 <= i < |roots| && 0 <= k < |ListFileNames|
    ensures FirstListed(fs, roots, mime) == CheckFiles(fs, roots[i], ListFileNames, mime)
    ensures forall j :: 0 <= j < i ==> CheckFiles(fs, roots[j], ListFileNames, mime).Unlisted?
    ensures forall m :: 0 <= m < k ==> Skipped(fs, PathJoin(roots[i], ListFileNames[m]), mime)
    ensures FirstListed(fs, roots, mime).listFile == PathJoin(roots[i], ListFileNames[k])
  {
    var outs := RootOutcomes(fs, roots, mime);
    var l := FirstListed(fs, roots, mime);
    i := FirstAnswerAt(outs, 0);
    forall j | 0 <= j < i ensures CheckFiles(fs, roots[j], ListFileNames, mime).Unlisted? {
      assert outs[j] == CheckFiles(fs, roots[j], ListFileNames, mime);
    }
    assert l == CheckFiles(fs, roots[i], ListFileNames, mime);
    k := AnsweringFile(fs, roots[i], ListFileNames, mime);
  }

  /** No root's list files name a desktop file for `mime`. */
  predicate NoneListed(fs: Fs, roots: seq<string>, mime: string) {
    forall i, j :: 0 <= i < |roots| && 0 <= j < |ListFileNames| ==> Skipped(fs, PathJoin(roots[i], ListFileNames[j]), mime)
  }

  lemma NoneListedUnlisted(fs: Fs, roots: seq<string>, mime: string)
    ensures FirstListed(fs, roots, mime).Unlisted? <==> NoneListed(fs, roots, mime)
  {
    if FirstListed(fs, roots, mime).Unlisted? {
      forall i, j | 0 <= i < |roots| && 0 <= j < |ListFileNames|
        ensures Skipped(fs, PathJoin(roots[i], ListFileNames[j]), mime)
      {
        assert CheckFiles(fs, roots[i], ListFileNames, mime).Unlisted?;
      }
    }
    if NoneListed(fs, roots, mime) {
      forall i | 0 <= i < |roots| ensures CheckFiles(fs, roots[i], ListFileNames, mime).Unlisted? {
        assert forall j :: 0 <= j < |ListFileNames| ==> Skipped(fs, PathJoin(roots[i], ListFileNames[j]), mime);
      }
    }
  }

  /** A miss from the association files: no root's list files name a desktop file, or the named one is under no root. */
  lemma FromMimeListMiss(env: Env, mime: string)
    ensures FromMimeList(env, mime).Miss? <==>
      var roots := env.config.desktopFilePaths;
      || NoneListed(env.fs, roots, mime)
      || (FirstListed(env.fs, roots, mime).Listed?
          && forall i :: 0 <= i < |roots| ==> !IsFile(env.fs, PathJoin(roots[i], FirstListed(env.fs, roots, mime).desktopFile)))
  {
    var roots := env.config.desktopFilePaths;
    NoneListedUnlisted(env.fs, roots, mime);
    match FirstListed(env.fs, roots, mime)
    case Unlisted =>
    case ListCrash =>
    case Listed(d, _) =>
      var fp := FullPath(env.fs, roots, d);
      if fp.Some? {
        assert FromMimeList(env, mime) == (match Load(env, fp.value) case None => Crash case Some(e) => Hit(e));
      }
  }

  /** `nrwalk`'s `maxdepth` default, `sys.maxsize` on a 64-bit build. */
  const MaxSize: int := 0x7FFF_FFFF_FFFF_FFFF

  /** The file filter of the search: everything not ending in `.desktop` is dropped. */
  predicate NotDesktop(name: string, root: string) {
    !EndsWith(name, ".desktop")
  }

  /** The walk the search performs under every root: no directory filter, only `.desktop` files. */
  function SearchParams(): Walk.Params {
    Walk.Params(0, MaxSize, (n, r) => false, NotDesktop)
  }

  /** `join(root, f)` for every file of every yielded node, in walk order. */
  function VisitPaths(vs: seq<Walk.Visit>): seq<string> {
    if |vs| == 0 then []
    else Joined(vs[0].node.root, vs[0].node.nondirs) + VisitPaths(vs[1..])
  }

  function Joined(root: string, names: seq<string>): seq<string> {
    if |names| == 0 then [] else [PathJoin(root, names[0])] + Joined(root, names[1..])
  }

  /** Every file the search opens, root by root, in the order it opens them. */
  function Candidates(fs: Fs, roots: seq<string>): seq<string>
    requires ValidFs(fs)
  {
    if |roots| == 0 then []
    else VisitPaths(Walk.WalkFrom(fs, roots[0], 0, SearchParams())) + Candidates(fs, roots[1..])
  }

  /** The entry's value for `key` contains `value` as a substring. */
  predicate Matches(e: Entry, key: string, value: string) {
    key in e.group && Contains(e.group[key], value)
  }

  /** The search looks at `p` and moves on: it parses to nothing, or to an entry that does not match. */
  predicate Passed(env: Env, p: string, key: string, value: string) {
    IsFile(env.fs, p) && (Load(env, p).None? || !Matches(Load(env, p).value, key, value))
  }

  /** The search passes over every one of `paths`. */
  predicate AllPassed(env: Env, paths: seq<string>, key: string, value: string) {
    forall i :: 0 <= i < |paths| ==> Passed(env, paths[i], key, value)
  }

  /**
   * The loop body of `get_desktop_file_by_search` over the candidate
   * files: opening a path that is not a regular file raises, a parse
   * error skips the file, and the first matching entry wins.
   */
  function Scan(env: Env, paths: seq<string>, key: string, value: string): (r: Found)
    ensures r.Miss? <==> forall i :: 0 <= i < |paths| ==> Passed(env, paths[i], key, value)
    ensures r.Hit? ==> Matches(r.entry, key, value)
  {
    if |paths| == 0 then Miss
    else
      assert forall i :: 0 <= i < |paths| - 1 ==> paths[1..][i] == paths[i + 1];
      var p := paths[0];
      if !IsFile(env.fs, p) then Crash
      else match Load(env, p)
        case None => Scan(env, paths[1..], key, value)
        case Some(e) => if Matches(e, key, value) then Hit(e) else Scan(env, paths[1..], key, value)
  }

  /** A hit of the scan is the first candidate that loads and matches. */
  lemma {:induction false} ScanHit(env: Env, paths: seq<string>, key: string, value: string)
    requires Scan(env, paths, key, value).Hit?
    ensures exists i :: (0 <= i < |paths| && Load(env, paths[i]) == Some(Scan(env, paths, key, value).entry)
                         && forall j :: 0 <= j < i ==> Passed(env, paths[j], key, value))
  {
    var p := paths[0];
    if !(IsFile(env.fs, p) && Load(env, p).Some? && Matches(Load(env, p).value, key, value)) {
      ScanHit(env, paths[1..], key, value);
      var i :| 0 <= i < |paths[1..]| && Load(env, paths[1..][i]) == Some(Scan(env, paths[1..], key, value).entry)
               && forall j :: 0 <= j < i ==> Passed(env, paths[1..][j], key, value);
      assert paths[1..][i] == paths[i + 1];
      forall j | 0 <= j < i + 1 ensures Passed(env, paths[j], key, value) {
        if j > 0 { assert paths[1..][j - 1] == paths[j]; }
      }
    }
  }

  /**
   * `get_desktop_file_by_search`: the candidates are opened in walk order;
   * the search misses iff every one is passed over, and a hit is the first
   * candidate that parses and matches.
   */
  function Search(env: Env, key: string, value: string): (r: Found)
    requires ValidFs(env.fs)
    ensures r.Miss? <==> AllPassed(env, Candidates(env.fs, env.config.desktopFilePaths), key, value)
    ensures r.Hit? ==> FirstMatch(env, Candidates(env.fs, env.config.desktopFilePaths), key, value, r.entry)
  {
    var c := Candidates(env.fs, env.config.desktopFilePaths);
    var r := Scan(env, c, key, value);
    assert r.Miss? <==> AllPassed(env, c, key, value);
    assert r.Hit? ==> FirstMatch(env, c, key, value, r.entry) by {
      if r.Hit? { ScanHit(env, c, key, value); }
    }
    r
  }

  /**
   * `get_desktop_file_by_search` as the source is written: `nrwalk` builds
   * its nodes with `namedtuple`, a name the module never imports, so the
   * first step of the walk under the first root raises `NameError`. Only
   * an empty root list gets past the loop, to the final miss.
   */
  function SearchAsWritten(env: Env, key: string, value: string): (r: Found)
    ensures r.Hit? == false
    ensures r.Crash? <==> |env.config.desktopFilePaths| > 0
  {
    if |env.config.desktopFilePaths| > 0 then Crash else Miss
  }

  /**
   * The missing import makes the search useless: wherever the walk would
   * have found a matching desktop file, the search as written raises
   * instead; with no root configured both give a miss.
   */
  lemma SearchAsWrittenRaises(env: Env, key: string, value: string)
    requires ValidFs(env.fs)
    ensures |env.config.desktopFilePaths| == 0 ==> SearchAsWritten(env, key, value) == Search(env, key, value) == Miss
    ensures Search(env, key, value).Hit? ==> SearchAsWritten(env, key, value).Crash?
    ensures Search(env, key, value).Hit? ==> SearchAsWritten(env, key, value) != Search(env, key, value)
  {
    if |env.config.desktopFilePaths| == 0 {
      assert Candidates(env.fs, env.config.desktopFilePaths) == [];
    }
  }

  lemma EndsWithJoin(root: string, n: string)
    requires PlainName(n) && EndsWith(n, ".desktop")
    ensures EndsWith(PathJoin(root, n), ".desktop")
  {
    assert n[0] != '/';
    var r := PathJoin(root, n);
    assert r[|r| - |n|..] == n;
    assert r[|r| - 8..] == n[|n| - 8..];
  }

  lemma {:induction false} JoinedLength(root: string, names: seq<string>)
    ensures |Joined(root, names)| == |names|
  {
    if |names| > 0 {
      JoinedLength(root, names[1..]);
    }
  }

  lemma {:induction false} JoinedAt(root: string, names: seq<string>, i: int)
    requires 0 <= i < |names|
    ensures |Joined(root, names)| == |names|
    ensures Joined(root, names)[i] == PathJoin(root, names[i])
  {
    JoinedLength(root, names);
    if i > 0 {
      JoinedAt(root, names[1..], i - 1);
    }
  }

  lemma JoinedDesktop(root: string, names: seq<string>)
    requires forall i :: 0 <= i < |names| ==> PlainName(names[i]) && EndsWith(names[i], ".desktop")
    ensures forall i :: 0 <= i < |Joined(root, names)| ==> EndsWith(Joined(root, names)[i], ".desktop")
  {
    JoinedLength(root, names);
    forall i | 0 <= i < |Joined(root, names)| ensures EndsWith(Joined(root, names)[i], ".desktop") {
      JoinedAt(root, names, i);
      EndsWithJoin(root, names[i]);
    }
  }

  lemma {:induction false} VisitPathsDesktop(fs: Fs, top: string, vs: seq<Walk.Visit>)
    requires ValidFs(fs)
    requires forall v :: v in vs ==> v in Walk.WalkFrom(fs, top, 0, SearchParams())
    ensures forall i :: 0 <= i < |VisitPaths(vs)| ==> EndsWith(VisitPaths(vs)[i], ".desktop")
  {
    if |vs| > 0 {
      var v := vs[0];
      var names := v.node.nondirs;
      forall i | 0 <= i < |names| ensures PlainName(names[i]) && EndsWith(names[i], ".desktop") {
        Walk.NrWalkYields(fs, top, SearchParams(), v, names[i]);
        assert names[i] in fs.dirs[v.node.root];
      }
      JoinedDesktop(v.node.root, names);
      VisitPathsDesktop(fs, top, vs[1..]);
      var a := Joined(v.node.root, names);
      forall i | |a| <= i < |VisitPaths(vs)| ensures EndsWith(VisitPaths(vs)[i], ".desktop") {
        assert VisitPaths(vs)[i] == VisitPaths(vs[1..])[i - |a|];
      }
    }
  }

  /** The search opens only files whose names end in `.desktop`. */
  lemma {:induction false} CandidatesAreDesktopFiles(fs: Fs, roots: seq<string>)
    requires ValidFs(fs)
    ensures forall i :: 0 <= i < |Candidates(fs, roots)| ==> EndsWith(Candidates(fs, roots)[i], ".desktop")
  {
    if |roots| > 0 {
      var vs := Walk.WalkFrom(fs, roots[0], 0, SearchParams());
      VisitPathsDesktop(fs, roots[0], vs);
      CandidatesAreDesktopFiles(fs, roots[1..]);
      var a := VisitPaths(vs);
      forall i | |a| <= i < |Candidates(fs, roots)| ensures EndsWith(Candidates(fs, roots)[i], ".desktop") {
        assert Candidates(fs, roots)[i] == Candidates(fs, roots[1..])[i - |a|];
      }
    }
  }

  /**
   * `get_desktop_file`: for the `MimeType` key the association files are
   * asked first, and only a miss there falls back to the search.
   */
  function GetDesktopFile(env: Env, key: string, value: string): (r: Found)
    requires ValidFs(env.fs)
    ensures key == "MimeType" && FromMimeList(env, value).Hit? ==> r == FromMimeList(env, value)
    ensures key == "MimeType" && FromMimeList(env, value).Crash? ==> r.Crash?
    ensures r.Hit? && !(key == "MimeType" && FromMimeList(env, value).Hit?) ==> Matches(r.entry, key, value)
    ensures r.Miss? ==> forall p :: p in Candidates(env.fs, env.config.desktopFilePaths) ==> Passed(env, p, key, value)
    ensures key != "MimeType" || FromMimeList(env, value).Miss? ==> r == Search(env, key, value)
  {
    if key == "MimeType" then
      match FromMimeList(env, value)
      case Hit(e) => Hit(e)
      case Crash => Crash
      case Miss => Search(env, key, value)
    else Search(env, key, value)
  }

  /** `e` is the first of `paths` that loads and matches; every path before it loads to nothing or to a non-matching entry. */
  predicate FirstMatch(env: Env, paths: seq<string>, key: string, value: string, e: Entry) {
    Matches(e, key, value)
    && exists i :: 0 <= i < |paths| && Load(env, paths[i]) == Some(e)
                   && forall j :: 0 <= j < i ==> Passed(env, paths[j], key, value)
  }

  /**
   * A desktop file found for `key`/`value` is either the one the association
   * files name for a MIME type, or the first file of the search, in walk
   * order, that parses and whose `key` entry contains `value`.
   */
  lemma GetDesktopFileHit(env: Env, key: string, value: string)
    requires ValidFs(env.fs)
    ensures GetDesktopFile(env, key, value).Hit? ==>
      || (key == "MimeType" && FromMimeList(env, value) == GetDesktopFile(env, key, value))
      || FirstMatch(env, Candidates(env.fs, env.config.desktopFilePaths), key, value, GetDesktopFile(env, key, value).entry)
  {
    var r := GetDesktopFile(env, key, value);
    if r.Hit? && !(key == "MimeType" && FromMimeList(env, value).Hit?) {
      var c := Candidates(env.fs, env.config.desktopFilePaths);
      assert r == Search(env, key, value) == Scan(env, c, key, value);
      ScanHit(env, c, key, value);
    }
  }
}
