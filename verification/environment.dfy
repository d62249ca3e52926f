/**
 * Everything the resolver asks of the outside world, passed in explicitly:
 * an in-memory filesystem, the extension table of `mimetypes`, the content
 * sniffer of `magic`, the desktop-file parser, the locale, and the two
 * configuration options the resolver reads.
 */
module Environment {
  import opened Wrappers

  /**
   * A parsed desktop file: the name it was read from (used to group URLs and
   * for `%k`) and the key/value pairs of its main group, keys as written in
   * the file (`Exec`, `Icon`, `Name[fi]`, ...).
   */
  datatype Entry = Entry(fileName: string, group: map<string, string>)

  /** The value stored under `key`, or None (the parser's `get_entry_value_from_group`). */
  function Value(e: Entry, key: string): (r: Option<string>)
    ensures r.Some? <==> key in e.group
    ensures r.Some? ==> r.value == e.group[key]
  {
    if key in e.group then Some(e.group[key]) else None
  }

  /** Regular files with their text, and directories with their listings. */
  datatype Fs = Fs(files: map<string, string>, dirs: map<string, seq<string>>)

  predicate IsFile(fs: Fs, p: string) { p in fs.files }
  predicate IsDir(fs: Fs, p: string) { p in fs.dirs }
  predicate Exists(fs: Fs, p: string) { IsFile(fs, p) || IsDir(fs, p) }

  /** A name as `os.listdir` returns it: non-empty and without a slash. */
  predicate PlainName(n: string) {
    n != "" && forall k :: 0 <= k < |n| ==> n[k] != '/'
  }

  /** Nothing is both a file and a directory, and listings hold plain names. */
  predicate ValidFs(fs: Fs) {
    && fs.files.Keys !! fs.dirs.Keys
    && forall d, i :: d in fs.dirs && 0 <= i < |fs.dirs[d]| ==> PlainName(fs.dirs[d][i])
  }

  /** The two options read from the configuration file. */
  datatype Config = Config(desktopFilePaths: seq<string>, defaultTerminalEmulator: string)

  datatype Env = Env(
    cwd: string,                                   // os.getcwd()
    fs: Fs,
    typesMap: map<string, string>,                 // mimetypes.types_map
    magic: string -> Option<string>,               // magic's MIME_TYPE guess for a path
    parseDesktop: string -> Option<map<string, string>>, // main group of a desktop file's text; None when parsing raises
    locale: Option<string>,                        // locale.getlocale()[0]
    config: Config)
}
