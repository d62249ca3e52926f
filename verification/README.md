# pyxdg-open resolution pipeline in Dafny

This project models the core of `wor.xdg_open`, a Python replacement for
`xdg-open`. The program takes the URLs or paths it is given and does the
following:

- classifies each one into a protocol and a target;
- guesses a MIME type;
- finds a handler desktop entry:
  - first through the `mimeapps.list` / `defaults.list` association files;
  - then by walking the configured directories for `.desktop` files;
- expands the handler's `Exec` field codes, wrapping the command in a terminal emulator when the entry asks for one;
- groups the URLs by handler and runs one or more command strings per group.

It exits with 1 when some input could not be resolved.

The outside world is passed in explicitly as an `Env` record:

- an in-memory filesystem (file texts and directory listings);
- the `mimetypes` extension table;
- the `magic` sniffer and the desktop-file parser, as oracle functions;
- the locale and the working directory;
- the two configuration options the resolver reads.

Uncaught exceptions in the source become explicit `Crash`/`None` outcomes
rather than preconditions.

Modules:

- `Wrappers`: `Option` and an all-or-nothing map over a sequence.
- `Strings`: `str.find`, `str.replace` (all occurrences, and first only), split and join.
- `Paths`: `os.path.join` and `os.path.splitext`'s extension.
- `Percent`: `urllib.parse.unquote` and a quoting partner for it.
- `ShellQuote`: `shlex.quote`, with a small POSIX-shell word reader as its inverse.
- `Environment`: desktop entries, the filesystem, the configuration and the oracles.
- `Url`: the `URL` class, covering classification, MIME type and the constructor.
- `ListFile`: `desktop_list_parser` and the regex behind it.
- `Walk`: `nrwalk`, an explicit-stack walk. A recursive reference walk is its specification.
- `Locator`: `get_desktop_file_from_mime_list`, `get_desktop_file_by_search` and `get_desktop_file`.
- `ExecExpand`: `get_prepared_exec_str` and `run_exec`'s choice of command strings.
- `Dispatch`: `group_purls`, the main loop of `xdg_open` and its exit status.

## Model

| member | source | states |
|---|---|---|
| Url.Classify | src/wor/xdg_open.py:60-78 | Classification never fails and always gives a protocol. An input starting with `/` is `("file", input)`. An input with a case-insensitive `[a-z]+://` prefix gives the lower-cased scheme and the percent-decoded rest. Anything else is a file relative to the working directory. |
| Url.SchemeRoundTrip | src/wor/xdg_open.py:67-74 | Writing `scheme://` plus a percent-quoted target and classifying it gives back the lower-cased scheme and exactly the original target. |
| Url.ColonQuestionIsRelativeFile | src/wor/xdg_open.py:70-77 | `magnet:?…`-style inputs have no `://`, so they are treated as relative file paths. There is no special magnet recognition. |
| Url.FixOctetStream | src/wor/xdg_open.py:117-123 | Only `application/octet-stream` changes: with `.chm` it becomes `application/x-chm`, with `.sdf` it becomes `application/x-spring-demo`. Every other result, and octet-stream with any other extension, is unchanged. |
| Url.OnDisk | src/wor/xdg_open.py:88-114 | The path the existence test and the sniffer look at is the decoded local path, resolved against the working directory when it is relative and taken as is when absolute. The empty local path names no file at all, since `os.path.exists("")` is false. |
| Url.MimeType | src/wor/xdg_open.py:88-131 | `magnet` maps to `application/x-bittorrent`. Any other non-file protocol maps to `x-scheme-handler/<protocol>`. A file that exists, relative to the working directory, gets the sniffer's answer for that resolved path. A missing file, or the empty local path, gets the extension table's answer, and only for an extension longer than one character that the table holds, otherwise None. Both file answers then pass through the octet-stream fix. A `file` URL with an empty local path gets no type. |
| Url.SniffedFileIsTarget | src/wor/xdg_open.py:66-114 | For an absolute path, or a relative one without a scheme (no `%`, no `file://`), the constructor's target is the path joined to the working directory. An existing such file is typed by sniffing exactly that target. A missing one is typed by the extension of the path as given. The empty input is never sniffed and gets no type. |
| Url.EmptyPathHasNoType | src/wor/xdg_open.py:88-107 | `xdg-open ""` and `xdg-open file://` both name the empty local path: it does not exist and has no extension, so the URL gets no MIME type. |
| Url.MakeUrl | src/wor/xdg_open.py:45-55 | The constructor keeps the URL. An explicit non-empty protocol or target overrides the parsed one independently. An explicit MIME type is kept, else it is guessed from the final protocol. The protocol is never empty. |
| Url.SchemeHandlerMime | src/wor/xdg_open.py:124-130 | A URL built from any ASCII-letter scheme other than `file`/`magnet` is given the handler type `x-scheme-handler/` plus the lower-cased scheme. |
| Url.MakeUrlAsWritten | src/wor/xdg_open.py:53-54 | As written, the constructor succeeds iff a MIME type is passed in. Without one it raises `NameError` for the name `protocol`, and with one it agrees with the corrected constructor. |
| Url.AsWrittenEveryInputRaises | src/wor/xdg_open.py:88 | As written, building a URL from a bare string raises `NameError` for every input. The corrected version instead uses the classified protocol. |
| Percent.Unquote | src/wor/xdg_open.py:73 | Decoding never lengthens the text. Its partners are `UnquoteQuote`, `UnquoteNoPercent` and `UnquoteKeepsBadEscape` below. |
| Percent.UnquoteQuote | src/wor/xdg_open.py:73 | Percent-decoding is a left inverse of percent-encoding for every string. |
| Percent.UnquoteNoPercent | src/wor/xdg_open.py:73 | A target without `%` is left unchanged by decoding. |
| Percent.UnquoteKeepsBadEscape | src/wor/xdg_open.py:73 | A `%` not followed by two hex digits stays literal, and decoding does not re-scan its own output. |
| ShellQuote.Quote | src/wor/xdg_open.py:334 | A quoted argument is never empty. A non-empty string of shell-safe characters is passed through unquoted. |
| ShellQuote.QuoteRoundTrip | src/wor/xdg_open.py:334-340 | Reading a quoted argument back as one POSIX shell word gives exactly the original string, for every string including ones with quotes. |
| Paths.PathJoin | src/wor/xdg_open.py:186 | Joining with an absolute second part gives that part. Otherwise the parts are concatenated when the first is empty or ends in `/`, and joined with one `/` in between when it does not. |
| Paths.Ext | src/wor/xdg_open.py:97 | The extension is empty or a dot-led suffix of the path without further dots or slashes. A non-empty extension has a non-dot character of the same base name before it, so leading dots never start one. |
| Paths.ExtOfSuffix | src/wor/xdg_open.py:97-98 | Appending `.x` (no dot or slash in `x`) to a path whose last base name has a non-dot character gives the extension `.x`. |
| Paths.BareNameExt | src/wor/xdg_open.py:97-98 | A bare file name such as `a.pdf` has the extension `.pdf`. |
| Paths.DotFileHasNoExt | src/wor/xdg_open.py:97-98 | A base name made of one leading dot and a dot-free rest, like `.bashrc`, has no extension. |
| Strings.Find | src/wor/xdg_open.py:347 | `find` is -1 iff the pattern is absent, and otherwise gives the first occurrence. |
| Strings.ReplaceAllIsSplitJoin | src/wor/xdg_open.py:327-361 | Global replacement equals splitting on the pattern and joining with the replacement. |
| Strings.ReplaceAbsent | src/wor/xdg_open.py:327-361 | Replacing an absent pattern changes nothing. |
| Strings.ReplaceMayCreatePattern | src/wor/xdg_open.py:327-332 | Removing `%d` from `%%dd` leaves a new `%d`: replacement does not re-scan its output. |
| ListFile.Lines | src/wor/xdg_open.py:162-163 | Iterating a file gives non-empty lines that concatenate back to the text. Every line but the last ends with a newline and has no other newline. |
| ListFile.TranslateNoCr | src/wor/xdg_open.py:162 | Text-mode reading turns `\r\n` and a lone `\r` into `\n`: the translated text has no `\r` and is never longer. |
| ListFile.TranslatePlain | src/wor/xdg_open.py:162 | Text without `\r` is read unchanged. |
| ListFile.CrLfAssociation | src/wor/xdg_open.py:155-163 | A `key=value` line ending in `\r\n` is read with a plain newline and yields exactly the pair, with no `\r` left in the value. |
| ListFile.MatchLine | src/wor/xdg_open.py:155-164 | A line matches iff some split exists: an `=` with a non-empty bracket-free key before it and a non-empty single-line value after it. The key is then the prefix before the last such `=`, that is the longest possible key, and the value is what follows it without its newline. |
| ListFile.MatchAssociation | src/wor/xdg_open.py:155-160 | A `key=value` line with or without its newline yields exactly that pair, and a trailing `;` stays part of the value. |
| ListFile.BracketLineNeverMatches | src/wor/xdg_open.py:157 | A line starting with `[` (a group header) never matches. |
| ListFile.Lookup | src/wor/xdg_open.py:169-172 | The search answer is None iff no line has the key. Otherwise it is the value of the first line whose key equals the searched one. |
| ListFile.CollectKeys | src/wor/xdg_open.py:173-175 | The map holds a key iff some line has that key. |
| ListFile.CollectLastWins | src/wor/xdg_open.py:173-174 | In the map, a key maps to the value of the last line with that key: later lines overwrite earlier ones. |
| ListFile.LookupUniqueKey | src/wor/xdg_open.py:161-175 | For a key on exactly one line, the search and the map agree on its value. |
| ListFile.Parse | src/wor/xdg_open.py:142-175 | With a key to find, the parser answers with the first match or nothing. Without one, it answers with the full last-wins map, or nothing iff no line matched. |
| Locator.Probe | src/wor/xdg_open.py:196-200 | One list file is passed over iff it is missing or names nothing for the MIME type. An answer names the list file itself, which exists and holds a line for that MIME type. |
| Locator.CheckFiles | src/wor/xdg_open.py:190-201 | A root gives no answer iff each of its list files is missing or does not name the MIME type. An answer comes from an existing list file that names it. |
| Locator.CheckFilesListed | src/wor/xdg_open.py:195-200 | The answering list file is the first one in order, `mimeapps.list` before `defaults.list`, that is not skipped. |
| Locator.FirstListed | src/wor/xdg_open.py:205-207 | Roots are tried in configured order. There is no answer iff no root answers. Otherwise the answer is that of the first root that answers: every earlier root gave no answer. |
| Locator.FullPath | src/wor/xdg_open.py:183-189 | The named desktop file resolves to the first root that holds it as a regular file, and to None iff no root does. |
| Locator.FromMimeList | src/wor/xdg_open.py:178-216 | The association files miss iff no list file answers, or the desktop file the first answer names is under no root. A hit is that named file, found under the first root holding it and parsed. `FromMimeListHit` and `FromMimeListMiss` restate this per root and list file. |
| Locator.FromMimeListHit | src/wor/xdg_open.py:204-215 | A hit is the desktop file named by the first answering list file: every earlier root had no answer and every earlier list file of its root was skipped. The name is resolved by the full-path rule and parsed by the parser oracle. |
| Locator.ListedEntry | src/wor/xdg_open.py:207-215 | A hit from a list-file answer is the listed name, resolved by the full-path rule, read and parsed by the parser oracle. |
| Locator.MimeListSource | src/wor/xdg_open.py:190-215 | The same facts with the root, the list file and the listed name given explicitly. |
| Locator.ListedAt | src/wor/xdg_open.py:195-207 | The first answer comes from root `i` and list file `k`, with every earlier root unanswered and every earlier list file of root `i` skipped. |
| Locator.FromMimeListMiss | src/wor/xdg_open.py:204-216 | The association files miss iff no root answers, or the first answer names a file found under no root. In the second case later roots are not tried. |
| Locator.Scan | src/wor/xdg_open.py:239-257 | The search misses iff every candidate fails to parse or lacks a value containing the searched text. A hit's value for the key contains that text. |
| Locator.ScanHit | src/wor/xdg_open.py:236-258 | A search hit is the first candidate that parses and matches, and every earlier candidate was passed over. |
| Locator.Search | src/wor/xdg_open.py:219-258 | The search by contents misses iff every `.desktop` file the walk yields under the configured roots fails to parse or lacks a matching value. A hit is the first such file in walk order that parses and matches, and every earlier one was passed over. |
| Locator.CandidatesAreDesktopFiles | src/wor/xdg_open.py:236-240 | Every file the search opens ends in `.desktop`. |
| Locator.GetDesktopFile | src/wor/xdg_open.py:281-296 | For `MimeType`, an association hit is returned as is and an association crash propagates. Any other key, or an association miss, gives exactly the search's answer. Any hit other than an association hit matches the key/value criterion. A miss means every searched candidate was passed over. |
| Locator.GetDesktopFileHit | src/wor/xdg_open.py:236-296 | A hit is either the association hit for a MIME type, or the first file in walk order that parses and matches, with every earlier file passed over. |
| Locator.SearchAsWritten | src/wor/xdg_open.py:236-240 | As written, the search raises iff at least one root is configured, and never finds anything. |
| Locator.SearchAsWrittenRaises | src/wor/xdg_open.py:538 | As written, wherever the intended search finds a desktop file, the search raises instead. With no roots both miss. |
| Walk.Keep | src/wor/xdg_open.py:529-532 | Filtering keeps exactly the names the filter does not drop. A single name is kept iff the filter does not drop it. |
| Walk.KeepAppend | src/wor/xdg_open.py:529-532 | Filtering distributes over concatenation, so the kept names stay in listing order. |
| Walk.ProcessDir | src/wor/xdg_open.py:512-534 | The node is for the given root, and its subdirectories are listed children of that root that are directories. `ProcessDirEntries` gives the exact contents of both lists. |
| Walk.ProcessDirEntries | src/wor/xdg_open.py:512-534 | A name is among a node's subdirectories iff it is listed under the root, is a directory and survives the directory filter. It is among the other entries iff it is listed, is not a directory and survives the file filter. An unlistable root gives empty lists. |
| Walk.NrWalk | src/wor/xdg_open.py:484-558 | The explicit-stack walk yields exactly the recursive reference walk. That walk is pre-order with the last-listed subdirectory first, respects the depth bounds and yields the top only when 0 is within them. |
| Walk.Drain | src/wor/xdg_open.py:543-556 | The stack loop appends exactly the visits still pending on its starting stack. |
| Walk.LoopStep | src/wor/xdg_open.py:548-556 | One iteration (push the last subdirectory, or pop) keeps the stack well formed. It moves the yielded prefix of the pending visits out and strictly decreases the remaining work. |
| Walk.NrWalkYields | src/wor/xdg_open.py:541-554 | Every yielded node lies within `mindepth..maxdepth`. It never lists a name its filter drops, and its entries are really listed under its root with the right kind. |
| ExecExpand.Lang | src/wor/xdg_open.py:353 | The language part is the locale's prefix before the first `_`. |
| ExecExpand.LocalizedName | src/wor/xdg_open.py:347-357 | `%c` uses `Name[loc]`, else `Name[lang]`, else nothing. Without a locale the value of `Name[None]` is used when present, and otherwise the language lookup raises. |
| ExecExpand.TerminalCommand | src/wor/xdg_open.py:365-379 | The wrapper is the configured emulator if set. Otherwise it is the `Exec` of the desktop file found for `("Category", "TerminalEmulator")`, `xterm` when the lookup misses, and an exception when the lookup raises. |
| ExecExpand.Prepare | src/wor/xdg_open.py:363-380 | Preparation succeeds iff the field codes expand and, for a truthy `Terminal` value, a wrapper is found. Without a truthy `Terminal` value the command is the expanded `Exec`. With one it is the wrapper, then ` -e `, then the expanded `Exec`, which stays a suffix. |
| ExecExpand.PrepareEach | src/wor/xdg_open.py:390-391 | The per-item commands exist iff every item prepares, and then they are those items' commands in order. |
| ExecExpand.Commands | src/wor/xdg_open.py:382-393 | Commands exist iff the first URL has an `Exec` and every URL prepares (per-item test) or the first one does (otherwise). The per-item test gives one prepared command per URL, in order. Otherwise a single command is built from the first URL. |
| ExecExpand.RunExec | src/wor/xdg_open.py:299-399 | `run_exec` as written plans commands iff the first URL has an `Exec` and every URL prepares (when `find('%f') != 1`, `find('%u') != 1` and there is more than one URL) or the first one does (otherwise). It then plans one command per URL, or one command, and command `i` is URL `i`'s prepared command. |
| ExecExpand.RunExecCount | src/wor/xdg_open.py:386-393 | With a locale and an `Exec` on every URL, no terminal, `run_exec` always plans commands. As written it plans `len(purls)` of them when `find('%f') != 1`, `find('%u') != 1` and there is more than one URL, and exactly one otherwise. |
| ExecExpand.FieldsDefined | src/wor/xdg_open.py:320-361 | With a locale set, the field-code expansion of an existing `Exec` never raises. |
| ExecExpand.PlainExecUnchanged | src/wor/xdg_open.py:326-361 | An `Exec` without `%` is left unchanged by the whole field-code expansion. |
| ExecExpand.FileArgument | src/wor/xdg_open.py:334 | `prog %f` expands to `prog` plus the shell-quoted target, which the shell reads back as exactly the target. |
| ExecExpand.TargetExposedToLaterCodes | src/wor/xdg_open.py:334-335 | Text inserted for `%f` is exposed to later codes: a target `%u` ends up replaced by the quoted URL. |
| ExecExpand.AppFileIconExample | src/wor/xdg_open.py:320-380 | `app %f %i` with target `/tmp/a.txt`, no `Icon` and no terminal prepares to `app /tmp/a.txt `. |
| ExecExpand.ListCodeRunsTwiceAsWritten | src/wor/xdg_open.py:386-393 | As written, `app %F` with two URLs runs two commands. The intended test runs one. |
| ExecExpand.AsWrittenRunsListPerItem | src/wor/xdg_open.py:386-393 | As written, any `Exec` with neither `%f` nor `%u` runs once per URL in a multi-URL group, where the intended test runs once. |
| ExecExpand.IntendedRunsListOnce | src/wor/xdg_open.py:386-393 | Corrected: without `%f`/`%u` the group runs one command built from its first URL. |
| ExecExpand.IntendedRunsFileCodePerItem | src/wor/xdg_open.py:386-391 | Corrected: with `%f` or `%u` and several URLs, each URL gets its own prepared command, in order. |
| Dispatch.SortByName | src/wor/xdg_open.py:423 | Sorting by desktop-file name is a permutation of the input. |
| Dispatch.SortSorted | src/wor/xdg_open.py:423 | The sort's result is ordered by name. |
| Dispatch.SortStable | src/wor/xdg_open.py:423 | The sort is stable: the URLs sharing one name keep their input order. |
| Dispatch.GroupPurls | src/wor/xdg_open.py:417-439 | The groups concatenate to the stable sort of the input. They are non-empty and uniform in name, and adjacent groups differ in name. |
| Dispatch.GroupPurlsCount | src/wor/xdg_open.py:417-439 | The number of groups equals the number of distinct desktop-file names. |
| Dispatch.ResolveOne | src/wor/xdg_open.py:447-471 | An input with a MIME type whose lookup hits opens exactly its URL with the desktop file found. It fails iff the MIME type is missing or empty, or the lookup misses. It raises iff the MIME type is set and the lookup raises. |
| Dispatch.CombineOutcome | src/wor/xdg_open.py:445-471 | The loop crashes iff some input raises. Otherwise the error flag is set iff some input failed, and the opened inputs are kept in input order: failures do not stop the loop. |
| Dispatch.Resolve | src/wor/xdg_open.py:445-471 | The loop over the URLs raises iff some URL's resolution raises. Otherwise the error flag is set iff some URL failed, and the opened URLs are kept in input order. |
| Dispatch.RunGroups | src/wor/xdg_open.py:477-479 | The groups run in order. The run completes iff every group's `run_exec` does, and then the planned commands are those of all groups in order. Nothing is spawned in dry-run mode, and otherwise exactly the planned commands are. A crash happens at some group whose earlier groups all planned, and whose own `run_exec` raised. |
| Dispatch.PlanNoneExtends | src/wor/xdg_open.py:477-479 | Once one group's `run_exec` raises, the whole run raises. |
| Dispatch.XdgOpen | src/wor/xdg_open.py:402-481 | The exit code is 1 iff some URL lacked a MIME type or a desktop file, else 0, when nothing raised. The commands planned are those of the grouping of the stable sort of the resolved URLs. Nothing is spawned in dry-run mode. An exception in resolution or in a group's `run_exec` ends the run. A crash after resolution happens at some group of that grouping: every earlier group planned, and those commands were spawned unless in dry-run mode. |

## Left out

- I/O is not modelled:
  - `subprocess.Popen` spawns are recorded as the list of spawned command strings;
  - `open()` becomes reads of the in-memory filesystem;
  - logging has no effect and is dropped.
- `magic`, `mimetypes.types_map`, `os.getcwd`, `locale.getlocale()[0]` and the desktop-file parser `df_parser.parse` are foreign libraries. They are taken as parameters of `Env`.
  - The parser is an oracle from file text to the entry's key/value map, or None when it raises a tokenizer error.
  - The model records the path a desktop file was read from as its `file_name`.
- Percent.Unquote decodes each `%XX` to the character with that code (Latin-1). Any escape at or above `%80`, single or part of a multi-byte sequence, decodes differently from Python's default UTF-8 decoding with replacement characters.
- ExecExpand.Truthy: a `Terminal` value counts as true when it is present and non-empty, which is Python truthiness of a string. If the parser returns typed values for boolean keys, that typing is not modelled, because the parser is not part of this model.
- Walk.NrWalk: `onerror`, `followlinks`, `topdown` and the symlink test are ignored, because the source never uses them.
  - The yielded node's `dirs` list is the snapshot taken when it is yielded. The source pops from that same list afterwards, but its only caller reads just the files.
- Locator.Search walks the directories with a working `nrwalk`. As written the walk raises `NameError` at its first step (see Findings), and `Locator.SearchAsWritten` records that outcome.
- Locator.SearchParams uses `sys.maxsize` of a 64-bit build as the default `maxdepth`.
- Paths are not normalised and symbolic links are not represented: the in-memory filesystem is keyed by the exact spelling of a path. `/h/./a.pdf` and `/h/a.pdf`, or a directory with and without a trailing `/`, are unrelated keys. An environment must list every spelling the program builds, such as `PathJoin(cwd, rel)` and roots ending in `/`.
- The `CONFIG` global is an explicit `Config` record.
- `process_cmd_line`, `read_config_options`, `main` and signal handling are command-line and configuration plumbing and are not modelled.
- `URL.__repr__` and the getters are not modelled (the getters are read as plain fields).
- The `TokenizerException` from a desktop file named in an association list is not caught by the source. It is modelled as a crash.
- dev_helpers/sdfp.py and setup.py are not part of this model: one is a development script, the other packaging metadata.

## Findings

| source | as written | input that shows it | evidently intended | confidence | as-written member | corrected member |
|---|---|---|---|---|---|---|
| src/wor/xdg_open.py:88 | `__get_mimetype__` reads the unbound name `protocol`, so the constructor raises `NameError` whenever no MIME type is passed in. That is the case at the only call site, line 448. | `URL("/tmp/a.txt")`, or any input string | Test `self.protocol`, the protocol just classified | not executed | Url.AsWrittenEveryInputRaises | Url.SchemeHandlerMime |
| src/wor/xdg_open.py:538 | `nrwalk` calls `namedtuple`, which the module never imports (imports at lines 10-27). Its first step raises `NameError`, so the search by desktop-file contents raises whenever a root is configured. | `desktop_file_paths = ["/usr/share/applications"]`, a lookup of `("Category", "TerminalEmulator")` or of a MIME type no list file names | `from collections import namedtuple`, so the walk yields the directory tree | not executed | Locator.SearchAsWrittenRaises | Walk.NrWalk |
| src/wor/xdg_open.py:387-388 | `find('%f') != 1 and find('%u') != 1` compares against index 1, not -1. A group of several URLs gets one command per URL whenever neither code sits at index 1, even for list codes. | `Exec=app %F` with two URLs gives two commands, each with both files | Per-URL commands only when `%f` or `%u` occurs (`!= -1` joined by `or`), as the comment above the test says | not executed | ExecExpand.ListCodeRunsTwiceAsWritten | ExecExpand.IntendedRunsFileCodePerItem |

The rest of the model uses the corrected URL constructor (`Url.MakeUrl`) and the
working search (`Locator.Search` over `Walk.WalkFrom`). It keeps
`run_exec`'s test as written (`ExecExpand.RunExec`), so that the command count
follows the program. The corrected dispatch is `ExecExpand.RunExecIntended`.
