/**
 * `run_exec`: expanding a desktop file's `Exec` value for the URLs it
 * opens, wrapping it for a terminal when asked to, and deciding how many
 * command strings to run.
 */
module ExecExpand {
  import opened Wrappers
  import opened Strings
  import opened Environment
  import opened ShellQuote
  import Url
  import Locator

  /** A URL together with the desktop file chosen to open it. */
  datatype Purl = Purl(url: Url.Url, entry: Entry)

  /** Field codes the desktop-entry format deprecates; they expand to nothing. */
  const Deprecated: seq<string> := ["%d", "%D", "%n", "%N", "%v", "%m"]

  /** A two-character field code `%x`. */
  predicate FieldCode(c: string) {
    |c| == 2 && c[0] == '%'
  }

  /** The deprecated codes removed one after the other, each globally. */
  function RemoveCodes(s: string, codes: seq<string>): string
    requires forall i :: 0 <= i < |codes| ==> FieldCode(codes[i])
    decreases |codes|
  {
    if |codes| == 0 then s
    else
      assert FieldCode(codes[0]);
      assert forall i :: 0 <= i < |codes| - 1 ==> codes[1..][i] == codes[i + 1];
      RemoveCodes(ReplaceAll(s, codes[0], ""), codes[1..])
  }

  /** `" ".join(shlex.quote(x) for x in xs)`. */
  function QuoteJoin(xs: seq<string>): string {
    if |xs| == 0 then ""
    else if |xs| == 1 then Quote(xs[0])
    else Quote(xs[0]) + " " + QuoteJoin(xs[1..])
  }

  function Targets(purls: seq<Purl>): (r: seq<string>)
    ensures |r| == |purls| && forall i :: 0 <= i < |r| ==> r[i] == purls[i].url.target
  {
    if |purls| == 0 then [] else [purls[0].url.target] + Targets(purls[1..])
  }

  function Urls(purls: seq<Purl>): (r: seq<string>)
    ensures |r| == |purls| && forall i :: 0 <= i < |r| ==> r[i] == purls[i].url.url
  {
    if |purls| == 0 then [] else [purls[0].url.url] + Urls(purls[1..])
  }

  /** `loc.partition("_")[0]`: the language part of a locale tag. */
  function Lang(loc: string): (r: string)
    ensures StartsWith(loc, r)
    ensures forall k :: 0 <= k < |r| ==> r[k] != '_'
    ensures |r| < |loc| ==> loc[|r|] == '_'
  {
    if |loc| == 0 || loc[0] == '_' then "" else [loc[0]] + Lang(loc[1..])
  }

  /**
   * The name `%c` stands for: `Name[loc]`, else `Name[lang]`, else none.
   * Without a locale the first key tried is `Name[None]`, and asking the
   * missing locale for its language raises (the outer None).
   */
  function LocalizedName(e: Entry, locale: Option<string>): (r: Option<Option<string>>)
    ensures locale.Some? && "Name[" + locale.value + "]" in e.group ==> r == Some(Some(e.group["Name[" + locale.value + "]"]))
    ensures locale.Some? && "Name[" + locale.value + "]" !in e.group ==> r == Some(Value(e, "Name[" + Lang(locale.value) + "]"))
    ensures locale.None? ==> (r.Some? <==> "Name[None]" in e.group)
    ensures locale.None? && "Name[None]" in e.group ==> r == Some(Some(e.group["Name[None]"]))
  {
    var tag := if locale.Some? then locale.value else "None";
    assert locale.None? ==> "Name[" + tag + "]" == "Name[None]";
    match Value(e, "Name[" + tag + "]")
    case Some(n) => Some(Some(n))
    case None =>
      if locale.None? then None
      else Some(Value(e, "Name[" + Lang(locale.value) + "]"))
  }

  /**
   * The field codes of `get_prepared_exec_str`, replaced in this order,
   * each one globally on the string the previous ones left: the deprecated
   * codes, `%f`, `%u`, `%F`, `%U`, then `Finish`. None: the source raises
   * (no `Exec` value, or `%c` with no locale).
   */
  function Fields(env: Env, purl: Purl, purls: seq<Purl>): Option<string> {
    match Value(purl.entry, "Exec")
    case None => None
    case Some(exec) => Finish(env, purl, Substitute(exec, purl, purls))
  }

  /** The deprecated codes removed, then the file and URL codes filled in. */
  function Substitute(exec: string, purl: Purl, purls: seq<Purl>): string {
    var s1 := ReplaceAll(RemoveCodes(exec, Deprecated), "%f", Quote(purl.url.target));
    var s2 := ReplaceAll(s1, "%u", Quote(purl.url.url));
    var s3 := ReplaceAll(s2, "%F", QuoteJoin(Targets(purls)));
    ReplaceAll(s3, "%U", QuoteJoin(Urls(purls)))
  }

  /** `%i` (empty without an `Icon`), `%c` (only looked at when it occurs), then `%k`. */
  function Finish(env: Env, purl: Purl, s4: string): Option<string> {
    var s5 := ReplaceAll(s4, "%i", Value(purl.entry, "Icon").GetOr(""));
    var s6 :=
      if !Contains(s5, "%c") then Some(s5)
      else match LocalizedName(purl.entry, env.locale)
        case None => None
        case Some(None) => Some(ReplaceAll(s5, "%c", ""))
        case Some(Some(n)) => Some(ReplaceAll(s5, "%c", Quote(n)));
    if s6.None? then None
    else Some(ReplaceAll(s6.value, "%k", Quote(purl.entry.fileName)))
  }

  /** Python truthiness of a looked-up string value. */
  predicate Truthy(v: Option<string>) {
    v.Some? && v.value != ""
  }

  /**
   * The command that wraps a terminal program: the configured emulator,
   * else the `Exec` of a desktop file whose `Category` contains
   * `TerminalEmulator`, else `xterm`. None: the lookup raised, or the found
   * desktop file has no `Exec`.
   */
  function TerminalCommand(env: Env): (r: Option<string>)
    requires ValidFs(env.fs)
    ensures env.config.defaultTerminalEmulator != "" ==> r == Some(env.config.defaultTerminalEmulator)
    ensures env.config.defaultTerminalEmulator == "" && Locator.GetDesktopFile(env, "Category", "TerminalEmulator").Miss?
            ==> r == Some("xterm")
    ensures env.config.defaultTerminalEmulator == "" && r.Some? && r.value != "xterm" ==>
            exists e :: Locator.GetDesktopFile(env, "Category", "TerminalEmulator") == Locator.Hit(e)
                        && Value(e, "Exec") == r
    ensures env.config.defaultTerminalEmulator == "" && Locator.GetDesktopFile(env, "Category", "TerminalEmulator").Hit?
            ==> r == Value(Locator.GetDesktopFile(env, "Category", "TerminalEmulator").entry, "Exec")
    ensures env.config.defaultTerminalEmulator == "" && Locator.GetDesktopFile(env, "Category", "TerminalEmulator").Crash?
            ==> r.None?
  {
    if env.config.defaultTerminalEmulator != "" then Some(env.config.defaultTerminalEmulator)
    else match Locator.GetDesktopFile(env, "Category", "TerminalEmulator")
      case Crash => None
      case Miss => Some("xterm")
      case Hit(e) => Value(e, "Exec")
  }

  /** `get_prepared_exec_str`: the expanded string, wrapped as `T -e ...` when `Terminal` is truthy. */
  function Prepare(env: Env, purl: Purl, purls: seq<Purl>): (r: Option<string>)
    requires ValidFs(env.fs)
    ensures r.Some? <==> Fields(env, purl, purls).Some? && (Truthy(Value(purl.entry, "Terminal")) ==> TerminalCommand(env).Some?)
    ensures !Truthy(Value(purl.entry, "Terminal")) ==> r == Fields(env, purl, purls)
    ensures Truthy(Value(purl.entry, "Terminal")) && r.Some? ==>
      && TerminalCommand(env).Some?
      && r.value == TerminalCommand(env).value + " -e " + Fields(env, purl, purls).value
      && EndsWith(r.value, Fields(env, purl, purls).value)
  {
    match Fields(env, purl, purls)
    case None => None
    case Some(s) =>
      if !Truthy(Value(purl.entry, "Terminal")) then Some(s)
      else match TerminalCommand(env)
        case None => None
        case Some(t) =>
          assert (t + " -e " + s)[|t + " -e " + s| - |s|..] == s;
          Some(t + " -e " + s)
  }

  /** Every `Prepare` of a batch, or None as soon as one raises. */
  function PrepareEach(env: Env, items: seq<Purl>, purls: seq<Purl>): (r: Option<seq<string>>)
    requires ValidFs(env.fs)
    ensures r.Some? <==> forall i :: 0 <= i < |items| ==> Prepare(env, items[i], purls).Some?
    ensures r.Some? ==> |r.value| == |items|
    ensures r.Some? ==> forall i :: 0 <= i < |items| ==> r.value[i] == Prepare(env, items[i], purls).value
  {
    MapAll(items, item => Prepare(env, item, purls))
  }

  /**
   * The test of `run_exec` exactly as written: `find(...) != 1` holds
   * unless the code sits at index 1, so almost every `Exec` with more than
   * one URL gets a command per URL.
   */
  predicate PerItemAsWritten(exec: string, n: nat) {
    Find(exec, "%f") != 1 && Find(exec, "%u") != 1 && n > 1
  }

  /** The test the comment above it describes: `%f` or `%u` occurs and there is more than one URL. */
  predicate PerItemIntended(exec: string, n: nat) {
    (Contains(exec, "%f") || Contains(exec, "%u")) && n > 1
  }

  /**
   * `run_exec`'s command strings for one group: per URL when the test
   * holds, else one built from the first URL. None: preparing raised (or
   * the first desktop file has no `Exec`), and nothing of the group runs.
   */
  function Commands(env: Env, purls: seq<Purl>, perItem: (string, nat) -> bool): (r: Option<seq<string>>)
    requires ValidFs(env.fs) && |purls| > 0
    ensures r.Some? <==>
      && Value(purls[0].entry, "Exec").Some?
      && if perItem(Value(purls[0].entry, "Exec").value, |purls|)
         then forall i :: 0 <= i < |purls| ==> Prepare(env, purls[i], purls).Some?
         else Prepare(env, purls[0], purls).Some?
    ensures r.Some? && perItem(Value(purls[0].entry, "Exec").value, |purls|) ==>
      |r.value| == |purls| && forall i :: 0 <= i < |purls| ==> Prepare(env, purls[i], purls) == Some(r.value[i])
    ensures r.Some? && !perItem(Value(purls[0].entry, "Exec").value, |purls|) ==>
      Prepare(env, purls[0], purls).Some? && r.value == [Prepare(env, purls[0], purls).value]
  {
    match Value(purls[0].entry, "Exec")
    case None => None
    case Some(exec) =>
      if perItem(exec, |purls|) then PrepareEach(env, purls, purls)
      else match Prepare(env, purls[0], purls)
        case None => None
        case Some(c) => Some([c])
  }

  /** `run_exec` as written. */
  function RunExec(env: Env, purls: seq<Purl>): (r: Option<seq<string>>)
    requires ValidFs(env.fs) && |purls| > 0
    ensures r.Some? <==>
      && Value(purls[0].entry, "Exec").Some?
      && if PerItemAsWritten(Value(purls[0].entry, "Exec").value, |purls|)
         then forall i :: 0 <= i < |purls| ==> Prepare(env, purls[i], purls).Some?
         else Prepare(env, purls[0], purls).Some?
    ensures r.Some? ==>
      && |r.value| == (if PerItemAsWritten(Value(purls[0].entry, "Exec").value, |purls|) then |purls| else 1)
      && forall i :: 0 <= i < |r.value| ==> Prepare(env, purls[i], purls) == Some(r.value[i])
  {
    Commands(env, purls, PerItemAsWritten)
  }

  /** `run_exec` with the test its comment describes. */
  function RunExecIntended(env: Env, purls: seq<Purl>): Option<seq<string>>
    requires ValidFs(env.fs) && |purls| > 0
  {
    Commands(env, purls, PerItemIntended)
  }

  /**
   * Run as written, a group whose desktop files all have an `Exec` and no
   * truthy `Terminal`, under a set locale, always yields commands: one per
   * URL when the test holds, otherwise exactly one.
   */
  lemma RunExecCount(env: Env, purls: seq<Purl>)
    requires ValidFs(env.fs) && |purls| > 0 && env.locale.Some?
    requires forall i :: 0 <= i < |purls| ==>
      Value(purls[i].entry, "Exec").Some? && !Truthy(Value(purls[i].entry, "Terminal"))
    ensures RunExec(env, purls).Some?
    ensures |RunExec(env, purls).value| == if PerItemAsWritten(Value(purls[0].entry, "Exec").value, |purls|) then |purls| else 1
  {
    forall i | 0 <= i < |purls| ensures Prepare(env, purls[i], purls).Some? {
      FieldsDefined(env, purls[i], purls);
    }
  }

  /** With a locale set, field expansion of an existing `Exec` never raises. */
  lemma FieldsDefined(env: Env, purl: Purl, purls: seq<Purl>)
    requires Value(purl.entry, "Exec").Some? && env.locale.Some?
    ensures Fields(env, purl, purls).Some?
  {
    var s4 := Substitute(Value(purl.entry, "Exec").value, purl, purls);
    var s5 := ReplaceAll(s4, "%i", Value(purl.entry, "Icon").GetOr(""));
    assert LocalizedName(purl.entry, env.locale).Some?;
  }

  /** With the intended test, an `Exec` without `%f` and `%u` runs once for the whole group. */
  lemma IntendedRunsListOnce(env: Env, purls: seq<Purl>)
    requires ValidFs(env.fs) && |purls| > 0
    requires Value(purls[0].entry, "Exec").Some?
    requires !Contains(Value(purls[0].entry, "Exec").value, "%f") && !Contains(Value(purls[0].entry, "Exec").value, "%u")
    requires RunExecIntended(env, purls).Some?
    ensures RunExecIntended(env, purls).value == [Prepare(env, purls[0], purls).value]
  {
  }

  /**
   * As written, an `Exec` that takes the whole list (`%F`, `%U`, or no
   * code at all) still runs once per URL when the group has several, so
   * every URL is opened once per URL in the group.
   */
  lemma AsWrittenRunsListPerItem(env: Env, purls: seq<Purl>)
    requires ValidFs(env.fs) && |purls| > 1
    requires Value(purls[0].entry, "Exec").Some?
    requires !Contains(Value(purls[0].entry, "Exec").value, "%f") && !Contains(Value(purls[0].entry, "Exec").value, "%u")
    requires RunExec(env, purls).Some?
    ensures |RunExec(env, purls).value| == |purls|
    ensures RunExecIntended(env, purls).Some? ==> |RunExecIntended(env, purls).value| == 1
  {
  }

  /** With the intended test, an `Exec` using `%f` or `%u` runs once per URL of the group. */
  lemma IntendedRunsFileCodePerItem(env: Env, purls: seq<Purl>)
    requires ValidFs(env.fs) && |purls| > 1
    requires Value(purls[0].entry, "Exec").Some?
    requires Contains(Value(purls[0].entry, "Exec").value, "%f") || Contains(Value(purls[0].entry, "Exec").value, "%u")
    requires RunExecIntended(env, purls).Some?
    ensures |RunExecIntended(env, purls).value| == |purls|
    ensures forall i :: 0 <= i < |purls| ==> Prepare(env, purls[i], purls) == Some(RunExecIntended(env, purls).value[i])
  {
  }

  /**
   * The counterexample to the test as written: two URLs opened by
   * `app %F` give two commands, each naming both files, where one command
   * is meant.
   */
  lemma ListCodeRunsTwiceAsWritten(env: Env, purls: seq<Purl>)
    requires ValidFs(env.fs) && |purls| == 2
    requires Value(purls[0].entry, "Exec") == Some("app %F")
    ensures RunExec(env, purls).Some? ==> |RunExec(env, purls).value| == 2
    ensures RunExecIntended(env, purls).Some? ==> |RunExecIntended(env, purls).value| == 1
  {
    ListCodeOnly("app %F");
    if RunExec(env, purls).Some? {
      AsWrittenRunsListPerItem(env, purls);
    }
  }

  /** `app %F` holds neither `%f` nor `%u`. */
  lemma ListCodeOnly(exec: string)
    requires exec == "app %F"
    ensures !Contains(exec, "%f") && !Contains(exec, "%u")
  {
    forall k | 0 <= k < |exec| - 1 && exec[k] == '%' ensures exec[k + 1] == 'F' {
      assert k == 4;
    }
    OtherCodesAbsent(exec, "%f");
    OtherCodesAbsent(exec, "%u");
  }

  /** A string with no `%` holds no field code. */
  lemma NoPercentNoCode(s: string, c: string)
    requires FieldCode(c) && forall k :: 0 <= k < |s| ==> s[k] != '%'
    ensures !Contains(s, c)
  {
    forall i | 0 <= i <= |s| - |c| ensures !OccursAt(s, c, i) {
      assert s[i..i + 2][0] == s[i];
    }
  }

  /** A code is absent when every `%` in the string is followed by some other letter. */
  lemma OtherCodesAbsent(s: string, c: string)
    requires FieldCode(c)
    requires forall k :: 0 <= k < |s| - 1 && s[k] == '%' ==> s[k + 1] != c[1]
    ensures !Contains(s, c)
  {
    forall i | 0 <= i <= |s| - |c| ensures !OccursAt(s, c, i) {
      assert s[i..i + 2][0] == s[i] && s[i..i + 2][1] == s[i + 1];
    }
  }

  lemma {:induction false} RemoveAbsentCodes(s: string, codes: seq<string>)
    requires forall i :: 0 <= i < |codes| ==> FieldCode(codes[i]) && !Contains(s, codes[i])
    ensures RemoveCodes(s, codes) == s
  {
    if |codes| > 0 {
      ReplaceAbsent(s, codes[0], "");
      RemoveAbsentCodes(s, codes[1..]);
    }
  }

  predicate NoPercent(s: string) {
    forall k :: 0 <= k < |s| ==> s[k] != '%'
  }

  /** A string without `%` is left alone by every field code. */
  lemma ReplaceNoPercent(s: string, p: string, r: string)
    requires FieldCode(p) && NoPercent(s)
    ensures ReplaceAll(s, p, r) == s
  {
    NoPercentNoCode(s, p);
    ReplaceAbsent(s, p, r);
  }

  /** Replacing a field code skips over a leading part without `%`. */
  lemma {:induction false} ReplaceSkip(x: string, y: string, p: string, r: string)
    requires FieldCode(p) && NoPercent(x)
    ensures ReplaceAll(x + y, p, r) == x + ReplaceAll(y, p, r)
    decreases |x|
  {
    if |x| > 0 {
      var s := x + y;
      if |s| < |p| {
        assert ReplaceAll(y, p, r) == y;
      } else {
        assert s[..|p|][0] == x[0];
        assert s[..|p|] != p;
        assert ReplaceAll(s, p, r) == [s[0]] + ReplaceAll(s[1..], p, r);
        assert s[1..] == x[1..] + y;
        ReplaceSkip(x[1..], y, p, r);
        calc {
          ReplaceAll(s, p, r);
          [x[0]] + ReplaceAll(x[1..] + y, p, r);
          [x[0]] + (x[1..] + ReplaceAll(y, p, r));
          ([x[0]] + x[1..]) + ReplaceAll(y, p, r);
          { assert [x[0]] + x[1..] == x; }
          x + ReplaceAll(y, p, r);
        }
      }
    } else {
      assert x + y == y;
    }
  }

  /** A field code followed by text without `%` is replaced once. */
  lemma ReplaceLead(p: string, y: string, r: string)
    requires FieldCode(p) && NoPercent(y)
    ensures ReplaceAll(p + y, p, r) == r + y
  {
    assert (p + y)[..|p|] == p;
    assert (p + y)[|p|..] == y;
    ReplaceNoPercent(y, p, r);
  }

  /** Replacing inside text without `%` by text without `%` leaves no `%`. */
  lemma {:induction false} ReplaceKeepsNoPercent(s: string, p: string, r: string)
    requires |p| > 0 && NoPercent(s) && NoPercent(r)
    ensures NoPercent(ReplaceAll(s, p, r))
    decreases |s|
  {
    if |s| >= |p| {
      if s[..|p|] == p {
        ReplaceKeepsNoPercent(s[|p|..], p, r);
      } else {
        ReplaceKeepsNoPercent(s[1..], p, r);
      }
    }
  }

  lemma QuoteNoPercent(s: string)
    requires NoPercent(s)
    ensures NoPercent(Quote(s))
  {
    if s != "" && !AllSafe(s) {
      ReplaceKeepsNoPercent(s, "'", QuoteEscape);
    }
  }

  /** Text without `%` comes through `%i`, `%c` and `%k` unchanged. */
  lemma FinishNoPercent(env: Env, purl: Purl, s: string)
    requires NoPercent(s)
    ensures Finish(env, purl, s) == Some(s)
  {
    ReplaceNoPercent(s, "%i", Value(purl.entry, "Icon").GetOr(""));
    NoPercentNoCode(s, "%c");
    ReplaceNoPercent(s, "%k", Quote(purl.entry.fileName));
  }

  /** A code as the only `%` of a string, at its end, hides every other code. */
  lemma OnlyCodeAtEnd(x: string, p: string, c: string)
    requires FieldCode(p) && FieldCode(c) && p[1] != c[1] && NoPercent(x)
    ensures !Contains(x + p, c)
  {
    var s := x + p;
    forall k | 0 <= k < |s| - 1 && s[k] == '%' ensures s[k + 1] != c[1] {
      assert k == |x|;
    }
    OtherCodesAbsent(s, c);
  }

  lemma RemoveDeprecatedBefore(x: string, p: string)
    requires FieldCode(p) && NoPercent(x)
    requires p[1] != 'd' && p[1] != 'D' && p[1] != 'n' && p[1] != 'N' && p[1] != 'v' && p[1] != 'm'
    ensures RemoveCodes(x + p, Deprecated) == x + p
  {
    forall i | 0 <= i < |Deprecated| ensures FieldCode(Deprecated[i]) && !Contains(x + p, Deprecated[i]) {
      OnlyCodeAtEnd(x, p, Deprecated[i]);
    }
    RemoveAbsentCodes(x + p, Deprecated);
  }

  /** An `Exec` value without `%` passes through the field codes unchanged. */
  lemma PlainExecUnchanged(env: Env, purl: Purl, purls: seq<Purl>)
    requires Value(purl.entry, "Exec").Some? && NoPercent(Value(purl.entry, "Exec").value)
    ensures Fields(env, purl, purls) == Value(purl.entry, "Exec")
  {
    var exec := Value(purl.entry, "Exec").value;
    forall i | 0 <= i < |Deprecated| ensures FieldCode(Deprecated[i]) && !Contains(exec, Deprecated[i]) {
      NoPercentNoCode(exec, Deprecated[i]);
    }
    RemoveAbsentCodes(exec, Deprecated);
    ReplaceNoPercent(exec, "%f", Quote(purl.url.target));
    ReplaceNoPercent(exec, "%u", Quote(purl.url.url));
    ReplaceNoPercent(exec, "%F", QuoteJoin(Targets(purls)));
    ReplaceNoPercent(exec, "%U", QuoteJoin(Urls(purls)));
    FinishNoPercent(env, purl, exec);
  }

  /**
   * `prog %f` hands the program its target as one shell word that the
   * shell reads back as exactly the target.
   */
  lemma FileArgument(env: Env, purl: Purl, purls: seq<Purl>, prog: string)
    requires Value(purl.entry, "Exec") == Some(prog + " %f")
    requires NoPercent(prog) && NoPercent(purl.url.target)
    ensures Fields(env, purl, purls) == Some(prog + " " + Quote(purl.url.target))
    ensures ReadWord(Quote(purl.url.target)) == Some(purl.url.target)
  {
    var x := prog + " ";
    var q := Quote(purl.url.target);
    assert NoPercent(x);
    assert prog + " %f" == x + "%f";
    RemoveDeprecatedBefore(x, "%f");
    ReplaceSkip(x, "%f", "%f", q);
    ReplaceLead("%f", "", q);
    assert "%f" + "" == "%f";
    QuoteNoPercent(purl.url.target);
    var s1 := x + q;
    assert s1 == x + (q + "");
    assert NoPercent(s1);
    ReplaceNoPercent(s1, "%u", Quote(purl.url.url));
    ReplaceNoPercent(s1, "%F", QuoteJoin(Targets(purls)));
    ReplaceNoPercent(s1, "%U", QuoteJoin(Urls(purls)));
    FinishNoPercent(env, purl, s1);
    QuoteRoundTrip(purl.url.target);
  }

  /**
   * Inserted text is scanned by the later codes: a target spelled `%u` is
   * passed on unquoted by `%f` and then replaced by the URL.
   */
  lemma TargetExposedToLaterCodes(env: Env, purl: Purl, purls: seq<Purl>, prog: string)
    requires Value(purl.entry, "Exec") == Some(prog + " %f")
    requires NoPercent(prog) && purl.url.target == "%u" && NoPercent(purl.url.url)
    ensures Fields(env, purl, purls) == Some(prog + " " + Quote(purl.url.url))
  {
    var x := prog + " ";
    assert NoPercent(x);
    assert prog + " %f" == x + "%f";
    assert AllSafe("%u");
    assert Quote("%u") == "%u";
    RemoveDeprecatedBefore(x, "%f");
    ReplaceSkip(x, "%f", "%f", "%u");
    ReplaceLead("%f", "", "%u");
    assert "%f" + "" == "%f";
    assert "%u" + "" == "%u";
    var q := Quote(purl.url.url);
    ReplaceSkip(x, "%u", "%u", q);
    ReplaceLead("%u", "", q);
    QuoteNoPercent(purl.url.url);
    var s2 := x + q;
    assert s2 == x + (q + "");
    assert NoPercent(s2);
    ReplaceNoPercent(s2, "%F", QuoteJoin(Targets(purls)));
    ReplaceNoPercent(s2, "%U", QuoteJoin(Urls(purls)));
    FinishNoPercent(env, purl, s2);
  }

  /** `prog %f %i` has no deprecated code to remove. */
  lemma FileIconNoDeprecated(prog: string)
    requires NoPercent(prog)
    ensures RemoveCodes(prog + " %f %i", Deprecated) == prog + " %f %i"
  {
    var x := prog + " ";
    var exec := prog + " %f %i";
    assert NoPercent(x);
    assert exec == x + "%f %i";
    forall k | 0 <= k < |exec| - 1 && exec[k] == '%' ensures exec[k + 1] == 'f' || exec[k + 1] == 'i' {
      assert k == |x| || k == |x| + 3;
    }
    forall i | 0 <= i < |Deprecated| ensures FieldCode(Deprecated[i]) && !Contains(exec, Deprecated[i]) {
      OtherCodesAbsent(exec, Deprecated[i]);
    }
    RemoveAbsentCodes(exec, Deprecated);
  }

  /** In `prog %f %i`, `%f` becomes the quoted target and `%i` stays. */
  lemma FileIconReplaceFile(prog: string, q: string)
    requires NoPercent(prog) && NoPercent(q)
    ensures ReplaceAll(prog + " %f %i", "%f", q) == prog + " " + q + " " + "%i"
  {
    var x := prog + " ";
    assert NoPercent(x);
    assert prog + " %f %i" == x + ("%f" + " %i");
    ReplaceSkip(x, "%f" + " %i", "%f", q);
    assert ("%f" + " %i")[..2] == "%f" && ("%f" + " %i")[2..] == " %i";
    assert ReplaceAll("%f" + " %i", "%f", q) == q + ReplaceAll(" %i", "%f", q);
    assert " %i" == " " + "%i";
    ReplaceSkip(" ", "%i", "%f", q);
    OtherCodesAbsent("%i", "%f");
    ReplaceAbsent("%i", "%f", q);
  }

  /** The first stage of `prog %f %i`: only `%f` is replaced. */
  lemma FileStage(purl: Purl, purls: seq<Purl>, prog: string)
    requires NoPercent(prog) && NoPercent(purl.url.target) && AllSafe(purl.url.target) && purl.url.target != ""
    ensures Substitute(prog + " %f %i", purl, purls) == prog + " " + purl.url.target + " " + "%i"
  {
    var t := purl.url.target;
    FileIconNoDeprecated(prog);
    FileIconReplaceFile(prog, t);
    var y := prog + " " + t + " ";
    assert NoPercent(y);
    var s1 := y + "%i";
    OnlyCodeAtEnd(y, "%i", "%u");
    ReplaceAbsent(s1, "%u", Quote(purl.url.url));
    OnlyCodeAtEnd(y, "%i", "%F");
    ReplaceAbsent(s1, "%F", QuoteJoin(Targets(purls)));
    OnlyCodeAtEnd(y, "%i", "%U");
    ReplaceAbsent(s1, "%U", QuoteJoin(Urls(purls)));
  }

  /** A trailing `%i` with no `Icon` collapses to nothing. */
  lemma MissingIconStage(env: Env, purl: Purl, y: string)
    requires Value(purl.entry, "Icon").None? && NoPercent(y)
    ensures Finish(env, purl, y + "%i") == Some(y)
  {
    ReplaceSkip(y, "%i", "%i", "");
    ReplaceLead("%i", "", "");
    assert "%i" + "" == "%i";
    assert ReplaceAll(y + "%i", "%i", "") == y;
    NoPercentNoCode(y, "%c");
    ReplaceNoPercent(y, "%k", Quote(purl.entry.fileName));
  }

  /**
   * With a target of safe characters and no `Icon`, `prog %f %i` becomes
   * `prog target ` (the icon collapses, its space stays).
   */
  lemma FileAndMissingIcon(env: Env, purl: Purl, purls: seq<Purl>, prog: string)
    requires Value(purl.entry, "Exec") == Some(prog + " %f %i")
    requires Value(purl.entry, "Icon").None?
    requires NoPercent(prog) && NoPercent(purl.url.target) && AllSafe(purl.url.target) && purl.url.target != ""
    ensures Fields(env, purl, purls) == Some(prog + " " + purl.url.target + " ")
  {
    FileStage(purl, purls, prog);
    var y := prog + " " + purl.url.target + " ";
    assert NoPercent(y);
    MissingIconStage(env, purl, y);
  }

  /** The documented example: `app %f %i` for `/tmp/a.txt` with no icon gives `app /tmp/a.txt `. */
  lemma AppFileIconExample(env: Env, purl: Purl, purls: seq<Purl>)
    requires Value(purl.entry, "Exec") == Some("app %f %i")
    requires Value(purl.entry, "Icon").None? && purl.url.target == "/tmp/a.txt"
    requires !Truthy(Value(purl.entry, "Terminal")) && ValidFs(env.fs)
    ensures Prepare(env, purl, purls) == Some("app /tmp/a.txt ")
  {
    var t := "/tmp/a.txt";
    ExampleSpelling();
    assert NoPercent(t) && AllSafe(t) by {
      forall k | 0 <= k < |t| ensures t[k] != '%' && SafeChar(t[k]) {
      }
    }
    FileAndMissingIcon(env, purl, purls, "app");
  }

  lemma ExampleSpelling()
    ensures "app" + " %f %i" == "app %f %i"
    ensures "app" + " " + "/tmp/a.txt" + " " == "app /tmp/a.txt "
  {
  }
}
