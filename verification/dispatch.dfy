/**
 * `xdg_open`: resolving every URL to a desktop file, grouping the URLs
 * that share one (`group_purls`), and running each group's commands.
 */
module Dispatch {
  import opened Wrappers
  import opened Environment
  import Url
  import Locator
  import ExecExpand

  type Purl = ExecExpand.Purl

  /** The sort key of `group_purls`: the desktop file's name. */
  function Name(p: Purl): string {
    p.entry.fileName
  }

  /** Python's `<` on `str`: lexicographic by code point, a proper prefix first. */
  predicate Less(a: string, b: string)
    decreases |a|
  {
    if |a| == 0 then |b| > 0
    else if |b| == 0 then false
    else if a[0] != b[0] then a[0] < b[0]
    else Less(a[1..], b[1..])
  }

  lemma {:induction false} LessIrreflexive(a: string)
    ensures !Less(a, a)
    decreases |a|
  {
    if |a| > 0 {
      LessIrreflexive(a[1..]);
    }
  }

  lemma {:induction false} LessTotal(a: string, b: string)
    ensures Less(a, b) || a == b || Less(b, a)
    decreases |a|
  {
    if |a| > 0 && |b| > 0 && a[0] == b[0] {
      LessTotal(a[1..], b[1..]);
      if a[1..] == b[1..] {
        assert a == [a[0]] + a[1..] && b == [b[0]] + b[1..];
      }
    }
  }

  lemma {:induction false} LessTransitive(a: string, b: string, c: string)
    requires Less(a, b) && Less(b, c)
    ensures Less(a, c)
    decreases |a|
  {
    if |a| > 0 && a[0] == b[0] && b[0] == c[0] {
      LessTransitive(a[1..], b[1..], c[1..]);
    }
  }

  lemma LessAsymmetric(a: string, b: string)
    requires Less(a, b)
    ensures !Less(b, a)
  {
    if Less(b, a) {
      LessTransitive(a, b, a);
      LessIrreflexive(a);
    }
  }

  /** Sorted by name: no element is followed by one with a smaller name. */
  predicate Sorted(s: seq<Purl>) {
    forall i, j :: 0 <= i < j < |s| ==> !Less(Name(s[j]), Name(s[i]))
  }

  /** `x` placed after every element whose name is not greater than its own. */
  function Insert(x: Purl, s: seq<Purl>): (r: seq<Purl>)
    ensures multiset(r) == multiset(s) + multiset{x}
    ensures |r| == |s| + 1
  {
    if |s| == 0 then [x]
    else if Less(Name(x), Name(s[0])) then [x] + s
    else
      assert s == [s[0]] + s[1..];
      [s[0]] + Insert(x, s[1..])
  }

  /** `purls.sort(key=file_name)`: a stable sort, here by insertion in input order. */
  function SortByName(s: seq<Purl>): (r: seq<Purl>)
    ensures multiset(r) == multiset(s)
    ensures |r| == |s|
  {
    if |s| == 0 then []
    else
      assert s == s[..|s| - 1] + [s[|s| - 1]];
      Insert(s[|s| - 1], SortByName(s[..|s| - 1]))
  }

  /** An element no greater than the head of a sorted sequence is no greater than any of it. */
  lemma BelowHead(n: string, s: seq<Purl>, j: int)
    requires Sorted(s) && 0 <= j < |s| && |s| > 0 && !Less(Name(s[0]), n)
    ensures !Less(Name(s[j]), n) || Name(s[j]) == Name(s[0])
  {
    if j > 0 && Less(Name(s[j]), n) {
      LessTotal(Name(s[0]), Name(s[j]));
      if Less(Name(s[0]), Name(s[j])) {
        LessTransitive(Name(s[0]), Name(s[j]), n);
      }
    }
  }

  lemma InsertFrontSorted(x: Purl, s: seq<Purl>)
    requires Sorted(s) && |s| > 0 && Less(Name(x), Name(s[0]))
    ensures Sorted([x] + s)
  {
    var r := [x] + s;
    LessAsymmetric(Name(x), Name(s[0]));
    forall i, j | 0 <= i < j < |r| ensures !Less(Name(r[j]), Name(r[i])) {
      if i == 0 {
        assert r[j] == s[j - 1];
        BelowHead(Name(x), s, j - 1);
      } else {
        assert r[i] == s[i - 1] && r[j] == s[j - 1];
      }
    }
  }

  lemma ConsSorted(y: Purl, t: seq<Purl>)
    requires Sorted(t) && forall j :: 0 <= j < |t| ==> !Less(Name(t[j]), Name(y))
    ensures Sorted([y] + t)
  {
    var r := [y] + t;
    forall i, j | 0 <= i < j < |r| ensures !Less(Name(r[j]), Name(r[i])) {
      assert r[j] == t[j - 1];
      if i > 0 {
        assert r[i] == t[i - 1];
      }
    }
  }

  lemma {:induction false} InsertSorted(x: Purl, s: seq<Purl>)
    requires Sorted(s)
    ensures Sorted(Insert(x, s))
  {
    if |s| == 0 {
    } else if Less(Name(x), Name(s[0])) {
      InsertFrontSorted(x, s);
    } else {
      InsertSorted(x, s[1..]);
      var t := Insert(x, s[1..]);
      forall j | 0 <= j < |t| ensures !Less(Name(t[j]), Name(s[0])) {
        assert t[j] in multiset(t);
        if t[j] != x {
          assert t[j] in multiset(s[1..]);
          var k :| 0 <= k < |s[1..]| && s[1..][k] == t[j];
          assert s[k + 1] == t[j];
        }
      }
      ConsSorted(s[0], t);
    }
  }

  lemma {:induction false} SortSorted(s: seq<Purl>)
    ensures Sorted(SortByName(s))
  {
    if |s| > 0 {
      SortSorted(s[..|s| - 1]);
      InsertSorted(s[|s| - 1], SortByName(s[..|s| - 1]));
    }
  }

  /** The elements of `s` with name `n`, in order. */
  function WithName(s: seq<Purl>, n: string): (r: seq<Purl>)
    ensures forall i :: 0 <= i < |r| ==> Name(r[i]) == n
  {
    if |s| == 0 then []
    else (if Name(s[0]) == n then [s[0]] else []) + WithName(s[1..], n)
  }

  lemma {:induction false} WithNameAppend(s: seq<Purl>, t: seq<Purl>, n: string)
    ensures WithName(s + t, n) == WithName(s, n) + WithName(t, n)
  {
    if |s| > 0 {
      WithNameAppend(s[1..], t, n);
      assert (s + t)[1..] == s[1..] + t;
    } else {
      assert s + t == t;
    }
  }

  lemma {:induction false} WithNoneNamed(s: seq<Purl>, n: string)
    requires forall i :: 0 <= i < |s| ==> Name(s[i]) != n
    ensures WithName(s, n) == []
  {
    if |s| > 0 {
      WithNoneNamed(s[1..], n);
    }
  }

  lemma {:induction false} InsertStable(x: Purl, s: seq<Purl>, n: string)
    requires Sorted(s)
    ensures WithName(Insert(x, s), n) == WithName(s, n) + WithName([x], n)
  {
    if |s| == 0 {
    } else if Less(Name(x), Name(s[0])) {
      InsertFrontStable(x, s, n);
    } else {
      var tail := s[1..];
      SortedTail(s);
      InsertStable(x, tail, n);
      InsertLater(x, s);
      WithNameAppend([s[0]], Insert(x, tail), n);
      WithNameAppend([s[0]], tail, n);
      assert [s[0]] + tail == s;
    }
  }

  /** Placed in front, `x` still comes after every element of its own name, for there is none. */
  lemma InsertFrontStable(x: Purl, s: seq<Purl>, n: string)
    requires Sorted(s) && |s| > 0 && Less(Name(x), Name(s[0]))
    ensures WithName([x] + s, n) == WithName(s, n) + WithName([x], n)
  {
    if Name(x) == n {
      NoneNamedAfter(x, s);
      WithNoneNamed(s, n);
    }
    WithNameAppend([x], s, n);
    WithNameAppend(s, [x], n);
  }

  lemma InsertLater(x: Purl, s: seq<Purl>)
    requires |s| > 0 && !Less(Name(x), Name(s[0]))
    ensures Insert(x, s) == [s[0]] + Insert(x, s[1..])
  {
  }

  lemma SortedTail(s: seq<Purl>)
    requires Sorted(s) && |s| > 0
    ensures Sorted(s[1..])
  {
    forall i, j | 0 <= i < j < |s| - 1 ensures !Less(Name(s[1..][j]), Name(s[1..][i])) {
      assert s[1..][j] == s[j + 1] && s[1..][i] == s[i + 1];
    }
  }

  /** A name below the head of a sorted list is the name of none of its elements. */
  lemma NoneNamedAfter(x: Purl, s: seq<Purl>)
    requires Sorted(s) && |s| > 0 && Less(Name(x), Name(s[0]))
    ensures forall i :: 0 <= i < |s| ==> Name(s[i]) != Name(x)
  {
    forall i | 0 <= i < |s| ensures Name(s[i]) != Name(x) {
      if i > 0 {
        LessTotal(Name(s[0]), Name(s[i]));
        if Less(Name(s[0]), Name(s[i])) {
          LessTransitive(Name(x), Name(s[0]), Name(s[i]));
        }
      }
      if Name(s[i]) == Name(x) { LessIrreflexive(Name(x)); }
    }
  }

  /** The sort is stable: the elements sharing a name keep their input order. */
  lemma {:induction false} SortStable(s: seq<Purl>, n: string)
    ensures WithName(SortByName(s), n) == WithName(s, n)
  {
    if |s| > 0 {
      var init := s[..|s| - 1];
      SortStable(init, n);
      SortSorted(init);
      InsertStable(s[|s| - 1], SortByName(init), n);
      WithNameAppend(init, [s[|s| - 1]], n);
      assert init + [s[|s| - 1]] == s;
    }
  }

  /** The groups laid end to end. */
  function Flatten(groups: seq<seq<Purl>>): seq<Purl> {
    if |groups| == 0 then [] else Flatten(groups[..|groups| - 1]) + groups[|groups| - 1]
  }

  /** Non-empty, and every element has the first one's name. */
  predicate Uniform(g: seq<Purl>) {
    |g| > 0 && forall j :: 0 <= j < |g| ==> Name(g[j]) == Name(g[0])
  }

  /** Every group is uniform and neighbouring groups have different names. */
  predicate Runs(groups: seq<seq<Purl>>) {
    && (forall k :: 0 <= k < |groups| ==> Uniform(groups[k]))
    && (forall j :: 0 <= j < |groups| - 1 ==> NameChangesAt(groups, j))
  }

  /** A prefix of a grouping is a grouping. */
  lemma RunsPrefix(groups: seq<seq<Purl>>, i: int)
    requires Runs(groups) && 0 <= i <= |groups|
    ensures Runs(groups[..i])
  {
    var p := groups[..i];
    forall j | 0 <= j < |p| - 1 ensures NameChangesAt(p, j) {
      assert NameChangesAt(groups, j);
      assert p[j] == groups[j] && p[j + 1] == groups[j + 1];
    }
  }

  /** Group `j` and the group after it have different names. */
  predicate NameChangesAt(groups: seq<seq<Purl>>, j: int) {
    && 0 <= j < |groups| - 1 && |groups[j]| > 0 && |groups[j + 1]| > 0
    && Name(groups[j][0]) != Name(groups[j + 1][0])
  }

  /**
   * The state of `group_purls`'s loop after `i` sorted URLs: the finished
   * groups and the open group lay out the prefix, and `store` is set exactly
   * when the last URL seen ends a run of one name.
   */
  predicate Grouping(sorted: seq<Purl>, i: int, groups: seq<seq<Purl>>, group: seq<Purl>, store: bool) {
    && 0 <= i <= |sorted|
    && Flatten(groups) + group == sorted[..i]
    && Runs(groups)
    && (i == 0 ==> group == [] && !store)
    && (i > 0 ==> Uniform(group) && group[|group| - 1] == sorted[i - 1])
    && (|groups| > 0 && |group| > 0 ==> Name(groups[|groups| - 1][0]) != Name(group[0]))
    && (store <==> i > 0 && (i >= |sorted| || Name(sorted[i - 1]) != Name(sorted[i])))
  }

  /** The finished groups after one step: the open group is appended when `store` is set. */
  function ClosedGroups(groups: seq<seq<Purl>>, group: seq<Purl>, store: bool): seq<seq<Purl>> {
    if store then groups + [group] else groups
  }

  /** The open group after one step: restarted when `store` is set, then extended by `x`. */
  function OpenGroup(group: seq<Purl>, store: bool, x: Purl): seq<Purl> {
    (if store then [] else group) + [x]
  }

  /**
   * `group_purls`: sort by name, then cut the sorted list into maximal runs
   * of one name, with the source's `store` flag deciding when a finished
   * group is appended.
   */
  method GroupPurls(purls: seq<Purl>) returns (groups: seq<seq<Purl>>)
    ensures Flatten(groups) == SortByName(purls)
    ensures Runs(groups)
  {
    var sorted := SortByName(purls);
    groups := [];
    var group: seq<Purl> := [];
    var store := false;
    for i := 0 to |sorted|
      invariant Grouping(sorted, i, groups, group, store)
    {
      GroupStep(sorted, i, groups, group, store);
      if store {
        store := false;
        groups := groups + [group];
        group := [];
      }
      group := group + [sorted[i]];
      if i + 1 >= |sorted| || Name(sorted[i]) != Name(sorted[i + 1]) {
        store := true;
      }
    }
    GroupEnd(sorted, groups, group, store);
    if |group| > 0 {
      groups := groups + [group];
    }
  }

  /** One pass of the loop body keeps the loop's state. */
  lemma GroupStep(sorted: seq<Purl>, i: int, groups: seq<seq<Purl>>, group: seq<Purl>, store: bool)
    requires i < |sorted| && Grouping(sorted, i, groups, group, store)
    ensures Grouping(sorted, i + 1, ClosedGroups(groups, group, store), OpenGroup(group, store, sorted[i]),
                     i + 1 >= |sorted| || Name(sorted[i]) != Name(sorted[i + 1]))
  {
    var start := if store then [] else group;
    if store {
      CloseGroup(groups, group);
    }
    ExtendGroup(start, sorted[i]);
    assert sorted[..i + 1] == sorted[..i] + [sorted[i]];
  }

  /** After the loop, appending the open group completes the grouping. */
  lemma GroupEnd(sorted: seq<Purl>, groups: seq<seq<Purl>>, group: seq<Purl>, store: bool)
    requires Grouping(sorted, |sorted|, groups, group, store)
    ensures Flatten(ClosedGroups(groups, group, |group| > 0)) == sorted
    ensures Runs(ClosedGroups(groups, group, |group| > 0))
  {
    if |group| > 0 {
      CloseGroup(groups, group);
    }
    assert sorted[..|sorted|] == sorted;
  }

  /** Appending a finished group keeps the runs and extends the flattening. */
  lemma CloseGroup(groups: seq<seq<Purl>>, group: seq<Purl>)
    requires Runs(groups) && Uniform(group)
    requires |groups| > 0 ==> Name(groups[|groups| - 1][0]) != Name(group[0])
    ensures Runs(groups + [group])
    ensures Flatten(groups + [group]) == Flatten(groups) + group
  {
    FlattenAppend(groups, group);
    var gs := groups + [group];
    forall k | 0 <= k < |gs| ensures Uniform(gs[k]) {
      if k < |groups| {
        assert gs[k] == groups[k];
      }
    }
    forall j | 0 <= j < |gs| - 1 ensures NameChangesAt(gs, j) {
      assert gs[j] == groups[j];
      if j + 1 < |groups| {
        assert NameChangesAt(groups, j);
        assert gs[j + 1] == groups[j + 1];
      } else {
        assert gs[j + 1] == group;
      }
    }
  }

  lemma FlattenAppend(groups: seq<seq<Purl>>, group: seq<Purl>)
    ensures Flatten(groups + [group]) == Flatten(groups) + group
  {
    var gs := groups + [group];
    assert gs[..|groups|] == groups;
    assert gs[|groups|] == group;
  }

  lemma ExtendGroup(group: seq<Purl>, x: Purl)
    requires group == [] || (Uniform(group) && Name(group[|group| - 1]) == Name(x))
    ensures Uniform(group + [x])
    ensures (group + [x])[0] == (if group == [] then x else group[0])
  {
  }

  /** The distinct desktop-file names of a list of URLs. */
  function NamesOf(s: seq<Purl>): set<string> {
    set x | x in s :: Name(x)
  }

  lemma NamesOfAppend(s: seq<Purl>, g: seq<Purl>)
    requires Uniform(g)
    ensures NamesOf(s + g) == NamesOf(s) + {Name(g[0])}
  {
    forall n | n in NamesOf(s + g) ensures n in NamesOf(s) + {Name(g[0])} {
      var x :| x in s + g && Name(x) == n;
      if x !in s {
        var j :| 0 <= j < |g| && g[j] == x;
      }
    }
    assert g[0] in s + g;
  }

  /** The new group's name is not among the names of the groups before it. */
  lemma FreshName(f: seq<Purl>, g: seq<Purl>)
    requires Sorted(f + g) && Uniform(g) && |f| > 0 && Name(f[|f| - 1]) != Name(g[0])
    ensures Name(g[0]) !in NamesOf(f)
  {
    var s := f + g;
    var l := f[|f| - 1];
    assert s[|f| - 1] == l && s[|f|] == g[0];
    LessTotal(Name(l), Name(g[0]));
    assert Less(Name(l), Name(g[0]));
    forall i | 0 <= i < |f| ensures Name(f[i]) != Name(g[0]) {
      assert s[i] == f[i];
      if i < |f| - 1 {
        assert !Less(Name(l), Name(f[i]));
      }
    }
  }

  lemma SortedPrefix(f: seq<Purl>, g: seq<Purl>)
    requires Sorted(f + g)
    ensures Sorted(f)
  {
    forall i, j | 0 <= i < j < |f| ensures !Less(Name(f[j]), Name(f[i])) {
      assert (f + g)[i] == f[i] && (f + g)[j] == f[j];
    }
  }

  /** Sorted maximal runs: as many groups as distinct names. */
  lemma {:induction false} GroupCount(groups: seq<seq<Purl>>)
    requires Sorted(Flatten(groups)) && Runs(groups)
    ensures |groups| == |NamesOf(Flatten(groups))|
  {
    if |groups| > 0 {
      var init := groups[..|groups| - 1];
      var g := groups[|groups| - 1];
      var f := Flatten(init);
      assert Flatten(groups) == f + g;
      RunsPrefix(groups, |groups| - 1);
      SortedPrefix(f, g);
      GroupCount(init);
      NamesOfAppend(f, g);
      if |init| > 0 {
        var h := init[|init| - 1];
        LastOfFlatten(init);
        assert NameChangesAt(groups, |groups| - 2);
        assert Name(h[0]) != Name(g[0]);
        assert Name(f[|f| - 1]) == Name(h[0]);
        FreshName(f, g);
      } else {
        assert f == [];
        assert NamesOf(f) == {};
      }
    }
  }

  lemma LastOfFlatten(groups: seq<seq<Purl>>)
    requires |groups| > 0 && Runs(groups)
    ensures |Flatten(groups)| > 0
    ensures Flatten(groups)[|Flatten(groups)| - 1] == groups[|groups| - 1][|groups[|groups| - 1]| - 1]
  {
    assert Uniform(groups[|groups| - 1]);
  }

  /** `group_purls` makes exactly one group per distinct desktop-file name. */
  lemma GroupPurlsCount(purls: seq<Purl>, groups: seq<seq<Purl>>)
    requires Flatten(groups) == SortByName(purls) && Runs(groups)
    ensures |groups| == |NamesOf(purls)|
  {
    SortSorted(purls);
    GroupCount(groups);
    NamesOfPermutation(SortByName(purls), purls);
  }

  /** Reordering a list keeps its set of names. */
  lemma NamesOfPermutation(a: seq<Purl>, b: seq<Purl>)
    requires multiset(a) == multiset(b)
    ensures NamesOf(a) == NamesOf(b)
  {
    forall n ensures n in NamesOf(a) <==> n in NamesOf(b) {
      if n in NamesOf(a) {
        var x :| x in a && Name(x) == n;
        assert x in multiset(a);
      }
      if n in NamesOf(b) {
        var x :| x in b && Name(x) == n;
        assert x in multiset(b);
      }
    }
  }

  /** What the main loop of `xdg_open` makes of one input. */
  datatype Resolved = Opened(purl: Purl) | Failed | Raised

  /**
   * One URL: no (or an empty) MIME type, or no desktop file for it, is an
   * error the loop reports and moves past; an exception in the lookup is
   * not caught.
   */
  function ResolveOne(env: Env, url: string): (r: Resolved)
    requires ValidFs(env.fs)
    ensures r.Opened? ==> r.purl.url == Url.MakeUrl(url, "", "", "", env)
    ensures r.Opened? ==> (Url.MakeUrl(url, "", "", "", env).mimeType.Some?
      && Locator.GetDesktopFile(env, "MimeType", Url.MakeUrl(url, "", "", "", env).mimeType.value) == Locator.Hit(r.purl.entry))
    ensures r.Failed? <==>
      var m := Url.MakeUrl(url, "", "", "", env).mimeType;
      !ExecExpand.Truthy(m) || Locator.GetDesktopFile(env, "MimeType", m.value).Miss?
    ensures r.Raised? <==>
      var m := Url.MakeUrl(url, "", "", "", env).mimeType;
      ExecExpand.Truthy(m) && Locator.GetDesktopFile(env, "MimeType", m.value).Crash?
    ensures
      var u := Url.MakeUrl(url, "", "", "", env);
      ExecExpand.Truthy(u.mimeType) && Locator.GetDesktopFile(env, "MimeType", u.mimeType.value).Hit? ==>
        r == Opened(ExecExpand.Purl(u, Locator.GetDesktopFile(env, "MimeType", u.mimeType.value).entry))
  {
    var u := Url.MakeUrl(url, "", "", "", env);
    if !ExecExpand.Truthy(u.mimeType) then Failed
    else match Locator.GetDesktopFile(env, "MimeType", u.mimeType.value)
      case Hit(e) => Opened(ExecExpand.Purl(u, e))
      case Miss => Failed
      case Crash => Raised
  }

  /** The URLs that resolved, in input order, and whether any failed; or an uncaught exception. */
  datatype Resolution = Resolution(purls: seq<Purl>, failed: bool) | ResolveCrash

  /** What the loop makes of every input, one by one. */
  function Outcomes(env: Env, urls: seq<string>): (rs: seq<Resolved>)
    requires ValidFs(env.fs)
    ensures |rs| == |urls| && forall i :: 0 <= i < |urls| ==> rs[i] == ResolveOne(env, urls[i])
  {
    seq(|urls|, i requires 0 <= i < |urls| && ValidFs(env.fs) => ResolveOne(env, urls[i]))
  }

  /** The first loop of `xdg_open` over the per-input outcomes, in order. */
  function Combine(rs: seq<Resolved>): (r: Resolution)
    ensures r.Resolution? ==> |r.purls| <= |rs|
  {
    if |rs| == 0 then Resolution([], false)
    else
      var rest := Combine(rs[1..]);
      match rs[0]
      case Raised => ResolveCrash
      case Failed => if rest.ResolveCrash? then rest else Resolution(rest.purls, true)
      case Opened(p) => if rest.ResolveCrash? then rest else Resolution([p] + rest.purls, rest.failed)
  }

  /**
   * The first loop of `xdg_open` over the inputs: it raises iff some input
   * raises; otherwise the error flag is set iff some input failed, and the
   * inputs that open are kept in input order.
   */
  function Resolve(env: Env, urls: seq<string>): (r: Resolution)
    requires ValidFs(env.fs)
    ensures r.ResolveCrash? <==> exists i :: 0 <= i < |urls| && ResolveOne(env, urls[i]).Raised?
    ensures r.Resolution? ==> (r.failed <==> exists i :: 0 <= i < |urls| && ResolveOne(env, urls[i]).Failed?)
    ensures r.Resolution? ==> r.purls == OpenedOf(Outcomes(env, urls))
  {
    CombineOutcome(Outcomes(env, urls));
    Combine(Outcomes(env, urls))
  }

  /** The inputs that open, in input order. */
  function OpenedOf(rs: seq<Resolved>): seq<Purl> {
    if |rs| == 0 then [] else (if rs[0].Opened? then [rs[0].purl] else []) + OpenedOf(rs[1..])
  }

  /**
   * The run stops on the first exception; otherwise a failing URL does not
   * stop the rest (every URL that opens is kept, in input order) and the
   * exit status records whether any URL lacked a MIME type or a desktop file.
   */
  lemma {:induction false} CombineOutcome(rs: seq<Resolved>)
    ensures Combine(rs).ResolveCrash? <==> exists i :: 0 <= i < |rs| && rs[i].Raised?
    ensures Combine(rs).Resolution? ==> (Combine(rs).failed <==> exists i :: 0 <= i < |rs| && rs[i].Failed?)
    ensures Combine(rs).Resolution? ==> Combine(rs).purls == OpenedOf(rs)
  {
    if |rs| > 0 {
      CombineOutcome(rs[1..]);
      assert forall i :: 0 <= i < |rs| - 1 ==> rs[1..][i] == rs[i + 1];
      if exists i :: 0 <= i < |rs| && rs[i].Raised? {
        var i :| 0 <= i < |rs| && rs[i].Raised?;
        if i > 0 { assert rs[1..][i - 1].Raised?; }
      }
      if exists i :: 0 <= i < |rs| && rs[i].Failed? {
        var i :| 0 <= i < |rs| && rs[i].Failed?;
        if i > 0 { assert rs[1..][i - 1].Failed?; }
      }
    }
  }

  datatype Status = Exit(code: int) | Crashed

  /** The commands of every group, group after group, or None when one group's preparation raises. */
  function PlanAll(env: Env, groups: seq<seq<Purl>>): Option<seq<string>>
    requires ValidFs(env.fs) && Runs(groups)
  {
    if |groups| == 0 then Some([])
    else
      var k := |groups| - 1;
      RunsPrefix(groups, k);
      assert Uniform(groups[k]);
      Then(PlanAll(env, groups[..k]), ExecExpand.RunExec(env, groups[k]))
  }

  /** The commands planned so far followed by the next group's, or None once either raised. */
  function Then(before: Option<seq<string>>, next: Option<seq<string>>): (r: Option<seq<string>>)
    ensures r.Some? <==> before.Some? && next.Some?
    ensures r.Some? ==> r.value == before.value + next.value
  {
    match before
    case None => None
    case Some(b) =>
      match next
      case None => None
      case Some(cs) => Some(b + cs)
  }

  /**
   * The run raised while preparing group `k`: the groups before it were
   * all prepared, and their commands are exactly `planned`.
   */
  predicate CrashedAt(env: Env, groups: seq<seq<Purl>>, k: int, planned: seq<string>)
    requires ValidFs(env.fs)
  {
    && 0 <= k < |groups|
    && Runs(groups[..k]) && Uniform(groups[k])
    && PlanAll(env, groups[..k]) == Some(planned)
    && ExecExpand.RunExec(env, groups[k]).None?
  }

  /** How a run ended, the command strings it planned, and those it spawned. */
  datatype Outcome = Outcome(status: Status, planned: seq<string>, spawned: seq<string>)

  /**
   * `xdg_open(urls, dryrun)`: resolve, group, and run each group's
   * commands; nothing is spawned in a dry run. An exception while
   * preparing a group ends the run after the groups before it.
   */
  method XdgOpen(env: Env, urls: seq<string>, dryrun: bool) returns (out: Outcome)
    requires ValidFs(env.fs)
    ensures dryrun ==> out.spawned == []
    ensures !dryrun ==> out.spawned == out.planned
    ensures Resolve(env, urls).ResolveCrash? ==> out == Outcome(Crashed, [], [])
    ensures out.status.Exit? ==> (Resolve(env, urls).Resolution?
      && out.status.code == if Resolve(env, urls).failed then 1 else 0)
    ensures Resolve(env, urls).Resolution? && Resolve(env, urls).purls == [] ==>
      out == Outcome(Exit(if Resolve(env, urls).failed then 1 else 0), [], [])
    ensures out.status.Exit? ==> exists groups ::
      && Flatten(groups) == SortByName(Resolve(env, urls).purls)
      && Runs(groups)
      && PlanAll(env, groups) == Some(out.planned)
    ensures out.status.Crashed? && Resolve(env, urls).Resolution? ==> exists groups ::
      && Flatten(groups) == SortByName(Resolve(env, urls).purls)
      && Runs(groups)
      && PlanAll(env, groups).None?
      && exists k :: CrashedAt(env, groups, k, out.planned)
  {
    var res := Resolve(env, urls);
    if res.ResolveCrash? {
      return Outcome(Crashed, [], []);
    }
    var groups := GroupPurls(res.purls);
    if res.purls == [] {
      assert |groups| == 0 by {
        GroupPurlsCount(res.purls, groups);
        assert NamesOf(res.purls) == {};
      }
    }
    var crashed, planned, spawned := RunGroups(env, groups, dryrun);
    if crashed {
      return Outcome(Crashed, planned, spawned);
    }
    out := Outcome(Exit(if res.failed then 1 else 0), planned, spawned);
  }

  /**
   * The second loop of `xdg_open`: each group's commands are planned and,
   * unless this is a dry run, spawned; an exception while preparing a group
   * ends the loop after the groups before it.
   */
  method RunGroups(env: Env, groups: seq<seq<Purl>>, dryrun: bool)
      returns (crashed: bool, planned: seq<string>, spawned: seq<string>)
    requires ValidFs(env.fs) && Runs(groups)
    ensures dryrun ==> spawned == []
    ensures !dryrun ==> spawned == planned
    ensures !crashed <==> PlanAll(env, groups).Some?
    ensures !crashed ==> PlanAll(env, groups) == Some(planned)
    ensures crashed ==> exists k :: CrashedAt(env, groups, k, planned)
  {
    planned, spawned := [], [];
    for i := 0 to |groups|
      invariant dryrun ==> spawned == []
      invariant !dryrun ==> spawned == planned
      invariant Runs(groups[..i])
      invariant PlanAll(env, groups[..i]) == Some(planned)
    {
      PlanPrefix(env, groups, i);
      var commands := ExecExpand.RunExec(env, groups[i]);
      if commands.None? {
        PlanNoneExtends(env, groups, i + 1);
        assert CrashedAt(env, groups, i, planned);
        return true, planned, spawned;
      }
      planned := planned + commands.value;
      if !dryrun {
        spawned := spawned + commands.value;
      }
    }
    assert groups[..|groups|] == groups;
    return false, planned, spawned;
  }

  /** One more group: its commands follow those of the groups before it. */
  lemma PlanPrefix(env: Env, groups: seq<seq<Purl>>, i: int)
    requires ValidFs(env.fs) && Runs(groups) && 0 <= i < |groups|
    ensures Runs(groups[..i]) && Runs(groups[..i + 1]) && Uniform(groups[i])
    ensures PlanAll(env, groups[..i + 1]) == Then(PlanAll(env, groups[..i]), ExecExpand.RunExec(env, groups[i]))
  {
    RunsPrefix(groups, i);
    RunsPrefix(groups, i + 1);
    assert groups[..i + 1][..i] == groups[..i];
    assert groups[..i + 1][i] == groups[i];
  }

  /** Once a prefix raises, so does every longer prefix. */
  lemma {:induction false} PlanNoneExtends(env: Env, groups: seq<seq<Purl>>, i: int)
    requires ValidFs(env.fs) && Runs(groups) && 0 <= i <= |groups| && Runs(groups[..i])
    requires PlanAll(env, groups[..i]).None?
    ensures PlanAll(env, groups).None?
    decreases |groups| - i
  {
    if i < |groups| {
      PlanPrefix(env, groups, i);
      PlanNoneExtends(env, groups, i + 1);
    } else {
      assert groups[..i] == groups;
    }
  }
}
