/** The two `os.path` operations the resolver uses on POSIX paths. */
module Paths {
  import opened Strings

  /**
   * `os.path.join(a, b)` for two components: an absolute `b` replaces `a`,
   * otherwise exactly one `/` separates them unless `a` is empty or already
   * ends with one.
   */
  function PathJoin(a: string, b: string): (r: string)
    ensures StartsWith(b, "/") ==> r == b
    ensures !StartsWith(b, "/") ==> StartsWith(r, a) && EndsWith(r, b)
    ensures !StartsWith(b, "/") && (a == "" || EndsWith(a, "/")) ==> r == a + b
    ensures !StartsWith(b, "/") && a != "" && !EndsWith(a, "/") ==> r == a + "/" + b
    ensures !StartsWith(b, "/") && b != "" ==> |r| > |a|
  {
    if StartsWith(b, "/") then b
    else if a == "" || EndsWith(a, "/") then a + b
    else a + "/" + b
  }

  /** Index of the last `c` in `s`, or -1 (Python's `s.rfind(c)`). */
  function RFind(s: string, c: char): (i: int)
    ensures -1 <= i < |s|
    ensures i >= 0 ==> s[i] == c
    ensures forall j :: i < j < |s| ==> s[j] != c
    decreases |s|
  {
    if |s| == 0 then -1
    else if s[|s| - 1] == c then |s| - 1
    else RFind(s[..|s| - 1], c)
  }

  /**
   * The extension part of `os.path.splitext(p)`: from the last dot to the
   * end, provided that dot lies in the last path component and is preceded
   * there by something other than dots; otherwise empty.
   */
  function Ext(p: string): (e: string)
    ensures e == "" || (StartsWith(e, ".") && EndsWith(p, e))
    ensures forall k :: 0 <= k < |e| ==> e[k] != '/'
    ensures forall k :: 1 <= k < |e| ==> e[k] != '.'
    ensures e != "" ==> exists k :: 0 <= k < |p| - |e| && p[k] != '.' && forall j :: k <= j < |p| ==> p[j] != '/'
  {
    var sepIndex := RFind(p, '/');
    var dotIndex := RFind(p, '.');
    if dotIndex > sepIndex && exists k | sepIndex + 1 <= k < dotIndex :: p[k] != '.' then
      p[dotIndex..]
    else
      ""
  }

  /**
   * The converse of `Ext`'s contract: whenever `p` is `q` + "." + `x` with a
   * dot- and slash-free `x` and some non-dot character in the last
   * component of `q`, the extension is exactly "." + `x`. Together with the
   * contract this characterises `Ext` for all paths, bare names included.
   */
  lemma ExtOfSuffix(q: string, x: string)
    requires forall k :: 0 <= k < |x| ==> x[k] != '/' && x[k] != '.'
    requires exists k :: 0 <= k < |q| && q[k] != '.' && forall j :: k <= j < |q| ==> q[j] != '/'
    ensures Ext(q + "." + x) == "." + x
  {
    var p := q + "." + x;
    var d := |q|;
    var k :| 0 <= k < |q| && q[k] != '.' && forall j :: k <= j < |q| ==> q[j] != '/';
    assert p[d] == '.';
    assert forall j :: d < j < |p| ==> p[j] == x[j - d - 1];
    assert RFind(p, '.') == d;
    assert forall j :: k <= j < |p| ==> p[j] != '/' by {
      forall j | k <= j < |p| ensures p[j] != '/' {
        if j < d { assert p[j] == q[j]; }
      }
    }
    assert RFind(p, '/') < k;
    assert p[k] == q[k];
    assert p[d..] == "." + x;
  }

  /** The extension of `a.pdf` is `.pdf`, without any directory part. */
  lemma BareNameExt()
    ensures Ext("a.pdf") == ".pdf"
  {
    var q := "a";
    assert q[0] != '.' && forall j :: 0 <= j < |q| ==> q[j] != '/';
    ExtOfSuffix(q, "pdf");
    assert "a" + "." + "pdf" == "a.pdf";
  }

  /** A last component made of one leading dot and a dot-free rest has no extension. */
  lemma DotFileHasNoExt(dir: string, x: string)
    requires forall k :: 0 <= k < |x| ==> x[k] != '/' && x[k] != '.'
    ensures Ext(dir + "/." + x) == ""
  {
    var p := dir + "/." + x;
    var d := |dir| + 1;
    assert p[d] == '.' && p[|dir|] == '/';
    assert forall j :: d < j < |p| ==> p[j] == x[j - d - 1];
    assert RFind(p, '.') == d;
    assert RFind(p, '/') == |dir|;
  }
}
