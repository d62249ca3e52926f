/**
 * `nrwalk`: a non-recursive directory walk with an explicit stack, depth
 * bounds and name filters, over the in-memory filesystem.
 */
module Walk {
  import opened Strings
  import opened Paths
  import opened Environment

  /** What the walk yields for one directory: its path, subdirectories and other entries. */
  datatype DirNode = DirNode(root: string, dirs: seq<string>, nondirs: seq<string>)

  /** A yielded node together with the stack depth it was yielded at (0 for `top`). */
  datatype Visit = Visit(node: DirNode, depth: int)

  /**
   * The walk's parameters. A filter returning true for `(name, root)` drops
   * the name; a filter left as None in the source behaves as one that never
   * drops anything.
   */
  datatype Params = Params(
    mindepth: int,
    maxdepth: int,
    dirFilter: (string, string) -> bool,
    fileFilter: (string, string) -> bool)

  /** `[x for x in names if not drop(x, root)]`. */
  function Keep(names: seq<string>, root: string, drop: (string, string) -> bool): (r: seq<string>)
    ensures forall i :: 0 <= i < |r| ==> !drop(r[i], root) && r[i] in names
    ensures forall n :: n in names && !drop(n, root) ==> n in r
    ensures |names| == 1 ==> r == (if drop(names[0], root) then [] else names)
  {
    if |names| == 0 then []
    else (if drop(names[0], root) then [] else [names[0]]) + Keep(names[1..], root, drop)
  }

  /**
   * Filtering distributes over concatenation, so (with the one-name case
   * of `Keep`'s contract) the kept names stay in listing order: the order
   * in which `pop()` later takes subdirectories is the listing's.
   */
  lemma {:induction false} KeepAppend(a: seq<string>, b: seq<string>, root: string, drop: (string, string) -> bool)
    ensures Keep(a + b, root, drop) == Keep(a, root, drop) + Keep(b, root, drop)
    decreases |a|
  {
    if |a| > 0 {
      KeepAppend(a[1..], b, root, drop);
      assert (a + b)[1..] == a[1..] + b;
      var h := if drop(a[0], root) then [] else [a[0]];
      var x, y := Keep(a[1..], root, drop), Keep(b, root, drop);
      assert Keep(a + b, root, drop) == h + (x + y);
      assert Keep(a, root, drop) == h + x;
      assert h + (x + y) == (h + x) + y;
    } else {
      assert a + b == b;
    }
  }

  /** The listed names that are directories (`isdir(join(root, name))`), in listing order. */
  function SubDirs(fs: Fs, root: string, names: seq<string>): (r: seq<string>)
    ensures forall i :: 0 <= i < |r| ==> IsDir(fs, PathJoin(root, r[i])) && r[i] in names
    ensures forall n :: n in names && IsDir(fs, PathJoin(root, n)) ==> n in r
  {
    Keep(names, root, (n, r) => !IsDir(fs, PathJoin(r, n)))
  }

  /** The listed names that are not directories, in listing order. */
  function NonDirs(fs: Fs, root: string, names: seq<string>): (r: seq<string>)
    ensures forall i :: 0 <= i < |r| ==> !IsDir(fs, PathJoin(root, r[i])) && r[i] in names
    ensures forall n :: n in names && !IsDir(fs, PathJoin(root, n)) ==> n in r
  {
    Keep(names, root, (n, r) => IsDir(fs, PathJoin(r, n)))
  }

  /** Directories strictly longer than `root`: what is left to descend into. */
  function Below(fs: Fs, root: string): set<string> {
    set d | d in fs.dirs && |d| > |root|
  }

  /** `name` names a subdirectory of `root` whose path is longer than `root`'s. */
  predicate IsChild(fs: Fs, root: string, name: string) {
    IsDir(fs, PathJoin(root, name)) && |PathJoin(root, name)| > |root|
  }

  predicate AllChildren(fs: Fs, root: string, ds: seq<string>) {
    forall i :: 0 <= i < |ds| ==> IsChild(fs, root, ds[i])
  }

  lemma BelowShrinks(fs: Fs, root: string, c: string)
    requires c in fs.dirs && |c| > |root|
    ensures Below(fs, c) < Below(fs, root)
  {
    assert c in Below(fs, root) && c !in Below(fs, c);
  }

  /** A plain listed name that is a directory is a child: its joined path is longer. */
  lemma PlainChild(fs: Fs, root: string, n: string)
    requires PlainName(n) && IsDir(fs, PathJoin(root, n))
    ensures IsChild(fs, root, n)
  {
    assert n[0] != '/';
    assert !StartsWith(n, "/");
  }

  /** `process_dir`: a directory that cannot be listed has no entries. */
  function ProcessDir(fs: Fs, root: string, p: Params): (r: DirNode)
    requires ValidFs(fs)
    ensures r.root == root
    ensures AllChildren(fs, root, r.dirs)
  {
    if !IsDir(fs, root) then DirNode(root, [], [])
    else
      var names := fs.dirs[root];
      var ds := Keep(SubDirs(fs, root, names), root, p.dirFilter);
      assert AllChildren(fs, root, ds) by {
        forall i | 0 <= i < |ds| ensures IsChild(fs, root, ds[i]) {
          assert ds[i] in names;
          PlainChild(fs, root, ds[i]);
        }
      }
      DirNode(root, ds, Keep(NonDirs(fs, root, names), root, p.fileFilter))
  }

  /**
   * The node of a directory lists exactly its entries that pass the
   * filters, split by whether they are directories; filtered names never
   * appear.
   */
  lemma ProcessDirEntries(fs: Fs, root: string, p: Params, n: string)
    requires ValidFs(fs)
    ensures n in ProcessDir(fs, root, p).dirs <==>
      IsDir(fs, root) && n in fs.dirs[root] && IsDir(fs, PathJoin(root, n)) && !p.dirFilter(n, root)
    ensures n in ProcessDir(fs, root, p).nondirs <==>
      IsDir(fs, root) && n in fs.dirs[root] && !IsDir(fs, PathJoin(root, n)) && !p.fileFilter(n, root)
  {
    if IsDir(fs, root) {
      var names := fs.dirs[root];
      var sd := SubDirs(fs, root, names);
      var nd := NonDirs(fs, root, names);
      if n in sd {
        var i :| 0 <= i < |sd| && sd[i] == n;
      }
      if n in nd {
        var i :| 0 <= i < |nd| && nd[i] == n;
      }
      var ds := ProcessDir(fs, root, p).dirs;
      var ns := ProcessDir(fs, root, p).nondirs;
      if n in ds {
        var i :| 0 <= i < |ds| && ds[i] == n;
      }
      if n in ns {
        var i :| 0 <= i < |ns| && ns[i] == n;
      }
    }
  }

  /**
   * The order `nrwalk` visits directories in, written recursively: a
   * directory (yielded when its depth is within bounds), then, while the
   * depth allows, the walks of its subdirectories starting with the
   * last-listed one, because the stack takes them with `pop()`.
   */
  function WalkFrom(fs: Fs, root: string, depth: int, p: Params): seq<Visit>
    requires ValidFs(fs)
    decreases Below(fs, root), 1, 0
  {
    var node := ProcessDir(fs, root, p);
    var here := if p.mindepth <= depth <= p.maxdepth then [Visit(node, depth)] else [];
    here + (if depth + 1 <= p.maxdepth then WalkChildren(fs, root, node.dirs, depth + 1, p) else [])
  }

  function WalkChildren(fs: Fs, root: string, ds: seq<string>, depth: int, p: Params): seq<Visit>
    requires ValidFs(fs) && AllChildren(fs, root, ds)
    decreases Below(fs, root), 0, |ds|
  {
    if |ds| == 0 then []
    else
      var c := PathJoin(root, ds[|ds| - 1]);
      BelowShrinks(fs, root, c);
      WalkFrom(fs, c, depth, p) + WalkChildren(fs, root, ds[..|ds| - 1], depth, p)
  }

  /** What a stack frame at `depth` still has to contribute: the walks of its remaining subdirectories. */
  function Rest(fs: Fs, f: DirNode, depth: int, p: Params): seq<Visit>
    requires ValidFs(fs) && AllChildren(fs, f.root, f.dirs)
  {
    if depth + 1 <= p.maxdepth then WalkChildren(fs, f.root, f.dirs, depth + 1, p) else []
  }

  predicate StackOk(fs: Fs, stack: seq<DirNode>) {
    forall i :: 0 <= i < |stack| ==> AllChildren(fs, stack[i].root, stack[i].dirs)
  }

  /** Everything the frames on the stack still have to yield, top frame first. */
  function Pending(fs: Fs, stack: seq<DirNode>, p: Params): seq<Visit>
    requires ValidFs(fs) && StackOk(fs, stack)
    decreases |stack|
  {
    if |stack| == 0 then []
    else
      var k := |stack| - 1;
      Rest(fs, stack[k], k, p) + Pending(fs, stack[..k], p)
  }

  /** Loop steps a fresh directory at `depth` costs: one push, one pop, and its subdirectories' costs. */
  function Steps(fs: Fs, root: string, depth: int, p: Params): nat
    requires ValidFs(fs)
    decreases Below(fs, root), 1, 0
  {
    var node := ProcessDir(fs, root, p);
    2 + (if depth + 1 <= p.maxdepth then StepsChildren(fs, root, node.dirs, depth + 1, p) else 0)
  }

  function StepsChildren(fs: Fs, root: string, ds: seq<string>, depth: int, p: Params): nat
    requires ValidFs(fs) && AllChildren(fs, root, ds)
    decreases Below(fs, root), 0, |ds|
  {
    if |ds| == 0 then 0
    else
      var c := PathJoin(root, ds[|ds| - 1]);
      BelowShrinks(fs, root, c);
      Steps(fs, c, depth, p) + StepsChildren(fs, root, ds[..|ds| - 1], depth, p)
  }

  function FrameSteps(fs: Fs, f: DirNode, depth: int, p: Params): nat
    requires ValidFs(fs) && AllChildren(fs, f.root, f.dirs)
  {
    1 + (if depth + 1 <= p.maxdepth then StepsChildren(fs, f.root, f.dirs, depth + 1, p) else 0)
  }

  function StackSteps(fs: Fs, stack: seq<DirNode>, p: Params): nat
    requires ValidFs(fs) && StackOk(fs, stack)
    decreases |stack|
  {
    if |stack| == 0 then 0
    else
      var k := |stack| - 1;
      FrameSteps(fs, stack[k], k, p) + StackSteps(fs, stack[..k], p)
  }

  /**
   * `nrwalk(top, mindepth, maxdepth, dirfilter, filefilter)`: the stack loop
   * of the source, yielding exactly the recursive walk.
   */
  method NrWalk(fs: Fs, top: string, p: Params) returns (visits: seq<Visit>)
    requires ValidFs(fs)
    ensures visits == WalkFrom(fs, top, 0, p)
  {
    var first := ProcessDir(fs, top, p);
    var start := if p.mindepth <= 0 <= p.maxdepth then [Visit(first, 0)] else [];
    StartWalk(fs, top, p);
    visits := Drain(fs, [first], p, start);
  }

  /** The stack loop of `nrwalk`: pops and pushes until the stack is empty, yielding every pending visit. */
  method Drain(fs: Fs, stack0: seq<DirNode>, p: Params, visits0: seq<Visit>) returns (visits: seq<Visit>)
    requires ValidFs(fs) && StackOk(fs, stack0)
    ensures visits == visits0 + Pending(fs, stack0, p)
  {
    var stack := stack0;
    visits := visits0;
    while |stack| > 0
      invariant StackOk(fs, stack)
      invariant visits + Pending(fs, stack, p) == visits0 + Pending(fs, stack0, p)
      decreases StackSteps(fs, stack, p)
    {
      LoopStep(fs, stack, p);
      var yielded := Yielded(fs, stack, p);
      var next := NextStack(fs, stack, p);
      visits := visits + yielded;
      stack := next;
    }
    assert visits + [] == visits;
  }

  /** The stack after one pass of the loop: push the top frame's last subdirectory, or pop the frame. */
  function NextStack(fs: Fs, stack: seq<DirNode>, p: Params): seq<DirNode>
    requires ValidFs(fs) && |stack| > 0
  {
    var k := |stack| - 1;
    if |stack[k].dirs| > 0 && p.maxdepth >= |stack| then Pushed(fs, stack, p) else stack[..k]
  }

  /** What one pass of the loop yields: the pushed node, when it is deep enough. */
  function Yielded(fs: Fs, stack: seq<DirNode>, p: Params): seq<Visit>
    requires ValidFs(fs) && |stack| > 0
  {
    var k := |stack| - 1;
    if |stack[k].dirs| > 0 && p.maxdepth >= |stack| && k + 1 >= p.mindepth
    then [Visit(Pushed(fs, stack, p)[k + 1], k + 1)]
    else []
  }

  /** One pass of the loop yields the next visits of the walk and costs one step. */
  lemma LoopStep(fs: Fs, stack: seq<DirNode>, p: Params)
    requires ValidFs(fs) && StackOk(fs, stack) && |stack| > 0
    ensures StackOk(fs, NextStack(fs, stack, p))
    ensures Pending(fs, stack, p) == Yielded(fs, stack, p) + Pending(fs, NextStack(fs, stack, p), p)
    ensures StackSteps(fs, NextStack(fs, stack, p), p) < StackSteps(fs, stack, p)
  {
    var k := |stack| - 1;
    if |stack[k].dirs| > 0 && p.maxdepth >= |stack| {
      PushPending(fs, stack, p);
      PushSteps(fs, stack, p);
    } else {
      PopStep(fs, stack, p);
    }
  }

  /** The loop starts with the top directory yielded (when in bounds) and its frame pending. */
  lemma StartWalk(fs: Fs, top: string, p: Params)
    requires ValidFs(fs)
    ensures StackOk(fs, [ProcessDir(fs, top, p)])
    ensures (if p.mindepth <= 0 <= p.maxdepth then [Visit(ProcessDir(fs, top, p), 0)] else [])
      + Pending(fs, [ProcessDir(fs, top, p)], p) == WalkFrom(fs, top, 0, p)
  {
    var stack := [ProcessDir(fs, top, p)];
    PendingUnfold(fs, stack, p);
    assert stack[..0] == [];
  }

  /** A frame with nothing left to explore is popped without yielding anything. */
  lemma PopStep(fs: Fs, stack: seq<DirNode>, p: Params)
    requires ValidFs(fs) && StackOk(fs, stack) && |stack| > 0
    requires !(|stack[|stack| - 1].dirs| > 0 && p.maxdepth >= |stack|)
    ensures StackOk(fs, stack[..|stack| - 1])
    ensures Pending(fs, stack[..|stack| - 1], p) == Pending(fs, stack, p)
    ensures StackSteps(fs, stack[..|stack| - 1], p) < StackSteps(fs, stack, p)
  {
    PendingUnfold(fs, stack, p);
    var k := |stack| - 1;
    assert Rest(fs, stack[k], k, p) == [];
  }

  /** The stack after a push: the top frame loses its last subdirectory, whose node goes on top. */
  function Pushed(fs: Fs, stack: seq<DirNode>, p: Params): seq<DirNode>
    requires ValidFs(fs) && |stack| > 0 && |stack[|stack| - 1].dirs| > 0
  {
    var k := |stack| - 1;
    var t := stack[k];
    var m := |t.dirs| - 1;
    stack[..k] + [t.(dirs := t.dirs[..m]), ProcessDir(fs, PathJoin(t.root, t.dirs[m]), p)]
  }

  lemma PushedOk(fs: Fs, stack: seq<DirNode>, p: Params)
    requires ValidFs(fs) && StackOk(fs, stack) && |stack| > 0 && |stack[|stack| - 1].dirs| > 0
    ensures StackOk(fs, Pushed(fs, stack, p))
    ensures Pushed(fs, stack, p)[..|stack|][..|stack| - 1] == stack[..|stack| - 1]
  {
    var k := |stack| - 1;
    var t := stack[k];
    var m := |t.dirs| - 1;
    var s' := Pushed(fs, stack, p);
    assert AllChildren(fs, t.root, t.dirs[..m]) by {
      forall i | 0 <= i < m ensures IsChild(fs, t.root, t.dirs[..m][i]) {
        assert t.dirs[..m][i] == t.dirs[i];
      }
    }
    forall i | 0 <= i < |s'| ensures AllChildren(fs, s'[i].root, s'[i].dirs) {
      if i < k { assert s'[i] == stack[i]; }
    }
  }

  /** A fresh directory yields itself (when deep enough) followed by its frame's remainder. */
  lemma WalkFromUnfold(fs: Fs, c: string, depth: int, p: Params)
    requires ValidFs(fs) && depth <= p.maxdepth
    ensures WalkFrom(fs, c, depth, p)
      == (if p.mindepth <= depth then [Visit(ProcessDir(fs, c, p), depth)] else [])
         + Rest(fs, ProcessDir(fs, c, p), depth, p)
  {
  }

  /** A frame's remainder starts with the walk of its last subdirectory. */
  lemma RestUnfold(fs: Fs, t: DirNode, depth: int, p: Params)
    requires ValidFs(fs) && AllChildren(fs, t.root, t.dirs) && |t.dirs| > 0 && depth + 1 <= p.maxdepth
    ensures AllChildren(fs, t.root, t.dirs[..|t.dirs| - 1])
    ensures Rest(fs, t, depth, p)
      == WalkFrom(fs, PathJoin(t.root, t.dirs[|t.dirs| - 1]), depth + 1, p)
         + Rest(fs, t.(dirs := t.dirs[..|t.dirs| - 1]), depth, p)
  {
    var pre := t.dirs[..|t.dirs| - 1];
    forall i | 0 <= i < |pre| ensures IsChild(fs, t.root, pre[i]) {
      assert pre[i] == t.dirs[i];
    }
  }

  lemma PendingUnfold(fs: Fs, stack: seq<DirNode>, p: Params)
    requires ValidFs(fs) && StackOk(fs, stack) && |stack| > 0
    ensures StackOk(fs, stack[..|stack| - 1])
    ensures Pending(fs, stack, p)
      == Rest(fs, stack[|stack| - 1], |stack| - 1, p) + Pending(fs, stack[..|stack| - 1], p)
  {
    var k := |stack| - 1;
    forall i | 0 <= i < k ensures AllChildren(fs, stack[..k][i].root, stack[..k][i].dirs) {
      assert stack[..k][i] == stack[i];
    }
  }

  /** One push yields the new node (when deep enough) and keeps the rest of the walk. */
  lemma PushPending(fs: Fs, stack: seq<DirNode>, p: Params)
    requires ValidFs(fs) && StackOk(fs, stack) && |stack| > 0
    requires |stack[|stack| - 1].dirs| > 0 && p.maxdepth >= |stack|
    ensures StackOk(fs, Pushed(fs, stack, p))
    ensures
      var k := |stack| - 1;
      var node := Pushed(fs, stack, p)[k + 1];
      var here := if p.mindepth <= k + 1 then [Visit(node, k + 1)] else [];
      Pending(fs, stack, p) == here + Pending(fs, Pushed(fs, stack, p), p)
  {
    PushedOk(fs, stack, p);
    var k := |stack| - 1;
    var t := stack[k];
    var m := |t.dirs| - 1;
    var c := PathJoin(t.root, t.dirs[m]);
    var s' := Pushed(fs, stack, p);
    var node := s'[k + 1];
    var t' := s'[k];
    var here := if p.mindepth <= k + 1 then [Visit(node, k + 1)] else [];
    PendingUnfold(fs, stack, p);
    PendingUnfold(fs, s', p);
    PendingUnfold(fs, s'[..k + 1], p);
    assert s'[..k + 1][..k] == stack[..k];
    assert s'[..k + 1][k] == t';
    RestUnfold(fs, t, k, p);
    WalkFromUnfold(fs, c, k + 1, p);
    Chain(Pending(fs, stack, p), Rest(fs, t, k, p), WalkFrom(fs, c, k + 1, p), here,
          Rest(fs, node, k + 1, p), Rest(fs, t', k, p), Pending(fs, stack[..k], p),
          Pending(fs, s', p), Pending(fs, s'[..k + 1], p));
  }

  lemma Chain<T>(whole: seq<T>, top: seq<T>, first: seq<T>, here: seq<T>, a: seq<T>, b: seq<T>,
                 rest: seq<T>, whole': seq<T>, below: seq<T>)
    requires whole == top + rest && top == first + b && first == here + a
    requires below == b + rest && whole' == a + below
    ensures whole == here + whole'
  {
  }

  /** One push costs one step. */
  lemma PushSteps(fs: Fs, stack: seq<DirNode>, p: Params)
    requires ValidFs(fs) && StackOk(fs, stack) && |stack| > 0
    requires |stack[|stack| - 1].dirs| > 0 && p.maxdepth >= |stack|
    ensures StackOk(fs, Pushed(fs, stack, p))
    ensures StackSteps(fs, Pushed(fs, stack, p), p) < StackSteps(fs, stack, p)
  {
    PushedOk(fs, stack, p);
    var k := |stack| - 1;
    var t := stack[k];
    var m := |t.dirs| - 1;
    var c := PathJoin(t.root, t.dirs[m]);
    var s' := Pushed(fs, stack, p);
    var node := s'[k + 1];
    var t' := s'[k];
    assert s'[..k + 1][..k] == stack[..k];
    assert StackSteps(fs, s', p) == FrameSteps(fs, node, k + 1, p) + (FrameSteps(fs, t', k, p) + StackSteps(fs, stack[..k], p));
    assert StepsChildren(fs, t.root, t.dirs, k + 1, p)
        == Steps(fs, c, k + 1, p) + StepsChildren(fs, t.root, t'.dirs, k + 1, p);
  }

  /** A visit as the walk produces it: within the depth bounds and below `depth`, listing its own directory. */
  predicate Sound(v: Visit, fs: Fs, depth: int, p: Params)
    requires ValidFs(fs)
  {
    && p.mindepth <= v.depth <= p.maxdepth
    && depth <= v.depth
    && v.node == ProcessDir(fs, v.node.root, p)
  }

  /** Every visit of a walk is within `[mindepth, maxdepth]`, no shallower than its start, and shows its directory's filtered listing. */
  lemma {:induction false} WalkFromSound(fs: Fs, root: string, depth: int, p: Params)
    requires ValidFs(fs)
    ensures forall v :: v in WalkFrom(fs, root, depth, p) ==> Sound(v, fs, depth, p)
    decreases Below(fs, root), 1, 0
  {
    var node := ProcessDir(fs, root, p);
    if depth + 1 <= p.maxdepth {
      WalkChildrenSound(fs, root, node.dirs, depth + 1, p);
    }
  }

  lemma {:induction false} WalkChildrenSound(fs: Fs, root: string, ds: seq<string>, depth: int, p: Params)
    requires ValidFs(fs) && AllChildren(fs, root, ds)
    ensures forall v :: v in WalkChildren(fs, root, ds, depth, p) ==> Sound(v, fs, depth, p)
    decreases Below(fs, root), 0, |ds|
  {
    if |ds| > 0 {
      var c := PathJoin(root, ds[|ds| - 1]);
      BelowShrinks(fs, root, c);
      WalkFromSound(fs, c, depth, p);
      WalkChildrenSound(fs, root, ds[..|ds| - 1], depth, p);
    }
  }

  /**
   * What `nrwalk` yields respects `mindepth` and `maxdepth`, and never
   * shows a name its filter drops: every listed entry is really in that
   * directory, of the right kind, and passes its filter.
   */
  lemma NrWalkYields(fs: Fs, top: string, p: Params, v: Visit, n: string)
    requires ValidFs(fs) && v in WalkFrom(fs, top, 0, p)
    ensures 0 <= v.depth && p.mindepth <= v.depth <= p.maxdepth
    ensures n in v.node.dirs ==> !p.dirFilter(n, v.node.root) && IsDir(fs, PathJoin(v.node.root, n))
    ensures n in v.node.nondirs ==> !p.fileFilter(n, v.node.root) && !IsDir(fs, PathJoin(v.node.root, n))
    ensures n in v.node.dirs || n in v.node.nondirs ==> IsDir(fs, v.node.root) && n in fs.dirs[v.node.root]
  {
    WalkFromSound(fs, top, 0, p);
    ProcessDirEntries(fs, v.node.root, p, n);
  }
}
