/**
 * The exclusion walk of `command_json_to_workspace` (tools/targets/vsc.py:180-193).
 *
 * `os.walk` visits the directory hierarchy under the root path top-down. A visited
 * directory outside the filtered tree is excluded and its subdirectories are not
 * visited. For a directory inside the tree, each subdirectory outside the tree is
 * excluded, and the walk goes on into every subdirectory.
 */
module Exclusion {
  import opened Outcomes
  import opened Strings
  import opened PathTree
  import opened Membership

  /** A directory on disk: its name and its subdirectories, in the order `os.walk` lists them. */
  datatype Dir = Dir(name: string, subdirs: seq<Dir>)

  /** A directory still to be visited, with its path. */
  datatype Visit = Visit(dir: Dir, path: Path)

  /** The paths of `d` and of every directory below it, when `d` sits at `p`. */
  function Paths(d: Dir, p: Path): (r: set<Path>)
    ensures forall q :: q in r ==> |p| <= |q| && q[..|p|] == p
    ensures p in r
    decreases d, 1
  {
    {p} + PathsBelow(d.subdirs, p)
  }

  /** The paths of the directories `ds` inside the directory at `p`, and of everything below them. */
  function PathsBelow(ds: seq<Dir>, p: Path): (r: set<Path>)
    ensures forall q :: q in r ==> |p| < |q| && q[..|p|] == p
    decreases ds, 0
  {
    if ds == [] then {}
    else
      var c := Child(p, ds[0].name);
      var here := Paths(ds[0], c);
      assert forall q :: q in here ==> q[..|p|] == p by {
        forall q | q in here ensures q[..|p|] == p {
          assert q[..|p|] == q[..|c|][..|p|];
        }
      }
      here + PathsBelow(ds[1..], p)
  }

  /**
   * What the walk excludes below the directory `d` at `p`: `p` itself when it is outside
   * the tree, and otherwise what it excludes below each subdirectory.
   */
  function Excluded(t: Table, d: Dir, p: Path): set<Path>
    requires [] in t
    decreases d, 1
  {
    if !Member(t, p) then {p} else ExcludedBelow(t, d.subdirs, p)
  }

  function ExcludedBelow(t: Table, ds: seq<Dir>, p: Path): set<Path>
    requires [] in t
    decreases ds, 0
  {
    if ds == [] then {} else Excluded(t, ds[0], Child(p, ds[0].name)) + ExcludedBelow(t, ds[1..], p)
  }

  /** `q` is outside the tree, and every prefix of it at least `from` segments long is inside. */
  ghost predicate Topmost(t: Table, from: nat, q: Path)
    requires [] in t
  {
    !Member(t, q) && forall j :: from <= j < |q| ==> Member(t, q[..j])
  }

  /** The walk excludes exactly the topmost directories outside the tree. */
  lemma {:induction false} ExcludedAreTopmost(t: Table, d: Dir, p: Path, q: Path)
    requires [] in t
    ensures q in Excluded(t, d, p) <==> q in Paths(d, p) && Topmost(t, |p|, q)
    decreases d, 1
  {
    if Member(t, p) {
      ExcludedBelowAreTopmost(t, d.subdirs, p, q);
    }
    if q in Paths(d, p) && q != p {
      assert q[..|p|] == p;
    }
  }

  lemma {:induction false} ExcludedBelowAreTopmost(t: Table, ds: seq<Dir>, p: Path, q: Path)
    requires [] in t
    ensures q in ExcludedBelow(t, ds, p) <==> q in PathsBelow(ds, p) && Topmost(t, |p| + 1, q)
    decreases ds, 0
  {
    if ds != [] {
      ExcludedAreTopmost(t, ds[0], Child(p, ds[0].name), q);
      ExcludedBelowAreTopmost(t, ds[1..], p, q);
    }
  }

  /** A prefix of a path of the hierarchy that still reaches its top is a path of it. */
  lemma {:induction false} PathsPrefixClosed(d: Dir, p: Path, q: Path, k: nat)
    requires q in Paths(d, p) && |p| <= k <= |q|
    ensures q[..k] in Paths(d, p)
    decreases d
  {
    if k == |p| {
      assert q[..k] == p;
    } else if q != p {
      var i :| 0 <= i < |d.subdirs| && q in Paths(d.subdirs[i], Child(p, d.subdirs[i].name)) by {
        PathsBelowMember(d.subdirs, p, q);
      }
      var c := Child(p, d.subdirs[i].name);
      PathsPrefixClosed(d.subdirs[i], c, q, k);
      PathsBelowHas(d.subdirs, p, i, q[..k]);
    }
  }

  lemma {:induction false} PathsBelowMember(ds: seq<Dir>, p: Path, q: Path)
    requires q in PathsBelow(ds, p)
    ensures exists i :: 0 <= i < |ds| && q in Paths(ds[i], Child(p, ds[i].name))
    decreases ds
  {
    if q !in Paths(ds[0], Child(p, ds[0].name)) {
      PathsBelowMember(ds[1..], p, q);
      var i :| 0 <= i < |ds[1..]| && q in Paths(ds[1..][i], Child(p, ds[1..][i].name));
      assert ds[1..][i] == ds[i + 1];
    }
  }

  lemma {:induction false} PathsBelowHas(ds: seq<Dir>, p: Path, i: nat, q: Path)
    requires i < |ds| && q in Paths(ds[i], Child(p, ds[i].name))
    ensures q in PathsBelow(ds, p)
    decreases i
  {
    if i > 0 {
      assert ds[1..][i - 1] == ds[i];
      PathsBelowHas(ds[1..], p, i - 1, q);
    }
  }

  /** No excluded folder lies inside another one. */
  lemma ExcludedAntichain(t: Table, d: Dir, p: Path, e1: Path, e2: Path)
    requires [] in t
    requires e1 in Excluded(t, d, p) && e2 in Excluded(t, d, p)
    requires IsPrefix(e1, e2)
    ensures e1 == e2
  {
    ExcludedAreTopmost(t, d, p, e1);
    ExcludedAreTopmost(t, d, p, e2);
    assert e2[..|e1|] == e1;
  }

  /** Some prefix of `q` at least `from` segments long is a topmost path outside the tree. */
  lemma {:induction false} TopmostPrefix(t: Table, from: nat, q: Path)
    requires [] in t && !Member(t, q) && from <= |q|
    ensures exists k :: from <= k <= |q| && Topmost(t, from, q[..k])
    decreases |q|
  {
    if forall j :: from <= j < |q| ==> Member(t, q[..j]) {
      assert q[..|q|] == q;
      assert Topmost(t, from, q[..|q|]);
    } else {
      var j :| from <= j < |q| && !Member(t, q[..j]);
      TopmostPrefix(t, from, q[..j]);
      var k :| from <= k <= j && Topmost(t, from, q[..j][..k]);
      assert q[..j][..k] == q[..k];
    }
  }

  /** A prefix and the rest make up the whole path. */
  lemma PrefixAndRest(a: Path, b: Path)
    requires IsPrefix(a, b)
    ensures b == a + b[|a|..]
  {
  }

  /** A directory outside the tree lies in an excluded folder. */
  lemma OutsideIsHidden(t: Table, d: Dir, p: Path, q: Path)
    requires WellFormed(t) && q in Paths(d, p) && !Member(t, q)
    ensures exists e :: e in Excluded(t, d, p) && IsPrefix(e, q)
  {
    TopmostPrefix(t, |p|, q);
    var k :| |p| <= k <= |q| && Topmost(t, |p|, q[..k]);
    PathsPrefixClosed(d, p, q, k);
    ExcludedAreTopmost(t, d, p, q[..k]);
    assert IsPrefix(q[..k], q);
  }

  /** A directory inside the tree lies in no excluded folder. */
  lemma InsideIsVisible(t: Table, d: Dir, p: Path, q: Path, e: Path)
    requires WellFormed(t) && InTree(p, t).Ok? && Member(t, q)
    requires e in Excluded(t, d, p)
    ensures !IsPrefix(e, q)
  {
    if IsPrefix(e, q) {
      ExcludedAreTopmost(t, d, p, e);
      PrefixAndRest(p, e);
      LookupsBelowSucceed(t, p, e[|p|..]);
      PrefixAndRest(e, q);
      NonMemberExtensions(t, e, q[|e|..]);
    }
  }

  /**
   * The excluded folders hide exactly the directories outside the tree: a directory of
   * the hierarchy is outside the tree exactly when it lies in an excluded folder.
   */
  lemma HiddenIffOutside(t: Table, d: Dir, p: Path, q: Path)
    requires WellFormed(t) && InTree(p, t).Ok? && q in Paths(d, p)
    ensures !Member(t, q) <==> exists e :: e in Excluded(t, d, p) && IsPrefix(e, q)
  {
    if !Member(t, q) {
      OutsideIsHidden(t, d, p, q);
    } else {
      forall e | e in Excluded(t, d, p) ensures !IsPrefix(e, q) {
        InsideIsVisible(t, d, p, q, e);
      }
    }
  }

  /** The size of a hierarchy: its number of directories. */
  function Size(d: Dir): (n: nat)
    ensures n >= 1
    decreases d, 1
  {
    1 + SizeBelow(d.subdirs)
  }

  function SizeBelow(ds: seq<Dir>): nat
    decreases ds, 0
  {
    if ds == [] then 0 else Size(ds[0]) + SizeBelow(ds[1..])
  }

  /** The directories still to be visited. */
  function Pending(t: Table, stack: seq<Visit>): set<Path>
    requires [] in t
  {
    if stack == [] then {} else Excluded(t, stack[0].dir, stack[0].path) + Pending(t, stack[1..])
  }

  function StackSize(stack: seq<Visit>): nat {
    if stack == [] then 0 else Size(stack[0].dir) + StackSize(stack[1..])
  }

  /** The subdirectories of the directory at `p`, with their paths (`os.path.join(root, dir)`). */
  function Visits(ds: seq<Dir>, p: Path): (r: seq<Visit>)
    ensures |r| == |ds|
    ensures forall i :: 0 <= i < |ds| ==> r[i] == Visit(ds[i], Child(p, ds[i].name))
  {
    if ds == [] then [] else [Visit(ds[0], Child(p, ds[0].name))] + Visits(ds[1..], p)
  }

  lemma {:induction false} PendingConcat(t: Table, a: seq<Visit>, b: seq<Visit>)
    requires [] in t
    ensures Pending(t, a + b) == Pending(t, a) + Pending(t, b)
  {
    if a == [] {
      assert a + b == b;
    } else {
      assert (a + b)[1..] == a[1..] + b;
      PendingConcat(t, a[1..], b);
    }
  }

  lemma {:induction false} StackSizeConcat(a: seq<Visit>, b: seq<Visit>)
    ensures StackSize(a + b) == StackSize(a) + StackSize(b)
  {
    if a == [] {
      assert a + b == b;
    } else {
      assert (a + b)[1..] == a[1..] + b;
      StackSizeConcat(a[1..], b);
    }
  }

  lemma {:induction false} PendingVisits(t: Table, ds: seq<Dir>, p: Path)
    requires [] in t
    ensures Pending(t, Visits(ds, p)) == ExcludedBelow(t, ds, p)
    ensures StackSize(Visits(ds, p)) == SizeBelow(ds)
  {
    if ds != [] {
      PendingVisits(t, ds[1..], p);
    }
  }

  /** A subdirectory outside the tree is excluded. */
  lemma {:induction false} NonMemberChildExcluded(t: Table, ds: seq<Dir>, p: Path, j: nat)
    requires [] in t && j < |ds| && !Member(t, Child(p, ds[j].name))
    ensures Child(p, ds[j].name) in ExcludedBelow(t, ds, p)
    decreases j
  {
    if j > 0 {
      assert ds[1..][j - 1] == ds[j];
      NonMemberChildExcluded(t, ds[1..], p, j - 1);
    }
  }

  /** What the walk from the root produces: a lookup error at the root propagates. */
  function Walk(t: Table, root: Dir, rootPath: Path): (r: Result<set<Path>>)
    requires [] in t
    ensures r.Err? <==> InTree(rootPath, t).Err?
    ensures r.Err? ==> r.error == InTree(rootPath, t).error
    ensures r.Ok? ==> forall q :: q in r.value <==> q in Paths(root, rootPath) && Topmost(t, |rootPath|, q)
  {
    assert forall q :: q in Excluded(t, root, rootPath) <==> q in Paths(root, rootPath) && Topmost(t, |rootPath|, q) by {
      forall q ensures q in Excluded(t, root, rootPath) <==> q in Paths(root, rootPath) && Topmost(t, |rootPath|, q) {
        ExcludedAreTopmost(t, root, rootPath, q);
      }
    }
    match InTree(rootPath, t)
    case Err(e) => Err(e)
    case Ok(_) => Ok(Excluded(t, root, rootPath))
  }

  /** A walk from a directory whose path lacks the filtered tree's root key raises
      `ValueError` at its first lookup; an empty filtered tree raises `IndexError`. */
  lemma WalkRootLookupErrors(t: Table, root: Dir, rootPath: Path)
    requires [] in t
    ensures t[[]] == [] ==> Walk(t, root, rootPath) == Err(IndexError)
    ensures t[[]] != [] && RootKey(t) !in rootPath ==> Walk(t, root, rootPath) == Err(ValueError)
    ensures t[[]] != [] && RootKey(t) in rootPath ==> Walk(t, root, rootPath).Ok?
  {
  }

  /**
   * The `os.walk` loop: a stack of directories to visit, taken top-down, the
   * subdirectories of a visited directory put in front in their listed order.
   */
  method ExcludeFolders(t: Table, root: Dir, rootPath: Path) returns (r: Result<set<Path>>)
    requires WellFormed(t)
    ensures r == Walk(t, root, rootPath)
  {
    var first := PartsInTree(rootPath, t);
    if first.Err? {
      return Err(first.error);
    }
    var exclude: set<Path> := {};
    var stack := [Visit(root, rootPath)];
    while stack != []
      invariant exclude + Pending(t, stack) == Excluded(t, root, rootPath)
      decreases StackSize(stack)
    {
      var v := stack[0];
      stack := stack[1..];
      var inTree := PartsInTree(v.path, t);
      if inTree != Ok(true) {
        exclude := exclude + {v.path};
        continue;
      }
      var ds := v.dir.subdirs;
      ghost var before := exclude;
      var j := 0;
      while j < |ds|
        invariant 0 <= j <= |ds|
        invariant before <= exclude <= before + ExcludedBelow(t, ds, v.path)
      {
        var dirPath := Child(v.path, ds[j].name);
        var childInTree := PartsInTree(dirPath, t);
        if childInTree != Ok(true) {
          NonMemberChildExcluded(t, ds, v.path, j);
          exclude := exclude + {dirPath};
        }
        j := j + 1;
      }
      PendingVisits(t, ds, v.path);
      PendingConcat(t, Visits(ds, v.path), stack);
      StackSizeConcat(Visits(ds, v.path), stack);
      stack := Visits(ds, v.path) + stack;
    }
    return Ok(exclude);
  }
}
