/**
 * The prefix tree of path segments built by `add_path_to_tree` and `build_tree`
 * (tools/targets/vsc.py:55-78).
 *
 * The source keeps the tree as nested dicts `{segment: subtree}`. Every dict
 * reachable from the top is identified here by the keys that lead to it (its
 * `Path`), and the tree is the table from each such path to that dict's own keys,
 * in insertion order, which is the order Python iterates a dict in. The top-level
 * dict is the node `[]`. Following key `k` from node `p` leads to node `p + [k]`,
 * so a "chain of nested keys" is simply a path that is in the table.
 */
module PathTree {
  import opened Strings

  type Path = seq<string>

  /** Node path -> keys of that dict, in insertion order. */
  type Table = map<Path, seq<string>>

  /** `{}`: only the top-level dict, with no keys. */
  const Empty: Table := map[[] := []]

  /** The node reached by following key `k` from node `p`. */
  function Child(p: Path, k: string): Path {
    p + [k]
  }

  /** The shape every nested dict has: the children a dict lists exist, every
      non-top dict is listed by its parent, and no dict lists a key twice. */
  ghost predicate WellFormed(t: Table) {
    && [] in t
    && (forall p, k :: p in t && k in t[p] ==> Child(p, k) in t)
    && (forall p, k :: Child(p, k) in t ==> p in t && k in t[p])
    && (forall p, i, j :: p in t && 0 <= i < j < |t[p]| ==> t[p][i] != t[p][j])
  }

  /** The prefixes of `parts` longer than `i` segments. */
  function PrefixesFrom(parts: Path, i: nat): set<Path> {
    set j | i < j <= |parts| :: parts[..j]
  }

  /** Every non-empty prefix of a path. */
  function Prefixes(parts: Path): set<Path> {
    PrefixesFrom(parts, 0)
  }

  lemma InPrefixes(parts: Path, q: Path)
    ensures q in Prefixes(parts) <==> q != [] && IsPrefix(q, parts)
  {
    if q != [] && IsPrefix(q, parts) {
      assert q == parts[..|q|];
    }
  }

  lemma PrefixesFromStep(parts: Path, i: nat)
    requires i < |parts|
    ensures PrefixesFrom(parts, i) == {parts[..i + 1]} + PrefixesFrom(parts, i + 1)
  {
  }

  /** In a well-formed tree every prefix of a node is a node: a node is reached by a chain of keys. */
  lemma {:induction false} PrefixOfNode(t: Table, q: Path, j: nat)
    requires WellFormed(t) && q in t && j <= |q|
    ensures q[..j] in t
    decreases |q| - j
  {
    if j < |q| {
      PrefixOfNode(t, q, j + 1);
      assert q[..j + 1] == Child(q[..j], q[j]);
    } else {
      assert q[..j] == q;
    }
  }

  /** A node's dict lists the key leading to each node below it. */
  lemma PathThroughNode(t: Table, q: Path, j: nat)
    requires WellFormed(t) && j < |q|
    ensures q in t ==> q[..j] in t && q[j] in t[q[..j]]
  {
    if q in t {
      PrefixOfNode(t, q, j + 1);
      assert q[..j + 1] == Child(q[..j], q[j]);
    }
  }

  /** Dropping the first `i` segments commutes with following a key. */
  lemma DropChild(p: Path, k: string, i: nat)
    requires i <= |p|
    ensures Child(p, k)[i..] == Child(p[i..], k)
  {
  }

  /** Dropping the first `i` segments of the first `j` is taking `j - i` of the rest. */
  lemma DropTake(p: Path, i: nat, j: nat)
    requires i <= j <= |p|
    ensures p[..j][i..] == p[i..][..j - i]
  {
  }

  /** Extending a slice by one segment is following that segment's key. */
  lemma SliceSnoc(p: Path, i: nat, j: nat)
    requires i <= j < |p|
    ensures p[i..j + 1] == Child(p[i..j], p[j])
    ensures p[i..][..j - i] == p[i..j] && p[i..][j - i] == p[j]
  {
  }

  /** Step of `add_path_to_tree`: `if part not in current_level: current_level[part] = {}`. */
  function AddChild(t: Table, p: Path, k: string): (r: Table)
    requires WellFormed(t) && p in t
    ensures WellFormed(r)
    ensures Child(p, k) in r
    ensures k in t[p] ==> r == t
  {
    if k in t[p] then t
    else
      var c := Child(p, k);
      var r := t[p := t[p] + [k]][c := []];
      assert c !in t;
      assert forall q, x :: Child(q, x) in r ==> q in r && x in r[q] by {
        forall q, x | Child(q, x) in r ensures q in r && x in r[q] {
          if Child(q, x) == c {
            assert q == Child(q, x)[..|q|] == c[..|p|] == p;
          }
        }
      }
      r
  }

  /** Adding a key adds exactly its node and appends to its parent's keys only. */
  lemma AddChildEffect(t: Table, p: Path, k: string)
    requires WellFormed(t) && p in t
    ensures AddChild(t, p, k).Keys == t.Keys + {Child(p, k)}
    ensures forall q :: q in t ==> IsPrefix(t[q], AddChild(t, p, k)[q])
  {
  }

  /** One more segment of a path is following its key from the shorter prefix. */
  lemma TakeSnoc(p: Path, i: nat)
    requires i < |p|
    ensures p[..i + 1] == Child(p[..i], p[i])
  {
  }

  /** The loop of `add_path_to_tree` from segment `i` on, with `current_level` at `parts[..i]`. */
  function InsertFrom(t: Table, parts: Path, i: nat): (r: Table)
    requires WellFormed(t) && i <= |parts| && parts[..i] in t
    ensures WellFormed(r)
    decreases |parts| - i
  {
    if i == |parts| then t
    else
      TakeSnoc(parts, i);
      InsertFrom(AddChild(t, parts[..i], parts[i]), parts, i + 1)
  }

  /** The loop adds exactly the prefixes of `parts` it passes. */
  lemma {:induction false} InsertFromNodes(t: Table, parts: Path, i: nat)
    requires WellFormed(t) && i <= |parts| && parts[..i] in t
    ensures InsertFrom(t, parts, i).Keys == t.Keys + PrefixesFrom(parts, i)
    decreases |parts| - i
  {
    if i < |parts| {
      assert parts[..i + 1] == Child(parts[..i], parts[i]);
      AddChildEffect(t, parts[..i], parts[i]);
      InsertFromNodes(AddChild(t, parts[..i], parts[i]), parts, i + 1);
      PrefixesFromStep(parts, i);
    } else {
      assert PrefixesFrom(parts, i) == {};
    }
  }

  /** The loop only appends keys: every dict keeps its keys, in their order. */
  lemma {:induction false} InsertFromKeeps(t: Table, parts: Path, i: nat)
    requires WellFormed(t) && i <= |parts| && parts[..i] in t
    ensures forall q :: q in t ==> q in InsertFrom(t, parts, i) && IsPrefix(t[q], InsertFrom(t, parts, i)[q])
    decreases |parts| - i
  {
    if i < |parts| {
      assert parts[..i + 1] == Child(parts[..i], parts[i]);
      var t' := AddChild(t, parts[..i], parts[i]);
      AddChildEffect(t, parts[..i], parts[i]);
      InsertFromKeeps(t', parts, i + 1);
      var r := InsertFrom(t', parts, i + 1);
      forall q | q in t ensures q in r && IsPrefix(t[q], r[q]) {
        assert IsPrefix(t[q], t'[q]) && IsPrefix(t'[q], r[q]);
      }
    }
  }

  /** The tree after `add_path_to_tree(tree, path)`, for `parts = path.split(os.sep)`. */
  function InsertPath(t: Table, parts: Path): (r: Table)
    requires WellFormed(t)
    ensures WellFormed(r)
  {
    assert parts[..0] == [];
    InsertFrom(t, parts, 0)
  }

  /** After insertion the whole path is a chain of nested keys from the top level. */
  lemma InsertPathContains(t: Table, parts: Path)
    requires WellFormed(t)
    ensures parts in InsertPath(t, parts)
  {
    assert parts[..0] == [];
    assert parts[..|parts|] == parts;
    InsertFromNodes(t, parts, 0);
  }

  /** Insertion adds exactly the prefixes of the path as new dicts. */
  lemma InsertPathNodes(t: Table, parts: Path)
    requires WellFormed(t)
    ensures InsertPath(t, parts).Keys == t.Keys + Prefixes(parts)
  {
    assert parts[..0] == [];
    InsertFromNodes(t, parts, 0);
  }

  /** Keys already present are never removed or reordered, so earlier paths stay present. */
  lemma InsertPathKeeps(t: Table, parts: Path)
    requires WellFormed(t)
    ensures forall q :: q in t ==> q in InsertPath(t, parts) && IsPrefix(t[q], InsertPath(t, parts)[q])
  {
    assert parts[..0] == [];
    InsertFromKeeps(t, parts, 0);
  }

  lemma {:induction false} InsertFromPresent(t: Table, parts: Path, i: nat)
    requires WellFormed(t) && i <= |parts|
    requires forall j :: i <= j <= |parts| ==> parts[..j] in t
    ensures InsertFrom(t, parts, i) == t
    decreases |parts| - i
  {
    if i < |parts| {
      assert parts[..i + 1] == Child(parts[..i], parts[i]);
      assert AddChild(t, parts[..i], parts[i]) == t;
      InsertFromPresent(t, parts, i + 1);
    }
  }

  /** Inserting a path that is already a chain of keys changes nothing. */
  lemma InsertPresentPath(t: Table, parts: Path)
    requires WellFormed(t) && parts in t
    ensures InsertPath(t, parts) == t
  {
    forall j | 0 <= j <= |parts| ensures parts[..j] in t {
      PrefixOfNode(t, parts, j);
    }
    assert parts[..0] == [];
    InsertFromPresent(t, parts, 0);
  }

  /** Inserting the same path twice gives the same tree as inserting it once. */
  lemma InsertPathIdempotent(t: Table, parts: Path)
    requires WellFormed(t)
    ensures InsertPath(InsertPath(t, parts), parts) == InsertPath(t, parts)
  {
    InsertPathContains(t, parts);
    InsertPresentPath(InsertPath(t, parts), parts);
  }

  /** The segment lists `path.split(os.sep)` of the paths handed to `build_tree`. */
  function SplitAll(paths: seq<string>): (r: seq<Path>)
    ensures |r| == |paths|
    ensures forall i :: 0 <= i < |paths| ==> r[i] == Split(paths[i], Sep)
  {
    seq(|paths|, i requires 0 <= i < |paths| => Split(paths[i], Sep))
  }

  /** The tree after inserting the segment lists `ps` in order into `{}`. */
  function Built(ps: seq<Path>): (r: Table)
    ensures WellFormed(r)
  {
    if ps == [] then Empty
    else InsertPath(Built(ps[..|ps| - 1]), ps[|ps| - 1])
  }

  /** Building from one more path is inserting that path into what was built. */
  lemma BuiltStep(paths: seq<string>, i: nat)
    requires i < |paths|
    ensures Built(SplitAll(paths[..i + 1])) == InsertPath(Built(SplitAll(paths[..i])), Split(paths[i], Sep))
  {
    var ps := SplitAll(paths[..i + 1]);
    assert ps[..i] == SplitAll(paths[..i]);
    assert ps[i] == Split(paths[i], Sep);
  }

  /** Every inserted path ends up in the tree as a chain of keys, whatever was inserted after it. */
  lemma {:induction false} BuiltContainsEveryPath(ps: seq<Path>, i: nat)
    requires i < |ps|
    ensures ps[i] in Built(ps)
  {
    var n := |ps| - 1;
    var prev := Built(ps[..n]);
    if i < n {
      assert ps[..n][i] == ps[i];
      BuiltContainsEveryPath(ps[..n], i);
      InsertPathKeeps(prev, ps[n]);
    } else {
      InsertPathContains(prev, ps[n]);
    }
  }

  /** The nodes of the tree are exactly the top dict and the prefixes of the inserted paths. */
  lemma {:induction false} BuiltNodes(ps: seq<Path>, q: Path)
    ensures q in Built(ps) <==> q == [] || exists i :: 0 <= i < |ps| && IsPrefix(q, ps[i])
  {
    if ps != [] {
      var n := |ps| - 1;
      var prev := ps[..n];
      assert q in Built(ps) <==> q in Built(prev) || (q != [] && IsPrefix(q, ps[n])) by {
        InsertPathNodes(Built(prev), ps[n]);
        InPrefixes(ps[n], q);
      }
      assert q in Built(prev) <==> q == [] || exists i :: 0 <= i < n && IsPrefix(q, ps[i]) by {
        BuiltNodes(prev, q);
        forall i | 0 <= i < n ensures prev[i] == ps[i] { }
      }
    }
  }

  /** When every inserted path starts with the key `''` (an absolute path split on `os.sep`),
      the top level holds at most that one key. */
  lemma SharedFirstSegment(ps: seq<Path>)
    requires forall i :: 0 <= i < |ps| ==> ps[i] != [] && ps[i][0] == ""
    ensures |Built(ps)[[]]| <= 1
    ensures forall k :: k in Built(ps)[[]] ==> k == ""
  {
    var t := Built(ps);
    forall k | k in t[[]] ensures k == "" {
      assert Child([], k) == [k];
      BuiltNodes(ps, [k]);
      var i :| 0 <= i < |ps| && IsPrefix([k], ps[i]);
      assert ps[i][..1] == [k];
    }
    DistinctElements(t[[]]);
    var keys := set x | x in t[[]];
    assert keys == {} || keys == {""} by {
      if "" in keys {
        assert keys == {""};
      } else {
        assert keys == {};
      }
    }
  }

  /** A list with no element twice has as many elements as its set of elements. */
  lemma {:induction false} DistinctElements(s: seq<string>)
    requires forall i, j :: 0 <= i < j < |s| ==> s[i] != s[j]
    ensures |(set x | x in s)| == |s|
  {
    if s != [] {
      DistinctElements(s[1..]);
      assert (set x | x in s) == {s[0]} + (set x | x in s[1..]);
      assert s[0] !in s[1..];
    }
  }

  /** Absolute paths split on `os.sep` all start with the key `''`. */
  lemma AbsolutePathsShareTop(paths: seq<string>)
    requires forall i :: 0 <= i < |paths| ==> paths[i] != [] && paths[i][0] == Sep
    ensures |Built(SplitAll(paths))[[]]| <= 1
  {
    var ps := SplitAll(paths);
    forall i | 0 <= i < |ps| ensures ps[i] != [] && ps[i][0] == "" {
      SplitLeadingSep(paths[i], Sep);
    }
    SharedFirstSegment(ps);
  }

  /** The dict `build_tree` fills: the nested dicts, updated in place. */
  class DirTree {
    var nodes: Table

    ghost predicate Valid()
      reads this
    {
      WellFormed(nodes)
    }

    /** `tree = {}` */
    constructor ()
      ensures Valid() && nodes == Empty
    {
      nodes := Empty;
    }

    /**
     * `add_path_to_tree(tree, path)` with `parts = path.split(os.sep)`: walks a
     * `current_level` reference down the parts, creating each missing key.
     */
    method AddPath(parts: Path)
      requires Valid()
      modifies this
      ensures Valid()
      ensures nodes == InsertPath(old(nodes), parts)
    {
      var current: Path := [];
      var i := 0;
      assert parts[..0] == [];
      while i < |parts|
        invariant 0 <= i <= |parts|
        invariant current == parts[..i]
        invariant WellFormed(nodes) && current in nodes
        invariant InsertFrom(nodes, parts, i) == InsertPath(old(nodes), parts)
      {
        var part := parts[i];
        TakeSnoc(parts, i);
        assert InsertFrom(nodes, parts, i) == InsertFrom(AddChild(nodes, current, part), parts, i + 1);
        nodes := AddChild(nodes, current, part);
        current := Child(current, part);
        i := i + 1;
      }
    }
  }

  /**
   * `build_tree(paths)`: inserts every path, split on `os.sep`, into a fresh tree.
   * The paths are taken as already normalised by `os.path.normpath`.
   */
  method BuildTree(paths: seq<string>) returns (tree: DirTree)
    ensures fresh(tree) && tree.Valid()
    ensures tree.nodes == Built(SplitAll(paths))
  {
    tree := new DirTree();
    var i := 0;
    while i < |paths|
      invariant 0 <= i <= |paths|
      invariant tree.Valid() && tree.nodes == Built(SplitAll(paths[..i]))
    {
      BuiltStep(paths, i);
      tree.AddPath(Split(paths[i], Sep));
      i := i + 1;
    }
    assert paths[..|paths|] == paths;
  }
}
