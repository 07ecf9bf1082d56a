/**
 * `is_path_in_tree` (tools/targets/vsc.py:113-126): is a directory path inside the
 * filtered prefix tree?
 *
 * The path is split at the separator. The walk starts at the first occurrence of the
 * tree's first top-level key and follows the remaining segments from the top dict.
 * A missing key (a `KeyError`) means "not in the tree". An empty tree raises
 * `IndexError`. A path without the root key raises `ValueError`, because
 * `parts.index` is called outside the `try`.
 */
module Membership {
  import opened Outcomes
  import opened Strings
  import opened PathTree

  /** `list.index`: the first position of `x` in `parts`, or `None` where Python raises `ValueError`. */
  function IndexOf(parts: Path, x: string): (r: Option<nat>)
    ensures r.None? <==> x !in parts
    ensures r.Some? ==> r.value < |parts| && parts[r.value] == x && forall j :: 0 <= j < r.value ==> parts[j] != x
  {
    if parts == [] then None
    else if parts[0] == x then Some(0)
    else
      match IndexOf(parts[1..], x)
      case None => None
      case Some(r) => Some(r + 1)
  }

  /** Cutting off segments after the first occurrence does not move it. */
  lemma IndexOfPrefix(parts: Path, x: string, j: nat)
    requires IndexOf(parts, x).Some? && IndexOf(parts, x).value < j <= |parts|
    ensures IndexOf(parts[..j], x) == IndexOf(parts, x)
  {
    var r := IndexOf(parts, x).value;
    assert parts[..j][r] == x;
    var r' := IndexOf(parts[..j], x).value;
    assert parts[r'] == x;
  }

  /** Appending segments does not move the first occurrence. */
  lemma IndexOfAppend(parts: Path, ext: Path, x: string)
    requires x in parts
    ensures IndexOf(parts + ext, x) == IndexOf(parts, x)
  {
    var r := IndexOf(parts, x).value;
    assert (parts + ext)[r] == x;
    var r' := IndexOf(parts + ext, x).value;
    assert r' <= r;
    assert parts[r'] == x;
  }

  /** The first top-level key (`list(tree.keys())[0]`). */
  function RootKey(t: Table): (r: string)
    requires [] in t && t[[]] != []
    ensures r in t[[]] && t[[]] == [r] + t[[]][1..]
  {
    t[[]][0]
  }

  /**
   * What `is_path_in_tree` answers for the segments `parts`: `IndexError` for an empty
   * tree, `ValueError` when the root key is not a segment, and otherwise whether the
   * segments from the root key's first occurrence on name a dict of the tree.
   */
  function InTree(parts: Path, t: Table): (r: Result<bool>)
    requires [] in t
    ensures r == Err(IndexError) <==> t[[]] == []
    ensures t[[]] != [] ==> (r == Err(ValueError) <==> t[[]][0] !in parts)
  {
    if t[[]] == [] then Err(IndexError)
    else
      match IndexOf(parts, RootKey(t))
      case None => Err(ValueError)
      case Some(start) => Ok(parts[start..] in t)
  }

  /** The segment path is a member of the tree. */
  predicate Member(t: Table, parts: Path)
    requires [] in t
  {
    InTree(parts, t) == Ok(true)
  }

  /** The lookup loop over the segments of `parts`. A missing key stops it with `Ok(false)`. */
  method PartsInTree(parts: Path, t: Table) returns (r: Result<bool>)
    requires WellFormed(t)
    ensures r == InTree(parts, t)
  {
    if t[[]] == [] {
      return Err(IndexError);
    }
    var rootKey := t[[]][0];
    var found := IndexOf(parts, rootKey);
    if found.None? {
      return Err(ValueError);
    }
    var start := found.value;
    var current: Path := [];
    var i := start;
    while i < |parts|
      invariant start <= i <= |parts|
      invariant current == parts[start..i] && current in t
    {
      SliceSnoc(parts, start, i);
      if parts[i] !in t[current] {
        PathThroughNode(t, parts[start..], i - start);
        return Ok(false);
      }
      current := Child(current, parts[i]);
      i := i + 1;
    }
    assert parts[start..i] == parts[start..];
    InTreeAt(parts, t, start);
    return Ok(true);
  }

  /** `is_path_in_tree`: split the path at the separator, then look the segments up. */
  method IsPathInTree(path: string, t: Table) returns (r: Result<bool>)
    requires WellFormed(t)
    ensures r == InTree(Split(path, Sep), t)
  {
    r := PartsInTree(Split(path, Sep), t);
  }

  /** Every prefix of a member that still reaches past the root key's first occurrence
      is a member. */
  lemma MemberPrefixes(t: Table, parts: Path, j: nat)
    requires WellFormed(t) && Member(t, parts)
    requires IndexOf(parts, RootKey(t)).value < j <= |parts|
    ensures Member(t, parts[..j])
  {
    var start := IndexOf(parts, RootKey(t)).value;
    IndexOfPrefix(parts, RootKey(t), j);
    PrefixOfNode(t, parts[start..], j - start);
    DropTake(parts, start, j);
    InTreeAt(parts, t, start);
    InTreeAt(parts[..j], t, start);
  }

  /** Once a path is outside the tree, so is everything below it. */
  lemma NonMemberExtensions(t: Table, parts: Path, ext: Path)
    requires WellFormed(t) && InTree(parts, t) == Ok(false)
    ensures InTree(parts + ext, t) == Ok(false)
  {
    var start := IndexOf(parts, RootKey(t)).value;
    IndexOfAppend(parts, ext, RootKey(t));
    if |ext| > 0 {
      PathThroughNode(t, (parts + ext)[start..], |parts| - start);
      assert (parts + ext)[start..][..|parts| - start] == parts[start..];
    } else {
      assert parts + ext == parts;
    }
  }

  /** Once the root key is found at `start`, the answer is whether `parts[start..]` is a dict. */
  lemma InTreeAt(parts: Path, t: Table, start: nat)
    requires [] in t && t[[]] != [] && IndexOf(parts, RootKey(t)) == Some(start)
    ensures InTree(parts, t) == Ok(parts[start..] in t)
  {
  }

  /** Below a member, a subdirectory is a member exactly when its name is a key of the
      member's dict. */
  lemma MemberChild(t: Table, parts: Path, name: string)
    requires WellFormed(t) && Member(t, parts)
    ensures Member(t, Child(parts, name)) <==> name in t[parts[IndexOf(parts, RootKey(t)).value..]]
  {
    var start := IndexOf(parts, RootKey(t)).value;
    var node := parts[start..];
    var c := Child(parts, name);
    IndexOfAppend(parts, [name], RootKey(t));
    DropChild(parts, name, start);
    InTreeAt(parts, t, start);
    InTreeAt(c, t, start);
    PathThroughNode(t, Child(node, name), |node|);
    assert Child(node, name)[..|node|] == node;
  }

  /** Below a path whose lookup raises nothing, no lookup raises: the root key stays in. */
  lemma LookupsBelowSucceed(t: Table, parts: Path, ext: Path)
    requires [] in t && InTree(parts, t).Ok?
    ensures InTree(parts + ext, t).Ok?
  {
    IndexOfAppend(parts, ext, RootKey(t));
  }
}
