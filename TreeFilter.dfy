/**
 * `find_first_node_with_two_children` and `filt_tree` (tools/targets/vsc.py:38-52):
 * cut the prefix tree down to its first branching dict.
 *
 * A dict "has two children" when it holds at least two keys. The search visits the
 * dicts below the top level in pre-order: each key's subtree is checked before the
 * subtrees below it, and keys in insertion order.
 */
module TreeFilter {
  import opened Outcomes
  import opened Strings
  import opened PathTree

  /** The nodes strictly below `p`. Recursion from a node to a child shrinks this set. */
  ghost function Desc(t: Table, p: Path): set<Path> {
    set q | q in t && |p| < |q| && q[..|p|] == p
  }

  lemma SubsetCard(a: set<Path>, b: set<Path>)
    requires a <= b
    ensures |a| <= |b|
  {
    assert b == a + (b - a);
  }

  lemma ChildHasFewerDesc(t: Table, p: Path, k: string)
    requires WellFormed(t) && p in t && k in t[p]
    ensures |Desc(t, Child(p, k))| < |Desc(t, p)|
  {
    var c := Child(p, k);
    assert c in Desc(t, p);
    forall q | q in Desc(t, c) ensures q in Desc(t, p) - {c} {
      assert q[..|p|] == q[..|c|][..|p|];
    }
    SubsetCard(Desc(t, c), Desc(t, p) - {c});
  }

  /** A dict with at least two keys (`len(subtree) >= 2`). */
  ghost predicate Branching(t: Table, q: Path)
    requires q in t
  {
    |t[q]| >= 2
  }

  /**
   * The nodes below `p` reached through its keys `t[p][i..]`, in pre-order: a key's
   * node, then everything below it, then the next key.
   */
  ghost function PreOrder(t: Table, p: Path, i: nat): (r: seq<Path>)
    requires WellFormed(t) && p in t && i <= |t[p]|
    ensures forall j :: 0 <= j < |r| ==> r[j] in Desc(t, p)
    decreases |Desc(t, p)|, |t[p]| - i
  {
    if i == |t[p]| then []
    else
      var c := Child(p, t[p][i]);
      ChildHasFewerDesc(t, p, t[p][i]);
      var below := PreOrder(t, c, 0);
      assert forall j :: 0 <= j < |below| ==> below[j] in Desc(t, p) by {
        forall j | 0 <= j < |below| ensures below[j] in Desc(t, p) {
          assert below[j][..|p|] == below[j][..|c|][..|p|];
        }
      }
      [c] + below + PreOrder(t, p, i + 1)
  }

  /** Every node below `p` whose first key below `p` is one of `t[p][i..]` is listed. */
  lemma {:induction false} PreOrderCovers(t: Table, p: Path, i: nat, q: Path, m: nat)
    requires WellFormed(t) && p in t && i <= m < |t[p]|
    requires q in Desc(t, p) && q[|p|] == t[p][m]
    ensures q in PreOrder(t, p, i)
    decreases |Desc(t, p)|, |t[p]| - i
  {
    var c := Child(p, t[p][i]);
    ChildHasFewerDesc(t, p, t[p][i]);
    if m > i {
      PreOrderCovers(t, p, i + 1, q, m);
    } else if q != c {
      assert q[..|c|] == c by {
        assert q[..|p|] == p;
      }
      assert q in Desc(t, c);
      PrefixOfNode(t, q, |c| + 1);
      assert q[..|c| + 1] == Child(c, q[|c|]);
      var m' :| 0 <= m' < |t[c]| && t[c][m'] == q[|c|];
      PreOrderCovers(t, c, 0, q, m');
    }
  }

  /** The pre-order from the top lists exactly the dicts below the top level. */
  lemma PreOrderIsAllNodes(t: Table, q: Path)
    requires WellFormed(t)
    ensures q in PreOrder(t, [], 0) <==> q in t && q != []
  {
    if q in t && q != [] {
      PrefixOfNode(t, q, 1);
      assert q[..1] == Child([], q[0]);
      var m :| 0 <= m < |t[[]]| && t[[]][m] == q[0];
      PreOrderCovers(t, [], 0, q, m);
    }
  }

  /** The first branching dict in the list `s`: the reference meaning of "first". */
  ghost function FirstIn(t: Table, s: seq<Path>): (r: Option<Path>)
    requires forall j :: 0 <= j < |s| ==> s[j] in t
    ensures r.None? <==> forall j :: 0 <= j < |s| ==> !Branching(t, s[j])
    ensures r.Some? ==> r.value in s && Branching(t, r.value)
  {
    if s == [] then None
    else if Branching(t, s[0]) then Some(s[0])
    else FirstIn(t, s[1..])
  }

  /** `FirstIn` returns an element that no branching element precedes. */
  lemma {:induction false} FirstInIsFirst(t: Table, s: seq<Path>)
    requires forall j :: 0 <= j < |s| ==> s[j] in t
    ensures FirstIn(t, s).Some? ==>
      exists j :: 0 <= j < |s| && s[j] == FirstIn(t, s).value && forall m :: 0 <= m < j ==> !Branching(t, s[m])
  {
    if s != [] && !Branching(t, s[0]) {
      FirstInIsFirst(t, s[1..]);
      if FirstIn(t, s[1..]).Some? {
        var j :| 0 <= j < |s[1..]| && s[1..][j] == FirstIn(t, s[1..]).value
          && forall m :: 0 <= m < j ==> !Branching(t, s[1..][m]);
        assert s[j + 1] == FirstIn(t, s).value;
        assert forall m :: 0 <= m < j + 1 ==> !Branching(t, s[m]) by {
          forall m | 0 <= m < j + 1 ensures !Branching(t, s[m]) {
            if m > 0 {
              assert s[m] == s[1..][m - 1];
            }
          }
        }
      }
    }
  }

  lemma {:induction false} FirstInAppend(t: Table, a: seq<Path>, b: seq<Path>)
    requires forall j :: 0 <= j < |a| ==> a[j] in t
    requires forall j :: 0 <= j < |b| ==> b[j] in t
    ensures FirstIn(t, a + b) == if FirstIn(t, a).Some? then FirstIn(t, a) else FirstIn(t, b)
  {
    if a == [] {
      assert a + b == b;
    } else {
      assert (a + b)[0] == a[0];
      assert (a + b)[1..] == a[1..] + b;
      FirstInAppend(t, a[1..], b);
    }
  }

  /**
   * `find_first_node_with_two_children`, as evidently intended: the loop over the keys
   * goes on to the next key when the search below a key found nothing. The result is
   * the path of the dict found; the source returns its last key and the dict.
   */
  function SearchFrom(t: Table, p: Path, i: nat): (r: Option<Path>)
    requires WellFormed(t) && p in t && i <= |t[p]|
    ensures r == FirstIn(t, PreOrder(t, p, i))
    decreases |Desc(t, p)|, |t[p]| - i
  {
    if i == |t[p]| then None
    else
      var c := Child(p, t[p][i]);
      ChildHasFewerDesc(t, p, t[p][i]);
      FirstInAppend(t, [c] + PreOrder(t, c, 0), PreOrder(t, p, i + 1));
      FirstInAppend(t, [c], PreOrder(t, c, 0));
      if |t[c]| >= 2 then Some(c)
      else
        match SearchFrom(t, c, 0)
        case Some(q) => Some(q)
        case None => SearchFrom(t, p, i + 1)
  }

  /** The search looks at a dict before the dicts below it: every dict on the way down to
      the one found has fewer than two keys. */
  lemma {:induction false} FoundBelowNarrowDicts(t: Table, p: Path, i: nat)
    requires WellFormed(t) && p in t && i <= |t[p]|
    requires SearchFrom(t, p, i).Some?
    ensures forall j :: |p| < j < |SearchFrom(t, p, i).value| ==>
              SearchFrom(t, p, i).value[..j] in t && |t[SearchFrom(t, p, i).value[..j]]| < 2
    decreases |Desc(t, p)|, |t[p]| - i
  {
    var q := SearchFrom(t, p, i).value;
    var c := Child(p, t[p][i]);
    ChildHasFewerDesc(t, p, t[p][i]);
    if |t[c]| < 2 {
      if SearchFrom(t, c, 0).Some? {
        FoundBelowNarrowDicts(t, c, 0);
        assert q in Desc(t, c);
        forall j | |p| < j < |q| ensures q[..j] in t && |t[q[..j]]| < 2 {
          if j == |c| {
            assert q[..j] == c;
          }
        }
      } else {
        FoundBelowNarrowDicts(t, p, i + 1);
      }
    }
  }

  /**
   * The search from the top-level dict: the first dict below the top, in pre-order,
   * that has at least two keys; `None` exactly when no dict below the top has two.
   */
  function FindFirst(t: Table): (r: Option<Path>)
    requires WellFormed(t)
    ensures r.Some? ==> r.value in t && r.value != [] && |t[r.value]| >= 2
    ensures r.None? <==> forall q :: q in t && q != [] ==> |t[q]| < 2
    ensures r.Some? ==> exists j :: 0 <= j < |PreOrder(t, [], 0)| && PreOrder(t, [], 0)[j] == r.value
                                   && forall m :: 0 <= m < j ==> |t[PreOrder(t, [], 0)[m]]| < 2
    ensures r.Some? ==> forall j :: 0 < j < |r.value| ==> r.value[..j] in t && |t[r.value[..j]]| < 2
  {
    var r := SearchFrom(t, [], 0);
    assert r.Some? ==> forall j :: 0 < j < |r.value| ==> r.value[..j] in t && |t[r.value[..j]]| < 2 by {
      if r.Some? {
        FoundBelowNarrowDicts(t, [], 0);
      }
    }
    FirstInIsFirst(t, PreOrder(t, [], 0));
    assert r.Some? ==> r.value != [] by {
      if r.Some? {
        PreOrderIsAllNodes(t, r.value);
      }
    }
    assert r.None? <==> forall q :: q in t && q != [] ==> |t[q]| < 2 by {
      forall q | q in t && q != [] ensures q in PreOrder(t, [], 0) {
        PreOrderIsAllNodes(t, q);
      }
    }
    r
  }

  /**
   * `find_first_node_with_two_children` AS WRITTEN. Its `if result:` tests a tuple,
   * and `(None, None)` is a non-empty tuple, so the loop returns whatever the search
   * below its first key returned: the keys after the first are never looked at.
   */
  function FindAsWritten(t: Table, p: Path): (r: Option<Path>)
    requires WellFormed(t) && p in t
    ensures r.Some? ==> r.value in t && |t[r.value]| >= 2 && |r.value| > |p|
    decreases |Desc(t, p)|
  {
    if t[p] == [] then None
    else
      var c := Child(p, t[p][0]);
      ChildHasFewerDesc(t, p, t[p][0]);
      if |t[c]| >= 2 then Some(c) else FindAsWritten(t, c)
  }

  /** Below a dict with at most one key, following only first keys loses nothing. */
  lemma {:induction false} AsWrittenAgreesBelow(t: Table, p: Path)
    requires WellFormed(t) && p in t && |t[p]| <= 1
    ensures FindAsWritten(t, p) == SearchFrom(t, p, 0)
    decreases |Desc(t, p)|
  {
    if t[p] != [] {
      var c := Child(p, t[p][0]);
      ChildHasFewerDesc(t, p, t[p][0]);
      if |t[c]| < 2 {
        AsWrittenAgreesBelow(t, c);
      }
    }
  }

  /** When the top level has at most one key, as for absolute paths, the code as written
      finds the same dict as the intended search. */
  lemma AsWrittenAgreesOnSingleTop(t: Table)
    requires WellFormed(t) && |t[[]]| <= 1
    ensures FindAsWritten(t, []) == FindFirst(t)
  {
    AsWrittenAgreesBelow(t, []);
  }

  /** For absolute paths, which all start at the root directory, the code as written finds
      the same dict as the intended search. */
  lemma AsWrittenAgreesOnAbsolutePaths(paths: seq<string>)
    requires forall i :: 0 <= i < |paths| ==> paths[i] != [] && paths[i][0] == Sep
    ensures FindAsWritten(Built(SplitAll(paths)), []) == FindFirst(Built(SplitAll(paths)))
  {
    AbsolutePathsShareTop(paths);
    AsWrittenAgreesOnSingleTop(Built(SplitAll(paths)));
  }

  /** `{'a': {}, 'b': {'c': {}, 'd': {}}}` */
  const MissedSibling: Table := map[
    [] := ["a", "b"],
    ["a"] := [],
    ["b"] := ["c", "d"],
    ["b", "c"] := [],
    ["b", "d"] := []
  ]

  lemma MissedSiblingChildren()
    ensures forall p, k :: p in MissedSibling && k in MissedSibling[p] ==> Child(p, k) in MissedSibling
  {
    var t := MissedSibling;
    forall p, k | p in t && k in t[p] ensures Child(p, k) in t {
      if p == [] {
        assert k == "a" || k == "b";
        assert Child(p, k) == [k];
      } else {
        assert p == ["b"] && (k == "c" || k == "d");
        assert Child(p, k) == ["b", k];
      }
    }
  }

  lemma MissedSiblingParents()
    ensures forall p, k :: Child(p, k) in MissedSibling ==> p in MissedSibling && k in MissedSibling[p]
  {
    var t := MissedSibling;
    forall p, k | Child(p, k) in t ensures p in t && k in t[p] {
      var c := Child(p, k);
      assert p == c[..|c| - 1] && k == c[|c| - 1];
      if |c| == 1 {
        assert c == ["a"] || c == ["b"];
        assert p == [] && (k == "a" || k == "b");
      } else {
        assert c == ["b", "c"] || c == ["b", "d"];
        assert p == ["b"] && (k == "c" || k == "d");
      }
    }
  }

  lemma MissedSiblingWellFormed()
    ensures WellFormed(MissedSibling)
  {
    MissedSiblingChildren();
    MissedSiblingParents();
  }

  /** On `{'a': {}, 'b': {'c': {}, 'd': {}}}` the code as written returns `(None, None)`,
      although `'b'` has two keys. */
  lemma AsWrittenMissesLaterSibling()
    ensures WellFormed(MissedSibling)
    ensures FindAsWritten(MissedSibling, []) == None
    ensures FindFirst(MissedSibling) == Some(["b"])
  {
    var t := MissedSibling;
    MissedSiblingWellFormed();
    assert Child([], "a") == ["a"] && Child([], "b") == ["b"];
    assert FindAsWritten(t, ["a"]) == None;
    assert SearchFrom(t, ["a"], 0) == None;
    assert SearchFrom(t, [], 1) == Some(["b"]);
    assert SearchFrom(t, [], 0) == Some(["b"]);
  }

  // ---------------------------------------------------------------------------
  // filt_tree
  // ---------------------------------------------------------------------------

  /** The node reached from `p` by following the keys `s`. */
  function Below(p: Path, s: Path): Path {
    p + s
  }

  /** `r` is `{key: subtree}` with `key` the last key of `q` and `subtree` the dict at `q`. */
  ghost predicate Grafted(t: Table, q: Path, r: Table)
    requires q != []
  {
    var key := q[|q| - 1];
    && [] in r && r[[]] == [key]
    && (forall s :: Below([key], s) in r <==> Below(q, s) in t)
    && (forall s :: Below([key], s) in r ==> r[Below([key], s)] == t[Below(q, s)])
  }

  lemma GraftKeyInjective(q: Path, p1: Path, p2: Path)
    requires q != [] && IsPrefix(q, p1) && IsPrefix(q, p2)
    requires p1[|q| - 1..] == p2[|q| - 1..]
    ensures p1 == p2
  {
    var n := |q| - 1;
    assert p1[..n] == q[..n] == p2[..n];
    assert p1 == p1[..n] + p1[n..];
    assert p2 == p2[..n] + p2[n..];
  }

  /** The nodes of `t` at or below `q`, with the keys before `q`'s last one dropped. */
  function Regrafted(t: Table, q: Path): (r: Table)
    requires WellFormed(t) && q in t && q != []
    ensures forall p :: p in t && IsPrefix(q, p) ==> p[|q| - 1..] in r && r[p[|q| - 1..]] == t[p]
    ensures forall p' :: p' in r ==> exists p :: p in t && IsPrefix(q, p) && p[|q| - 1..] == p'
  {
    var n := |q| - 1;
    assert forall p1, p2 :: p1 in t && IsPrefix(q, p1) && p2 in t && IsPrefix(q, p2) && p1[n..] == p2[n..] ==> p1 == p2 by {
      forall p1, p2 | p1 in t && IsPrefix(q, p1) && p2 in t && IsPrefix(q, p2) && p1[n..] == p2[n..] ensures p1 == p2 {
        GraftKeyInjective(q, p1, p2);
      }
    }
    map p | p in t && IsPrefix(q, p) :: p[n..] := t[p]
  }

  /** `{key: subtree}`: the dict at `q`, held under its own key as the only top-level key. */
  function Graft(t: Table, q: Path): (r: Table)
    requires WellFormed(t) && q in t && q != []
    ensures [] in r && r[[]] == [q[|q| - 1]]
    ensures forall p :: p in t && IsPrefix(q, p) ==> p[|q| - 1..] in r && r[p[|q| - 1..]] == t[p]
  {
    assert forall p :: p in t && IsPrefix(q, p) ==> p[|q| - 1..] != [];
    Regrafted(t, q)[[] := [q[|q| - 1]]]
  }

  lemma GraftLookup(t: Table, q: Path, p: Path)
    requires WellFormed(t) && q in t && q != []
    requires p in t && IsPrefix(q, p)
    ensures p[|q| - 1..] in Graft(t, q) && Graft(t, q)[p[|q| - 1..]] == t[p]
  {
    assert p[|q| - 1..] != [];
  }

  /** Re-rooting at `q` commutes with following a key. */
  lemma RerootChild(q: Path, p: Path, k: string)
    requires q != [] && IsPrefix(q, p)
    ensures IsPrefix(q, Child(p, k)) && Child(p, k)[|q| - 1..] == Child(p[|q| - 1..], k)
  {
  }

  /** A re-rooted path that follows a key comes from a node whose parent is re-rooted too. */
  lemma RerootParent(q: Path, p: Path, p': Path, k: string)
    requires q != [] && IsPrefix(q, p) && p[|q| - 1..] == Child(p', k)
    ensures p == q ==> p' == [] && k == q[|q| - 1]
    ensures p != q ==> |p| > |q| && IsPrefix(q, p[..|p| - 1]) && p[..|p| - 1][|q| - 1..] == p'
                       && p == Child(p[..|p| - 1], k)
  {
    var n := |q| - 1;
    if p != q {
      assert p[..|p|] == p && p[..|q|] == q;
      var pp := p[..|p| - 1];
      assert p == Child(pp, p[|p| - 1]);
      assert p[n..][..|p| - 1 - n] == pp[n..];
    }
  }

  lemma GraftChildren(t: Table, q: Path)
    requires WellFormed(t) && q in t && q != []
    ensures forall p', k :: p' in Graft(t, q) && k in Graft(t, q)[p'] ==> Child(p', k) in Graft(t, q)
  {
    var r := Graft(t, q);
    var n := |q| - 1;
    forall p', k | p' in r && k in r[p'] ensures Child(p', k) in r {
      if p' == [] {
        assert q[n..] == [q[n]] == Child(p', k);
        GraftLookup(t, q, q);
      } else {
        var p :| p in t && IsPrefix(q, p) && p[n..] == p';
        GraftLookup(t, q, p);
        RerootChild(q, p, k);
        GraftLookup(t, q, Child(p, k));
      }
    }
  }

  lemma GraftParents(t: Table, q: Path)
    requires WellFormed(t) && q in t && q != []
    ensures forall p', k :: Child(p', k) in Graft(t, q) ==> p' in Graft(t, q) && k in Graft(t, q)[p']
  {
    var r := Graft(t, q);
    var n := |q| - 1;
    forall p', k | Child(p', k) in r ensures p' in r && k in r[p'] {
      var p :| p in t && IsPrefix(q, p) && p[n..] == Child(p', k);
      RerootParent(q, p, p', k);
      if p != q {
        GraftLookup(t, q, p[..|p| - 1]);
      }
    }
  }

  lemma GraftWellFormed(t: Table, q: Path)
    requires WellFormed(t) && q in t && q != []
    ensures WellFormed(Graft(t, q))
  {
    GraftChildren(t, q);
    GraftParents(t, q);
    var r := Graft(t, q);
    forall p' | p' in r && p' != [] ensures exists p :: p in t && r[p'] == t[p] {
      var p :| p in t && IsPrefix(q, p) && p[|q| - 1..] == p';
      GraftLookup(t, q, p);
    }
  }

  /** Following `s` from `q` and re-rooting gives `s` below `q`'s last key, and only
      that path re-roots to it. */
  lemma RerootBelow(q: Path, s: Path, p: Path)
    requires q != []
    ensures IsPrefix(q, Below(q, s)) && Below(q, s)[|q| - 1..] == Below([q[|q| - 1]], s)
    ensures IsPrefix(q, p) && p[|q| - 1..] == Below([q[|q| - 1]], s) ==> p == Below(q, s)
  {
    var n := |q| - 1;
    if IsPrefix(q, p) && p[n..] == Below([q[n]], s) {
      assert p == p[..n] + p[n..];
      assert q[..n] == p[..n];
    }
  }

  /** The graft holds the subtree at `q` under `q`'s last key. */
  lemma GraftHoldsSubtree(t: Table, q: Path)
    requires WellFormed(t) && q in t && q != []
    ensures Grafted(t, q, Graft(t, q))
  {
    var r := Graft(t, q);
    var n := |q| - 1;
    var key := q[n];
    forall s ensures Below([key], s) in r <==> Below(q, s) in t {
      if Below([key], s) in r {
        var p :| p in t && IsPrefix(q, p) && p[n..] == Below([key], s);
        RerootBelow(q, s, p);
      }
      RerootBelow(q, s, q);
    }
    forall s | Below([key], s) in r ensures r[Below([key], s)] == t[Below(q, s)] {
      RerootBelow(q, s, q);
      GraftLookup(t, q, Below(q, s));
    }
  }

  /**
   * `filt_tree` once the search has returned `found`: the dict found, under its own key,
   * and `{}` when nothing was found or when its key is the empty string (a falsy key).
   */
  function FilterOn(t: Table, found: Option<Path>): (r: Table)
    requires WellFormed(t) && (found.Some? ==> found.value in t && found.value != [])
    ensures WellFormed(r) && |r[[]]| <= 1
    ensures r[[]] == [] <==> found.None? || found.value[|found.value| - 1] == ""
    ensures r[[]] == [] ==> r == Empty
    ensures r[[]] != [] ==> Grafted(t, found.value, r)
  {
    match found
    case None => Empty
    case Some(q) =>
      if q[|q| - 1] == "" then Empty
      else
        GraftWellFormed(t, q);
        GraftHoldsSubtree(t, q);
        Graft(t, q)
  }

  /** `filt_tree` over the corrected search: the first branching dict in pre-order. */
  function Filter(t: Table): (r: Table)
    requires WellFormed(t)
    ensures WellFormed(r) && |r[[]]| <= 1
    ensures r[[]] == [] <==> FindFirst(t).None? || FindFirst(t).value[|FindFirst(t).value| - 1] == ""
    ensures r[[]] == [] ==> r == Empty
    ensures r[[]] != [] ==> Grafted(t, FindFirst(t).value, r)
  {
    FilterOn(t, FindFirst(t))
  }

  /** `filt_tree` AS WRITTEN: over the search that follows only first keys. */
  function FilterAsWritten(t: Table): (r: Table)
    requires WellFormed(t)
    ensures WellFormed(r) && |r[[]]| <= 1
    ensures r[[]] == [] <==> FindAsWritten(t, []).None? || FindAsWritten(t, []).value[|FindAsWritten(t, []).value| - 1] == ""
    ensures r[[]] == [] ==> r == Empty
    ensures r[[]] != [] ==> Grafted(t, FindAsWritten(t, []).value, r)
  {
    FilterOn(t, FindAsWritten(t, []))
  }

  /** On a tree built from absolute paths, `filt_tree` as written gives the corrected result. */
  lemma FilterAgreesOnAbsolutePaths(paths: seq<string>)
    requires forall i :: 0 <= i < |paths| ==> paths[i] != [] && paths[i][0] == Sep
    ensures FilterAsWritten(Built(SplitAll(paths))) == Filter(Built(SplitAll(paths)))
  {
    AsWrittenAgreesOnAbsolutePaths(paths);
  }

  /** On `{'a': {}, 'b': {'c': {}, 'd': {}}}`, `filt_tree` as written gives `{}`, and the
      corrected one gives `{'b': {'c': {}, 'd': {}}}`. */
  lemma FilterAsWrittenMissesLaterSibling()
    ensures WellFormed(MissedSibling)
    ensures FilterAsWritten(MissedSibling) == Empty
    ensures Filter(MissedSibling) != Empty && Grafted(MissedSibling, ["b"], Filter(MissedSibling))
  {
    AsWrittenMissesLaterSibling();
    assert Filter(MissedSibling)[[]] == [Child([], "b")[0]];
  }

  /** When absolute paths part ways right below the root directory, the dict found has the
      empty key of the root directory, and the filtered tree is `{}`. */
  lemma BranchAtRootDirectoryEmpties(t: Table)
    requires WellFormed(t) && t[[]] == [""] && [""] in t && |t[[""]]| >= 2
    ensures FindFirst(t) == Some([""])
    ensures Filter(t) == Empty
  {
    assert Child([], "") == [""];
  }
}
