/**
 * The Python `str` operations the workspace generator relies on, over `string` (= `seq<char>`):
 * `str.split(sep)` and its inverse `sep.join`, whitespace `str.split()`, `str.find`,
 * `startswith`/`endswith`, POSIX `os.path.dirname`, and the code-point ordering `sorted` uses.
 */
module Strings {

  /** `os.sep` on a POSIX host. */
  const Sep: char := '/'

  /** `a` is a prefix of `b`: `str.startswith` on strings, an ancestor on segment paths. */
  predicate IsPrefix<T(==)>(a: seq<T>, b: seq<T>) {
    |a| <= |b| && b[..|a|] == a
  }

  predicate EndsWith(s: string, suffix: string) {
    |suffix| <= |s| && s[|s| - |suffix|..] == suffix
  }

  // ---------------------------------------------------------------------------
  // `s.split(sep)` and `sep.join(parts)`
  // ---------------------------------------------------------------------------

  /** `sep.join(parts)` for a non-empty list (what `str.split` always returns). */
  function Join(parts: seq<string>, sep: char): string
    requires |parts| >= 1
  {
    if |parts| == 1 then parts[0] else parts[0] + [sep] + Join(parts[1..], sep)
  }

  /**
   * `s.split(sep)`: the maximal runs between separators, empty runs included,
   * so there is always at least one part and joining them gives `s` back.
   */
  function Split(s: string, sep: char): (parts: seq<string>)
    ensures |parts| >= 1
    ensures forall i :: 0 <= i < |parts| ==> sep !in parts[i]
    ensures Join(parts, sep) == s
  {
    if s == [] then [""]
    else
      var rest := Split(s[1..], sep);
      if s[0] == sep then
        [""] + rest
      else
        assert |rest| > 1 ==> Join(rest, sep) == rest[0] + [sep] + Join(rest[1..], sep);
        [[s[0]] + rest[0]] + rest[1..]
  }

  lemma {:induction false} SplitWithoutSep(a: string, sep: char)
    requires sep !in a
    ensures Split(a, sep) == [a]
  {
    if a != [] {
      SplitWithoutSep(a[1..], sep);
    }
  }

  lemma {:induction false} SplitAtSep(a: string, sep: char, rest: string)
    requires sep !in a
    ensures Split(a + [sep] + rest, sep) == [a] + Split(rest, sep)
  {
    if a == [] {
      assert (a + [sep] + rest)[1..] == rest;
    } else {
      assert (a + [sep] + rest)[1..] == a[1..] + [sep] + rest;
      assert (a + [sep] + rest)[0] == a[0];
      assert [a[0]] + a[1..] == a;
      SplitAtSep(a[1..], sep, rest);
    }
  }

  /** A string that starts with the separator splits into `''` first. */
  lemma SplitLeadingSep(s: string, sep: char)
    requires s != [] && s[0] == sep
    ensures Split(s, sep)[0] == ""
  {
  }

  /** Splitting undoes joining, for parts that hold no separator. */
  lemma {:induction false} SplitOfJoin(parts: seq<string>, sep: char)
    requires |parts| >= 1
    requires forall i :: 0 <= i < |parts| ==> sep !in parts[i]
    ensures Split(Join(parts, sep), sep) == parts
  {
    if |parts| == 1 {
      SplitWithoutSep(parts[0], sep);
    } else {
      SplitOfJoin(parts[1..], sep);
      SplitAtSep(parts[0], sep, Join(parts[1..], sep));
    }
  }

  // ---------------------------------------------------------------------------
  // `s.split()` with no argument: runs of non-whitespace
  // ---------------------------------------------------------------------------

  /** The characters for which Python's `str.isspace` holds (the ones `str.split()` splits on). */
  const Whitespace: set<char> := {
    ' ', '\t', '\n', '\U{0B}', '\U{0C}', '\r', '\U{1C}', '\U{1D}', '\U{1E}', '\U{1F}',
    '\U{85}', '\U{A0}', '\U{1680}',
    '\U{2000}', '\U{2001}', '\U{2002}', '\U{2003}', '\U{2004}', '\U{2005}', '\U{2006}',
    '\U{2007}', '\U{2008}', '\U{2009}', '\U{200A}',
    '\U{2028}', '\U{2029}', '\U{202F}', '\U{205F}', '\U{3000}'
  }

  predicate IsSpace(c: char) {
    c in Whitespace
  }

  predicate IsWord(w: string) {
    w != [] && forall i :: 0 <= i < |w| ==> !IsSpace(w[i])
  }

  /** The characters of `s` that are not whitespace, in order. */
  function NonSpace(s: string): string {
    if s == [] then []
    else (if IsSpace(s[0]) then [] else [s[0]]) + NonSpace(s[1..])
  }

  function Concat(ws: seq<string>): string {
    if ws == [] then [] else ws[0] + Concat(ws[1..])
  }

  /** `" ".join(ws)`, also for an empty list. */
  function Unwords(ws: seq<string>): string {
    if ws == [] then []
    else if |ws| == 1 then ws[0]
    else ws[0] + " " + Unwords(ws[1..])
  }

  /** Number of leading whitespace characters. */
  function SpaceLen(s: string): (n: nat)
    ensures n <= |s|
    ensures forall i :: 0 <= i < n ==> IsSpace(s[i])
    ensures n < |s| ==> !IsSpace(s[n])
  {
    if s == [] || !IsSpace(s[0]) then 0 else 1 + SpaceLen(s[1..])
  }

  /** Number of leading non-whitespace characters. */
  function WordLen(s: string): (n: nat)
    ensures n <= |s|
    ensures forall i :: 0 <= i < n ==> !IsSpace(s[i])
    ensures n < |s| ==> IsSpace(s[n])
  {
    if s == [] || IsSpace(s[0]) then 0 else 1 + WordLen(s[1..])
  }

  lemma {:induction false} NonSpaceAppend(a: string, b: string)
    ensures NonSpace(a + b) == NonSpace(a) + NonSpace(b)
  {
    if a == [] {
      assert a + b == b;
    } else {
      assert (a + b)[1..] == a[1..] + b;
      assert (a + b)[0] == a[0];
      NonSpaceAppend(a[1..], b);
    }
  }

  lemma {:induction false} NonSpaceOfSpaces(s: string)
    requires forall i :: 0 <= i < |s| ==> IsSpace(s[i])
    ensures NonSpace(s) == []
  {
    if s != [] {
      NonSpaceOfSpaces(s[1..]);
    }
  }

  lemma {:induction false} NonSpaceOfWord(s: string)
    requires forall i :: 0 <= i < |s| ==> !IsSpace(s[i])
    ensures NonSpace(s) == s
  {
    if s != [] {
      NonSpaceOfWord(s[1..]);
    }
  }

  /**
   * `s.split()`: the whitespace-free words of `s`, none empty, which together hold
   * exactly the non-whitespace characters of `s` in order.
   */
  function Words(s: string): (ws: seq<string>)
    ensures forall i :: 0 <= i < |ws| ==> IsWord(ws[i])
    ensures Concat(ws) == NonSpace(s)
    decreases |s|, 1
  {
    var k := SpaceLen(s);
    NonSpaceSplitsAtWord(s, k, 0);
    assert s[k..k] == [];
    WordsTrimmed(s[k..])
  }

  /** The words of a string that does not start with whitespace. */
  function WordsTrimmed(s: string): (ws: seq<string>)
    requires s == [] || !IsSpace(s[0])
    ensures forall i :: 0 <= i < |ws| ==> IsWord(ws[i])
    ensures Concat(ws) == NonSpace(s)
    decreases |s|, 0
  {
    if s == [] then []
    else
      var n := WordLen(s);
      NonSpaceSplitsAtWord(s, 0, n);
      assert s[0..n] == s[..n];
      [s[..n]] + Words(s[n..])
  }

  lemma {:induction false} NonSpaceSplitsAtWord(s: string, k: nat, n: nat)
    requires k + n <= |s|
    requires forall i :: 0 <= i < k ==> IsSpace(s[i])
    requires forall i :: k <= i < k + n ==> !IsSpace(s[i])
    ensures NonSpace(s) == s[k..k + n] + NonSpace(s[k + n..])
  {
    var x, w, y := s[..k], s[k..k + n], s[k + n..];
    assert s == x + w + y;
    assert forall i :: 0 <= i < |x| ==> IsSpace(x[i]) by {
      forall i | 0 <= i < |x| ensures IsSpace(x[i]) { assert x[i] == s[i]; }
    }
    assert forall i :: 0 <= i < |w| ==> !IsSpace(w[i]) by {
      forall i | 0 <= i < |w| ensures !IsSpace(w[i]) { assert w[i] == s[k + i]; }
    }
    NonSpaceOfSpaces(x);
    NonSpaceOfWord(w);
    NonSpaceAppend(x + w, y);
    NonSpaceAppend(x, w);
  }

  lemma WordsSkipsLeadingSpace(c: char, s: string)
    requires IsSpace(c)
    ensures Words([c] + s) == Words(s)
  {
    var t := [c] + s;
    assert t[0] == c && t[1..] == s;
    var k := SpaceLen(s);
    assert SpaceLen(t) == k + 1;
    assert t[k + 1..] == s[k..];
  }

  lemma WordsOfWordThen(w: string, rest: string)
    requires IsWord(w)
    requires rest == [] || IsSpace(rest[0])
    ensures Words(w + rest) == [w] + Words(rest)
  {
    var s := w + rest;
    assert SpaceLen(s) == 0;
    assert s[0..] == s;
    WordLenOfWord(w, rest);
    assert s[..|w|] == w;
    assert s[|w|..] == rest;
  }

  lemma {:induction false} WordLenOfWord(w: string, rest: string)
    requires forall i :: 0 <= i < |w| ==> !IsSpace(w[i])
    requires rest == [] || IsSpace(rest[0])
    ensures WordLen(w + rest) == |w|
  {
    if w != [] {
      assert (w + rest)[1..] == w[1..] + rest;
      WordLenOfWord(w[1..], rest);
    } else {
      assert w + rest == rest;
    }
  }

  /** `" ".join(ws).split() == ws` for whitespace-free, non-empty words. */
  lemma {:induction false} WordsOfUnwords(ws: seq<string>)
    requires forall i :: 0 <= i < |ws| ==> IsWord(ws[i])
    ensures Words(Unwords(ws)) == ws
  {
    if ws == [] {
    } else if |ws| == 1 {
      WordsOfWordThen(ws[0], []);
      assert ws[0] + [] == ws[0];
      assert Words([]) == [];
    } else {
      WordsOfUnwords(ws[1..]);
      assert ws[0] + " " + Unwords(ws[1..]) == ws[0] + ([' '] + Unwords(ws[1..]));
      WordsOfWordThen(ws[0], [' '] + Unwords(ws[1..]));
      WordsSkipsLeadingSpace(' ', Unwords(ws[1..]));
    }
  }

  // ---------------------------------------------------------------------------
  // `s.find(sub)`
  // ---------------------------------------------------------------------------

  predicate Occurs(s: string, sub: string, i: int) {
    0 <= i && i + |sub| <= |s| && s[i..i + |sub|] == sub
  }

  predicate Contains(s: string, sub: string) {
    exists i :: 0 <= i <= |s| && Occurs(s, sub, i)
  }

  function FindFrom(s: string, sub: string, from: nat): (r: int)
    ensures r == -1 || (from <= r && Occurs(s, sub, r))
    ensures forall j :: from <= j && (r == -1 || j < r) ==> !Occurs(s, sub, j)
    decreases |s| - from
  {
    if from + |sub| > |s| then -1
    else if s[from..from + |sub|] == sub then from
    else FindFrom(s, sub, from + 1)
  }

  /** `s.find(sub)`: the first index where `sub` occurs, or -1 exactly when it does not occur. */
  function Find(s: string, sub: string): (r: int)
    ensures r == -1 <==> !Contains(s, sub)
    ensures r != -1 ==> Occurs(s, sub, r) && forall j :: 0 <= j < r ==> !Occurs(s, sub, j)
  {
    FindFrom(s, sub, 0)
  }

  // ---------------------------------------------------------------------------
  // POSIX `os.path.dirname`
  // ---------------------------------------------------------------------------

  function LastIndexOf(s: string, c: char): (r: int)
    ensures -1 <= r < |s|
    ensures r >= 0 ==> s[r] == c
    ensures forall j :: r < j < |s| ==> s[j] != c
  {
    if s == [] then -1
    else if s[|s| - 1] == c then |s| - 1
    else LastIndexOf(s[..|s| - 1], c)
  }

  /** `s.rstrip(c)` for a single character. */
  function RStrip(s: string, c: char): (r: string)
    ensures |r| <= |s| && r == s[..|r|]
    ensures r == [] || r[|r| - 1] != c
    ensures forall j :: |r| <= j < |s| ==> s[j] == c
  {
    if s != [] && s[|s| - 1] == c then RStrip(s[..|s| - 1], c) else s
  }

  /**
   * `posixpath.dirname`: everything up to the last separator, with trailing
   * separators removed unless the head consists of separators only.
   */
  function Dirname(p: string): (r: string)
    ensures |r| <= |p| && r == p[..|r|]
    ensures Sep !in p ==> r == []
  {
    var i := LastIndexOf(p, Sep) + 1;
    var head := p[..i];
    if head != [] && exists j :: 0 <= j < |head| && head[j] != Sep then RStrip(head, Sep) else head
  }

  /** The directory of `d/b` is `d`, for a file name `b` and a directory `d` without trailing separator. */
  lemma DirnameOfChild(d: string, b: string)
    requires d != [] && d[|d| - 1] != Sep
    requires Sep !in b
    ensures Dirname(d + [Sep] + b) == d
  {
    var p := d + [Sep] + b;
    var i := LastIndexOf(p, Sep);
    assert p[|d|] == Sep;
    assert i == |d|;
    var head := p[..i + 1];
    assert head == d + [Sep];
    assert head[|d| - 1] != Sep;
    assert RStrip(head, Sep) == d;
  }

  // ---------------------------------------------------------------------------
  // Ordering of `str` values (code point by code point, a proper prefix first)
  // ---------------------------------------------------------------------------

  predicate Less(a: string, b: string)
    decreases |a|
  {
    if a == [] then b != []
    else b != [] && (a[0] < b[0] || (a[0] == b[0] && Less(a[1..], b[1..])))
  }

  lemma {:induction false} LessIrreflexive(a: string)
    ensures !Less(a, a)
  {
    if a != [] {
      LessIrreflexive(a[1..]);
    }
  }

  lemma {:induction false} LessTransitive(a: string, b: string, c: string)
    requires Less(a, b) && Less(b, c)
    ensures Less(a, c)
  {
    if a != [] && a[0] == b[0] && b[0] == c[0] {
      LessTransitive(a[1..], b[1..], c[1..]);
    }
  }

  lemma {:induction false} LessTotal(a: string, b: string)
    requires a != b
    ensures Less(a, b) || Less(b, a)
  {
    if a != [] && b != [] && a[0] == b[0] {
      assert a == [a[0]] + a[1..] && b == [b[0]] + b[1..];
      LessTotal(a[1..], b[1..]);
    }
  }

  predicate StrictlySorted(xs: seq<string>) {
    forall i, j :: 0 <= i < j < |xs| ==> Less(xs[i], xs[j])
  }

  /** A strictly sorted list holds no element twice. */
  lemma StrictlySortedDistinct(xs: seq<string>)
    requires StrictlySorted(xs)
    ensures forall i, j :: 0 <= i < j < |xs| ==> xs[i] != xs[j]
  {
    forall i, j | 0 <= i < j < |xs| ensures xs[i] != xs[j] {
      LessIrreflexive(xs[i]);
    }
  }

  /** Insert a new element into a strictly sorted list, keeping it strictly sorted. */
  function InsertSorted(xs: seq<string>, x: string): (r: seq<string>)
    requires StrictlySorted(xs) && x !in xs
    ensures StrictlySorted(r)
    ensures forall y :: y in r <==> y in xs || y == x
  {
    if xs == [] then [x]
    else if Less(x, xs[0]) then
      assert forall j :: 0 < j < |xs| ==> Less(x, xs[j]) by {
        forall j | 0 < j < |xs| ensures Less(x, xs[j]) {
          LessTransitive(x, xs[0], xs[j]);
        }
      }
      [x] + xs
    else
      LessTotal(x, xs[0]);
      assert StrictlySorted(xs[1..]);
      var tail := InsertSorted(xs[1..], x);
      assert forall y :: y in tail ==> Less(xs[0], y) by {
        forall y | y in tail ensures Less(xs[0], y) {
          if y != x {
            var j :| 0 <= j < |xs[1..]| && xs[1..][j] == y;
            assert y == xs[j + 1];
          }
        }
      }
      [xs[0]] + tail
  }

  /** `sorted(s)` for a set of strings: its elements, each once, in ascending order. */
  method SortedList(s: set<string>) returns (r: seq<string>)
    ensures StrictlySorted(r)
    ensures forall x :: x in r <==> x in s
  {
    r := [];
    var rest := s;
    while rest != {}
      invariant StrictlySorted(r)
      invariant rest <= s
      invariant forall x :: x in r <==> x in s && x !in rest
      decreases rest
    {
      var x :| x in rest;
      r := InsertSorted(r, x);
      rest := rest - {x};
    }
  }
}
