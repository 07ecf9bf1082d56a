/**
 * `extract_source_dirs` (tools/targets/vsc.py:85-110): the directories of the C files
 * of a compilation database, together with the include directories their compile
 * commands name with `-I` or `/I`, sorted and without duplicates.
 */
module SourceDirs {
  import opened Outcomes
  import opened Strings

  /** One compilation-database entry: `file`, and the optional `command` and `arguments`. */
  datatype Entry = Entry(file: string, command: Option<string>, arguments: Option<seq<string>>)

  /**
   * `entry.get('command') or entry.get('arguments')`: a non-empty command string split at
   * whitespace, otherwise the argument list. Iterating over a missing one (`None`)
   * raises `TypeError`.
   */
  function Tokens(e: Entry): (r: Result<seq<string>>)
    ensures r.Err? <==> (e.command.None? || e.command.value == "") && e.arguments.None?
    ensures r.Err? ==> r.error == TypeError
    ensures r.Ok? && e.command.Some? && e.command.value != "" ==> Concat(r.value) == NonSpace(e.command.value)
    ensures r.Ok? && e.command.Some? && e.command.value != "" ==> (forall i :: 0 <= i < |r.value| ==> IsWord(r.value[i]))
    ensures e.command.Some? && e.command.value != "" ==> r == Ok(Words(e.command.value))
    ensures (e.command.None? || e.command.value == "") && e.arguments.Some? ==> r == Ok(e.arguments.value)
  {
    if e.command.Some? && e.command.value != "" then Ok(Words(e.command.value))
    else if e.arguments.Some? then Ok(e.arguments.value)
    else Err(TypeError)
  }

  /** A token naming an include directory: it starts with `-I` or `/I`. */
  predicate IncludeFlag(part: string) {
    IsPrefix("-I", part) || IsPrefix("/I", part)
  }

  /** The include flag at `i` has its directory attached, or a token after it. */
  predicate HasOperand(parts: seq<string>, i: nat)
    requires i < |parts|
  {
    |parts[i]| > 2 || i + 1 < |parts|
  }

  /** `part[2:] if len(part) > 2 else parts[i + 1]` */
  function Operand(parts: seq<string>, i: nat): string
    requires i < |parts| && HasOperand(parts, i)
  {
    if |parts[i]| > 2 then parts[i][2..] else parts[i + 1]
  }

  /** The operands of the include flags among the first `j` tokens. */
  function OperandsBefore(parts: seq<string>, j: nat): set<string>
    requires j <= |parts|
  {
    set i | 0 <= i < j && IncludeFlag(parts[i]) && HasOperand(parts, i) :: Operand(parts, i)
  }

  /** The last token is an include flag with nothing attached and nothing after it. */
  predicate BareFlagAtEnd(parts: seq<string>) {
    |parts| > 0 && IncludeFlag(parts[|parts| - 1]) && !HasOperand(parts, |parts| - 1)
  }

  /** The include directories a token list names; a bare final flag raises `IndexError`. */
  function IncludeDirs(parts: seq<string>): (r: Result<set<string>>)
    ensures r.Err? ==> r.error == IndexError && |parts| > 0 && IncludeFlag(parts[|parts| - 1])
    ensures r.Ok? ==> forall d :: d in r.value ==>
              exists i :: 0 <= i < |parts| && IncludeFlag(parts[i]) && HasOperand(parts, i) && Operand(parts, i) == d
  {
    if BareFlagAtEnd(parts) then Err(IndexError) else Ok(OperandsBefore(parts, |parts|))
  }

  /** Only a bare `-I` or `/I` as the very last token makes the scan raise. */
  lemma IncludeDirsFails(parts: seq<string>)
    ensures IncludeDirs(parts).Err? <==> |parts| > 0 && (parts[|parts| - 1] == "-I" || parts[|parts| - 1] == "/I")
    ensures IncludeDirs(parts).Ok? ==> forall d :: d in IncludeDirs(parts).value <==>
              exists i :: 0 <= i < |parts| && IncludeFlag(parts[i]) && HasOperand(parts, i) && Operand(parts, i) == d
  {
    if |parts| > 0 {
      var last := parts[|parts| - 1];
      if IncludeFlag(last) && |last| <= 2 {
        assert last == last[..2];
      }
    }
  }

  /** What one entry adds: nothing unless its file ends in `.c`; then its directory and
      the include directories of its command. */
  function EntryDirs(e: Entry): (r: Result<set<string>>)
    ensures !EndsWith(e.file, ".c") ==> r == Ok({})
    ensures EndsWith(e.file, ".c") ==> (r.Err? <==> Tokens(e).Err? || BareFlagAtEnd(Tokens(e).value))
    ensures r.Err? ==> r.error == (if Tokens(e).Err? then TypeError else IndexError)
    ensures r.Ok? && EndsWith(e.file, ".c") ==> forall d :: d in r.value <==>
              (d == Dirname(e.file) ||
               exists i :: 0 <= i < |Tokens(e).value| && IncludeFlag(Tokens(e).value[i]) &&
                 HasOperand(Tokens(e).value, i) && Operand(Tokens(e).value, i) == d)
  {
    if !EndsWith(e.file, ".c") then Ok({})
    else
      match Tokens(e)
      case Err(x) => Err(x)
      case Ok(parts) =>
        match IncludeDirs(parts)
        case Err(x) => Err(x)
        case Ok(s) => Ok({Dirname(e.file)} + s)
  }

  /** The union of per-entry results, taken in order; the first error stops it. */
  function Collect(rs: seq<Result<set<string>>>): Result<set<string>> {
    if rs == [] then Ok({})
    else
      match Collect(rs[..|rs| - 1])
      case Err(x) => Err(x)
      case Ok(s) =>
        match rs[|rs| - 1]
        case Err(x) => Err(x)
        case Ok(s') => Ok(s + s')
  }

  /** What each entry adds, entry by entry. */
  function EntryResults(es: seq<Entry>): (rs: seq<Result<set<string>>>)
    ensures |rs| == |es| && forall i :: 0 <= i < |es| ==> rs[i] == EntryDirs(es[i])
  {
    seq(|es|, i requires 0 <= i < |es| => EntryDirs(es[i]))
  }

  /** The directories the entries add, in order; the first entry that raises stops it. */
  function SourceDirSet(es: seq<Entry>): Result<set<string>> {
    Collect(EntryResults(es))
  }

  lemma {:induction false} CollectSucceeds(rs: seq<Result<set<string>>>)
    ensures Collect(rs).Ok? <==> forall i :: 0 <= i < |rs| ==> rs[i].Ok?
  {
    if rs != [] {
      var init := rs[..|rs| - 1];
      CollectSucceeds(init);
      assert forall i :: 0 <= i < |init| ==> init[i] == rs[i];
    }
  }

  lemma {:induction false} CollectIsUnion(rs: seq<Result<set<string>>>, d: string)
    requires Collect(rs).Ok?
    ensures d in Collect(rs).value <==> exists i :: 0 <= i < |rs| && rs[i].Ok? && d in rs[i].value
  {
    if rs != [] {
      var init := rs[..|rs| - 1];
      CollectIsUnion(init, d);
      assert forall i :: 0 <= i < |init| ==> init[i] == rs[i];
    }
  }

  lemma {:induction false} CollectFirstError(rs: seq<Result<set<string>>>, k: nat)
    requires k < |rs| && rs[k].Err?
    requires forall i :: 0 <= i < k ==> rs[i].Ok?
    ensures Collect(rs) == Err(rs[k].error)
  {
    var init := rs[..|rs| - 1];
    assert forall i :: 0 <= i < |init| ==> init[i] == rs[i];
    if k < |rs| - 1 {
      CollectFirstError(init, k);
    } else {
      CollectSucceeds(init);
    }
  }

  /** The scan succeeds exactly when every entry does. */
  lemma SourceDirSetSucceeds(es: seq<Entry>)
    ensures SourceDirSet(es).Ok? <==> forall i :: 0 <= i < |es| ==> EntryDirs(es[i]).Ok?
  {
    CollectSucceeds(EntryResults(es));
  }

  /** A successful scan holds exactly the directories some entry adds. */
  lemma SourceDirSetIsUnion(es: seq<Entry>, d: string)
    requires SourceDirSet(es).Ok?
    ensures d in SourceDirSet(es).value <==> exists i :: 0 <= i < |es| && EntryDirs(es[i]).Ok? && d in EntryDirs(es[i]).value
  {
    var rs := EntryResults(es);
    CollectIsUnion(rs, d);
    if d in SourceDirSet(es).value {
      var i :| 0 <= i < |rs| && rs[i].Ok? && d in rs[i].value;
      assert EntryDirs(es[i]).Ok? && d in EntryDirs(es[i]).value;
    }
  }

  /** When the scan fails, it fails with the error of the first entry that fails. */
  lemma SourceDirSetFirstError(es: seq<Entry>, k: nat)
    requires k < |es| && EntryDirs(es[k]).Err?
    requires forall i :: 0 <= i < k ==> EntryDirs(es[i]).Ok?
    ensures SourceDirSet(es) == Err(EntryDirs(es[k]).error)
  {
    CollectFirstError(EntryResults(es), k);
  }

  lemma OperandsStep(parts: seq<string>, j: nat)
    requires j < |parts|
    ensures OperandsBefore(parts, j + 1) ==
      OperandsBefore(parts, j) + (if IncludeFlag(parts[j]) && HasOperand(parts, j) then {Operand(parts, j)} else {})
  {
    var extra := if IncludeFlag(parts[j]) && HasOperand(parts, j) then {Operand(parts, j)} else {};
    forall d | d in OperandsBefore(parts, j + 1) ensures d in OperandsBefore(parts, j) + extra {
      var i :| 0 <= i < j + 1 && IncludeFlag(parts[i]) && HasOperand(parts, i) && Operand(parts, i) == d;
      if i < j {
        assert d in OperandsBefore(parts, j);
      }
    }
  }

  lemma SnocStep(es: seq<Entry>, s: set<string>, s': set<string>)
    requires es != [] && SourceDirSet(es[..|es| - 1]) == Ok(s) && EntryDirs(es[|es| - 1]) == Ok(s')
    ensures SourceDirSet(es) == Ok(s + s')
  {
    assert EntryResults(es)[..|es| - 1] == EntryResults(es[..|es| - 1]);
  }

  /** The body of the entry loop of `extract_source_dirs`: what one entry adds. */
  method ScanEntry(e: Entry) returns (r: Result<set<string>>)
    ensures r == EntryDirs(e)
  {
    if !EndsWith(e.file, ".c") {
      return Ok({});
    }
    var parts: seq<string>;
    if e.command.Some? && e.command.value != "" {
      parts := Words(e.command.value);
    } else if e.arguments.Some? {
      parts := e.arguments.value;
    } else {
      return Err(TypeError);
    }
    assert Tokens(e) == Ok(parts);
    var dirs := {Dirname(e.file)};
    var i := 0;
    while i < |parts|
      invariant 0 <= i <= |parts|
      invariant dirs == {Dirname(e.file)} + OperandsBefore(parts, i)
      invariant 0 < i ==> !(IncludeFlag(parts[i - 1]) && !HasOperand(parts, i - 1))
    {
      OperandsStep(parts, i);
      var part := parts[i];
      if IsPrefix("-I", part) || IsPrefix("/I", part) {
        if |part| > 2 {
          dirs := dirs + {part[2..]};
        } else if i + 1 < |parts| {
          dirs := dirs + {parts[i + 1]};
        } else {
          assert BareFlagAtEnd(parts);
          return Err(IndexError);
        }
      }
      i := i + 1;
    }
    assert !BareFlagAtEnd(parts);
    return Ok(dirs);
  }

  /** `extract_source_dirs`: the scan over the entries, then `sorted`. */
  method ExtractSourceDirs(entries: seq<Entry>) returns (r: Result<seq<string>>)
    ensures r.Err? <==> SourceDirSet(entries).Err?
    ensures r.Err? ==> r.error == SourceDirSet(entries).error
    ensures r.Ok? ==> StrictlySorted(r.value) && forall d :: d in r.value <==> d in SourceDirSet(entries).value
  {
    var dirs: set<string> := {};
    var k := 0;
    while k < |entries|
      invariant 0 <= k <= |entries|
      invariant SourceDirSet(entries[..k]) == Ok(dirs)
    {
      var added := ScanEntry(entries[k]);
      assert entries[..k + 1][..k] == entries[..k] && entries[..k + 1][k] == entries[k];
      if added.Err? {
        SourceDirSetFirstError(entries, k) by {
          SourceDirSetSucceeds(entries[..k]);
          assert forall j :: 0 <= j < k ==> entries[..k][j] == entries[j];
        }
        return Err(added.error);
      }
      SnocStep(entries[..k + 1], dirs, added.value);
      dirs := dirs + added.value;
      k := k + 1;
    }
    assert entries[..k] == entries;
    var sorted := SortedList(dirs);
    return Ok(sorted);
  }
}
