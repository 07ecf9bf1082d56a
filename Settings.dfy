/**
 * The two string rules of the C/C++ configuration writer in tools/targets/vsc.py:
 * the intelliSense mode chosen from the compiler path (lines 219-224), and the
 * include-path entries written as `"a/b",` losing their quoting (lines 232-236; the
 * same rule is repeated at lines 259-262, 265-268 and 435-438).
 */
module Settings {
  import opened Outcomes
  import opened Strings

  const ArmMode: string := "linux-gcc-arm"
  const Arm64Mode: string := "linux-gcc-arm64"

  /** `intelliSenseMode`: 64-bit ARM when the compiler path names `aarch64`, else 32-bit ARM. */
  function IntelliSenseMode(cc: string): (r: string)
    ensures r == Arm64Mode <==> Contains(cc, "aarch64")
    ensures r == ArmMode <==> !Contains(cc, "aarch64")
  {
    if Find(cc, "aarch64") != -1 then Arm64Mode
    else if Find(cc, "arm") != -1 then ArmMode
    else ArmMode
  }

  /** The entry opens with `"` and closes with `",` (for the two-character entry `",`, the
      same quote does both). */
  predicate Quoted(i: string)
    requires i != []
  {
    i[0] == '"' && |i| >= 2 && i[|i| - 2] == '"' && i[|i| - 1] == ','
  }

  /**
   * One include-path entry: `i[1:len(i) - 2]` when it opens with `"` and closes with `",`,
   * the entry unchanged otherwise. An empty entry raises `IndexError` at `i[0]`.
   */
  function StripQuoted(i: string): (r: Result<string>)
    ensures r.Err? <==> i == []
    ensures r.Ok? ==> r.value == i || i == ['"'] + r.value + ['"', ','] || (i == ['"', ','] && r.value == [])
  {
    if i == [] then Err(IndexError)
    else if Quoted(i) then
      if |i| >= 3 then
        QuotedSplits(i);
        Ok(i[1..|i| - 2])
      else
        assert i == ['"', ','];
        Ok([])
    else Ok(i)
  }

  lemma QuotedSplits(i: string)
    requires i != [] && Quoted(i) && |i| >= 3
    ensures i == ['"'] + i[1..|i| - 2] + ['"', ',']
  {
    var n := |i|;
    assert i == i[..1] + i[1..n - 2] + i[n - 2..];
    assert i[..1] == ['"'];
    assert i[n - 2..] == ['"', ','];
  }

  /** Quoting a path as `"path",` and stripping it gives the path back. */
  lemma StripQuotedRoundTrip(s: string)
    ensures StripQuoted(['"'] + s + ['"', ',']) == Ok(s)
  {
    var i := ['"'] + s + ['"', ','];
    assert i[0] == '"' && i[|i| - 2] == '"' && i[|i| - 1] == ',';
    if |i| >= 3 {
      assert i[1..|i| - 2] == s;
    }
  }

  /** An entry that does not open with `"` is kept as it is. */
  lemma StripUnquotedKeeps(i: string)
    requires i != [] && i[0] != '"'
    ensures StripQuoted(i) == Ok(i)
  {
  }

  /**
   * The `includePath` loop: every entry stripped, then made relative by
   * `_make_path_relative`, which is passed in as `makeRelative`.
   */
  method IncludePathList(cpppath: seq<string>, makeRelative: string -> string) returns (r: Result<seq<string>>)
    ensures r.Err? <==> exists k :: 0 <= k < |cpppath| && cpppath[k] == []
    ensures r.Err? ==> r.error == IndexError
    ensures r.Ok? ==> |r.value| == |cpppath| &&
                      forall k :: 0 <= k < |cpppath| ==> r.value[k] == makeRelative(StripQuoted(cpppath[k]).value)
  {
    var includePath: seq<string> := [];
    var k := 0;
    while k < |cpppath|
      invariant 0 <= k <= |cpppath|
      invariant forall j :: 0 <= j < k ==> cpppath[j] != []
      invariant |includePath| == k
      invariant forall j :: 0 <= j < k ==> includePath[j] == makeRelative(StripQuoted(cpppath[j]).value)
    {
      var i := cpppath[k];
      if i == [] {
        return Err(IndexError);
      }
      if i[0] == '"' && |i| >= 2 && i[|i| - 2] == '"' && i[|i| - 1] == ',' {
        var inner := if |i| >= 3 then i[1..|i| - 2] else [];
        includePath := includePath + [makeRelative(inner)];
      } else {
        includePath := includePath + [makeRelative(i)];
      }
      k := k + 1;
    }
    return Ok(includePath);
  }
}
