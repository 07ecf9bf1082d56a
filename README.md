# RT-Thread VS Code workspace generator: the path tree and folder exclusion

This project models the core of `tools/targets/vsc.py` in RT-Thread's build tools. That code
writes a VS Code workspace from `build/compile_commands.json`, and it works in four steps:

1. It collects the directories of the C sources and their `-I` / `/I` include directories
   (`extract_source_dirs`).
2. It builds a prefix tree of their path segments (`add_path_to_tree`, `build_tree`).
3. It cuts the tree down to the first dict with two or more keys (`filt_tree`,
   `find_first_node_with_two_children`).
4. It walks the directories below the RT-Thread root and excludes every directory the tree
   does not contain (`is_path_in_tree` and the `os.walk` loop of `command_json_to_workspace`).

The model also covers two string rules of the C/C++ settings writer: the choice of
`intelliSenseMode` from the compiler path, and stripping the quoting from `"a/b",` entries of
`CPPPATH`.

Modules:

- `Outcomes`: `Option`, and `Result` with the Python exceptions the code can raise
  (`IndexError`, `ValueError`, `TypeError`).
- `Strings`: the separator (`/`), and `str.split(sep)` with its inverse `Join`.
  - `str.split()` on whitespace, with its inverse `Unwords`.
  - `str.find` and `os.path.dirname`.
  - Ordering of strings, and `sorted` of a set.
- `PathTree`: the nested dict as a table from a node's key path to its keys in insertion order.
  - `WellFormed` says the table is a tree.
  - The class `DirTree` holds that table as a field and builds it with the source's
    `current_level` loop.
- `TreeFilter`: the search for the first branching dict and the filtered tree. The search is
  modelled twice: as written, and as evidently intended (see Findings).
- `Membership`: the lookup loop of `is_path_in_tree`, including its errors.
- `Exclusion`: the directories on disk as a `Dir` tree, and the exclusion walk.
  - A recursive definition states what is excluded.
  - The method `ExcludeFolders` runs the worklist loop that `os.walk` performs.
  - It is proved equal to that definition.
- `SourceDirs`: `extract_source_dirs` over compilation-database entries.
- `Settings`: the intelliSense mode and the include-path quote strip.

Behaviour of the code that the model keeps, including where it is surprising:

- **Root key missing from the path.** A path that does not contain the filtered root key
  raises `ValueError`: `parts.index(root_key)` (`vsc.py:119`) is outside the `try`, so it
  is not reported as a non-member. A walk starting above the filtered root, such as `/proj`
  with root key `src`, raises at its first lookup. `InTree` and `Walk` return
  `Err(ValueError)`.
- **Empty filtered tree.** `list(tree.keys())[0]` (`vsc.py:117`, `vsc.py:176`) raises
  `IndexError` on `{}`; nothing is excluded. The model returns `Err(IndexError)`.
- **Where the search looks.** `find_first_node_with_two_children` only tests the subtrees of
  keys, so the top dict itself is never a candidate. Because of the always-true `if result:`
  only the first key of the top dict is ever searched (see Findings). `FindAsWritten` and
  `FilterAsWritten` model the code as written; `SearchFrom`, `FindFirst` and `Filter` are the
  corrected pre-order search, and the two agree on trees built from absolute paths.
- **Absolute paths.** Every absolute path splits into a leading empty segment, so the top
  dict has at most one key, `""` (`AbsolutePathsShareTop`). If the first branching dict is
  that root directory's own dict, its key is `""`; `if key:` rejects it, and the filtered
  tree is `{}` (`BranchAtRootDirectoryEmpties`).

## Model

| member | source | states |
|---|---|---|
| PathTree.AddChild | tools/targets/vsc.py:59-60 | Adding a missing key keeps the table a tree and creates the child dict; a key already present changes nothing |
| PathTree.InsertPath | tools/targets/vsc.py:55-61 | Inserting a split path into a tree gives a tree |
| PathTree.InsertPathContains | tools/targets/vsc.py:55-61 | After insertion, the dict for the whole path exists |
| PathTree.InsertPathNodes | tools/targets/vsc.py:55-61 | The dicts after insertion are exactly the old ones plus every prefix of the path |
| PathTree.InsertPathKeeps | tools/targets/vsc.py:55-61 | Insertion keeps every existing dict and only appends keys to it, so insertion order is preserved |
| PathTree.InsertPresentPath | tools/targets/vsc.py:55-61 | Inserting a path whose dict already exists leaves the tree unchanged |
| PathTree.InsertPathIdempotent | tools/targets/vsc.py:55-61 | Inserting the same path twice is the same as inserting it once |
| PathTree.DirTree.constructor | tools/targets/vsc.py:65 | A new tree is the empty dict |
| PathTree.DirTree.AddPath | tools/targets/vsc.py:55-61 | The `current_level` loop leaves the tree well formed and equal to `InsertPath` of the old tree and the path |
| PathTree.Built | tools/targets/vsc.py:64-78 | Inserting every path, in order, into the empty dict gives a tree |
| PathTree.BuiltContainsEveryPath | tools/targets/vsc.py:64-78 | Every input path is a dict of the built tree |
| PathTree.BuiltNodes | tools/targets/vsc.py:64-78 | The built tree's dicts are exactly the top and the prefixes of the input paths |
| PathTree.AbsolutePathsShareTop | tools/targets/vsc.py:55-56 | For absolute paths, the top dict has at most one key (the empty segment before the leading `/`) |
| PathTree.BuildTree | tools/targets/vsc.py:64-78 | `build_tree` returns a fresh well-formed tree equal to `Built` of the split paths |
| TreeFilter.PreOrderIsAllNodes | tools/targets/vsc.py:38-45 | The pre-order listing below the top holds exactly the dicts of the tree other than the top |
| TreeFilter.SearchFrom | tools/targets/vsc.py:38-45 | Corrected search (see Findings): the search from a dict returns the first dict of its pre-order listing that has two or more keys |
| TreeFilter.FoundBelowNarrowDicts | tools/targets/vsc.py:38-45 | Corrected search (see Findings): every dict between the starting dict and the found one has fewer than two keys |
| TreeFilter.FindFirst | tools/targets/vsc.py:38-45 | Corrected search (see Findings): the result is a non-top dict with two or more keys and is first in pre-order, with only narrow dicts above it; `None` exactly when no non-top dict has two keys |
| TreeFilter.FindAsWritten | tools/targets/vsc.py:38-45 | The search as written: whatever it returns has two or more keys |
| TreeFilter.AsWrittenAgreesBelow | tools/targets/vsc.py:38-45 | From a dict with at most one key, the search as written equals the pre-order search |
| TreeFilter.AsWrittenAgreesOnSingleTop | tools/targets/vsc.py:38-45 | When the top dict has at most one key, the search as written equals the corrected one |
| TreeFilter.AsWrittenAgreesOnAbsolutePaths | tools/targets/vsc.py:38-45 | On a tree built from absolute paths, the search as written equals the corrected one |
| TreeFilter.MissedSiblingWellFormed | tools/targets/vsc.py:38-45 | The counterexample table `{a: {}, b: {c: {}, d: {}}}` is a tree |
| TreeFilter.AsWrittenMissesLaterSibling | tools/targets/vsc.py:43-44 | On that tree, the search as written finds nothing, but the dict under `b` has two keys. The bug cannot show on trees built from absolute paths (`AsWrittenAgreesOnAbsolutePaths`) |
| TreeFilter.Regrafted | tools/targets/vsc.py:51 | The copy of the subtree at `q` re-rooted under its last key holds, at each new path, the keys the old path held |
| TreeFilter.GraftWellFormed | tools/targets/vsc.py:51 | `{key: subtree}` is a tree |
| TreeFilter.GraftHoldsSubtree | tools/targets/vsc.py:51 | `{key: subtree}` has the single top key `key`, and below it exactly the dicts of the subtree with their keys |
| TreeFilter.Graft | tools/targets/vsc.py:51 | `{key: subtree}` has the single top key, the last key of the found path, and every dict at or below the found one appears re-rooted under it with the same keys |
| TreeFilter.FilterOn | tools/targets/vsc.py:48-52 | `filt_tree` once the search has returned: a tree with at most one top key; `{}` exactly when nothing was found or the found key is `""`; otherwise the found subtree under its key |
| TreeFilter.FilterAsWritten | tools/targets/vsc.py:48-52 | `filt_tree` as written, over `FindAsWritten`: the same properties, stated for the first-key-only search |
| TreeFilter.FilterAgreesOnAbsolutePaths | tools/targets/vsc.py:48-52 | On a tree built from absolute paths, `filt_tree` as written and corrected give the same tree |
| TreeFilter.FilterAsWrittenMissesLaterSibling | tools/targets/vsc.py:43-52 | On `{a: {}, b: {c: {}, d: {}}}`, `filt_tree` as written gives `{}`, while the corrected one gives the subtree under `b` |
| TreeFilter.Filter | tools/targets/vsc.py:48-52 | Corrected (see Findings): `filt_tree` over the pre-order search gives a tree with at most one top key; it is `{}` exactly when no branching dict exists or the found key is `""`; otherwise it is the found subtree under its key |
| TreeFilter.BranchAtRootDirectoryEmpties | tools/targets/vsc.py:48-52 | When absolute paths part ways right below `/`, the found dict is `[""]` and the filtered tree is `{}` |
| Membership.IndexOf | tools/targets/vsc.py:119 | `list.index`: the first position of the key, and `None` exactly when it is absent (Python raises `ValueError`) |
| Membership.RootKey | tools/targets/vsc.py:117 | `list(tree.keys())[0]`: a key of the top dict, the first in insertion order |
| Membership.InTree | tools/targets/vsc.py:113-126 | The lookup raises `IndexError` exactly for an empty tree, and otherwise `ValueError` exactly when the root key is not a segment of the path |
| Membership.PartsInTree | tools/targets/vsc.py:114-126 | The lookup loop returns `IndexError` for an empty tree and `ValueError` without the root key; otherwise it returns whether the segments from the root key on name a dict |
| Membership.IsPathInTree | tools/targets/vsc.py:113-126 | `is_path_in_tree` is that lookup on the path split at `/` |
| Membership.MemberPrefixes | tools/targets/vsc.py:121-124 | Every prefix of a member that reaches past the root key is a member |
| Membership.NonMemberExtensions | tools/targets/vsc.py:121-126 | Every extension of a non-member is a non-member |
| Membership.MemberChild | tools/targets/vsc.py:121-124 | A subdirectory of a member is a member exactly when its name is a key of the member's dict |
| Membership.LookupsBelowSucceed | tools/targets/vsc.py:119 | Below a path whose lookup raises nothing, no lookup raises |
| Exclusion.Paths | tools/targets/vsc.py:184 | Every directory the walk can reach lies below the root path, and the root is one of them |
| Exclusion.ExcludedAreTopmost | tools/targets/vsc.py:184-193 | Characterises `Excluded`: a path is excluded exactly when it is a directory of the hierarchy outside the tree whose ancestors from the root down are all inside |
| Exclusion.ExcludedAntichain | tools/targets/vsc.py:186-188 | No excluded folder lies inside another: the walk does not descend into an excluded one |
| Exclusion.NonMemberChildExcluded | tools/targets/vsc.py:190-193 | Every listed subdirectory of a member that is outside the tree is excluded |
| Exclusion.HiddenIffOutside | tools/targets/vsc.py:184-193 | A directory of the hierarchy is outside the tree exactly when it lies inside some excluded folder |
| Exclusion.Walk | tools/targets/vsc.py:176-193 | The walk raises exactly the root lookup's error; otherwise it excludes exactly the directories of the hierarchy that are outside the tree while every ancestor from the root down is inside |
| Exclusion.WalkRootLookupErrors | tools/targets/vsc.py:117-119 | An empty filtered tree raises `IndexError`; a root path without the root key raises `ValueError`; otherwise the walk succeeds |
| Exclusion.ExcludeFolders | tools/targets/vsc.py:184-193 | The worklist loop returns the root lookup's error, or exactly the set `Excluded` |
| SourceDirs.Tokens | tools/targets/vsc.py:95-101 | `command or arguments`: a non-empty command is split into whitespace-free words that concatenate to its non-space characters; a missing or empty command falls back to the argument list unchanged; `TypeError` exactly when the command is missing or empty and no arguments exist |
| SourceDirs.IncludeDirs | tools/targets/vsc.py:102-108 | The include scan of a token list raises only `IndexError`, only when the last token is an include flag, and otherwise yields only operands of include flags |
| SourceDirs.IncludeDirsFails | tools/targets/vsc.py:103-109 | The include scan raises `IndexError` exactly when the last token is a bare `-I` or `/I`; otherwise it yields exactly the operands of the include flags |
| SourceDirs.EntryDirs | tools/targets/vsc.py:88-109 | A file not ending in `.c` adds nothing. A `.c` entry fails exactly when its tokens fail (`TypeError`) or end in a bare `-I` / `/I` (`IndexError`); otherwise it adds exactly its directory and every include-flag operand |
| SourceDirs.ScanEntry | tools/targets/vsc.py:88-109 | The loop body for one entry (tokens, then the `-I` / `/I` scan) returns exactly `EntryDirs`: its directory and include operands, or the error it raises |
| SourceDirs.SourceDirSetSucceeds | tools/targets/vsc.py:87-109 | The scan succeeds exactly when every entry does |
| SourceDirs.SourceDirSetIsUnion | tools/targets/vsc.py:87-109 | A successful scan holds exactly the directories some entry adds |
| SourceDirs.SourceDirSetFirstError | tools/targets/vsc.py:87-109 | A failing scan fails with the first failing entry's error |
| SourceDirs.ExtractSourceDirs | tools/targets/vsc.py:85-110 | `extract_source_dirs` fails exactly as the scan does; otherwise it returns a strictly sorted list with exactly the scanned directories |
| Strings.Split | tools/targets/vsc.py:56 | The pieces contain no separator and joining them gives the string back |
| Strings.SplitOfJoin | tools/targets/vsc.py:56 | Splitting joined separator-free pieces gives the pieces back |
| Strings.Words | tools/targets/vsc.py:98 | `command.split()`: every word is non-empty and whitespace-free, and the words together hold exactly the non-whitespace characters in order. Where words break is fixed by `WordsSkipsLeadingSpace` and `WordsOfWordThen`, with `WordsOfUnwords` as the round trip |
| Strings.WordsSkipsLeadingSpace | tools/targets/vsc.py:98 | `split()` ignores a leading whitespace character |
| Strings.WordsOfWordThen | tools/targets/vsc.py:98 | A whole whitespace-free word followed by whitespace or the end is the first word of `split()`, and the rest is split the same way |
| Strings.WordsOfUnwords | tools/targets/vsc.py:98 | `split()` of words joined by spaces gives the words back |
| Strings.Dirname | tools/targets/vsc.py:92 | `os.path.dirname` is a prefix of the path, and empty when the path has no `/` |
| Strings.Find | tools/targets/vsc.py:220-222 | `str.find`: -1 exactly when the substring does not occur, otherwise its first position |
| Strings.DirnameOfChild | tools/targets/vsc.py:92 | `dirname(d + "/" + b)` is `d` |
| Strings.SortedList | tools/targets/vsc.py:110 | `sorted(set)` is strictly increasing and has exactly the set's elements |
| Settings.IntelliSenseMode | tools/targets/vsc.py:219-224 | The mode is `linux-gcc-arm64` exactly when the compiler path contains `aarch64`, and `linux-gcc-arm` otherwise |
| Settings.StripQuoted | tools/targets/vsc.py:233-236 | An entry strips to itself or to the inside of `"…",`; an empty entry raises `IndexError` |
| Settings.StripQuotedRoundTrip | tools/targets/vsc.py:233-234 | Stripping `"` + s + `",` gives s back |
| Settings.StripUnquotedKeeps | tools/targets/vsc.py:235-236 | An entry not opening with `"` is kept as it is |
| Settings.IncludePathList | tools/targets/vsc.py:232-237 | The `includePath` list raises exactly when some entry is empty; otherwise entry k is the stripped entry k, made relative |

## Left out

- JSON parsing, file reading and writing, `print`, `os.getcwd`, `os.chdir`: I/O. The model
  starts from the parsed entries and returns the excluded set.
- `os.path.normpath`, `os.path.abspath` and `os.path.relpath`: the model treats paths as
  already normalised absolute POSIX paths, so these are the identity. The Windows-only
  `ValueError` from `relpath` (`vsc.py:72-76`) cannot occur on POSIX and is not modelled.
- `os.sep` is fixed to `/`, and `os.path.join` of a root and a name is appending a segment.
  A root path with a trailing separator is not modelled.
- `os.walk` reads the disk. The hierarchy is a `Dir` value listing subdirectories in walk
  order. The walk is modelled as a stack of pending directories, and `dirs[:] = []` as not
  pushing the subdirectories.
- `_make_path_relative` is in `tools/utils.py`, which is not part of this model. It is a
  function parameter of `Settings.IncludePathList`.
- Settings.IncludePathList: models the loop at lines 232-237. The same `StripQuoted` rule
  recurs in three loops that are not modelled separately:
  - lines 257-262 and 263-268 build the workspace folder list from `CPPPATH` and `DIRS`,
    keeping only entries whose relative path starts with `.`;
  - lines 434-438 build `includePath` for `.vscode/c_cpp_properties.json` again, unfiltered,
    relative to `GetLaunchDir()` instead of `os.getcwd()`, and sort the result with
    `key=str.lower` at line 440.
- `command_json_to_workspace` as one composition is not modelled. Its parts are:
  `ExtractSourceDirs`, `BuildTree`, `FilterAsWritten` (or the corrected `Filter`) and `ExcludeFolders`.
- `generate_code_workspace_file`, `delete_repeatelist`, `print_tree`, the `Generate*` entry
  points and everything else in the file: JSON layout and I/O outside the core.
- Strings.Words: its own contract does not say where words break. `WordsSkipsLeadingSpace`
  (leading whitespace is dropped) and `WordsOfWordThen` (a whole word followed by whitespace is
  the first result) fix that for every string, and the body splits at every whitespace run.
- Strings.SortedList: Python orders strings by code point. `Less` is that lexicographic order
  on `char` values. A Dafny `char` is a Unicode scalar value, so Python strings that hold lone
  surrogates are not modelled.
- Settings.IntelliSenseMode: the `elif cc.find('arm')` branch chooses the same mode as the
  default. The function keeps the branch, and the contract states the resulting two-way choice.
- Exclusion.Walk: the hierarchy always has a root directory. `os.walk` on a missing or unreadable
  `root_path` yields nothing, so the loop at line 184 then excludes nothing and raises nothing;
  that case is not modelled.
- SourceDirs.EntryDirs: `command` is modelled only as a string or missing, and `arguments`
  only as a list of strings or missing. A `command` given as a list, an `arguments` given as a
  string (which the `isinstance` test at line 97 would split), and other JSON types (a number,
  a dict) are not modelled.

## Findings

| source | as written | input that shows it | evidently intended | confidence | as-written member | corrected member |
|---|---|---|---|---|---|---|
| tools/targets/vsc.py:43-44 | `if result:` tests the returned tuple, and `(None, None)` is a non-empty tuple, so the loop always returns after searching below its first key | `{'a': {}, 'b': {'c': {}, 'd': {}}}`: the code returns `(None, None)`, although `b` has two children | go on to the next key when nothing was found below this one: the first dict with two keys in pre-order | high; not executed | TreeFilter.FilterAsWrittenMissesLaterSibling | TreeFilter.Filter |
