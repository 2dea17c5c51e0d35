# Configuration loading and version checks of the build scripts

The build scripts of the appointment manager client read their settings from
JSON files and check tool versions against constraint strings. This project
models that core in Dafny and proves what it does:

- `scripts/query_config.py` loads the configuration files named on its command
  line in the order given. It merges each file into the dict built so far: a
  dict value is merged recursively and any other value replaces what was
  there. It then answers every `-q a.b.c` query on one line, with the answers
  separated by `|`.
- `scripts/cmake.py` (`Builder`) loads its configuration files in sorted
  order with the same merge rule. It also keeps a guard that records, for each
  top-level setting, which file set it last. Overwriting a setting made by any
  file other than `config-base.json` draws a warning.
- `scripts/cmake.py` also has `check_version` and `version_to_str`. A version
  is a tuple of integers. A constraint is a comma-separated list of clauses
  such as `>=3.20.0`. Each clause is found by an unanchored regular-expression
  search and compared under Python's tuple order.

The modules are:

- `Strings`: `str.split` and `str.join`.
- `Lexicographic`: tuple order.
- `SortedStrings`: `sorted()` on strings.
- `ConfigTree`: the JSON values, the merge rule `Merge`, the condition
  `Compatible` under which Python gets through a merge without raising, and
  the dotted-path walk.
- `QueryConfig`: the query script.
- `CMakeVersion`: the version checker.
- `CMakeConfig`: the `Builder` with its `config` and `config_guard` fields.

The file system is a parameter `files`, a map from each argument to its
parsed JSON object. A missing file is a failed load. Whenever Python would
raise on a document the model can represent, a method returns `ok == false`,
or a walk returns `Fails`.

Two behaviours of the code differ from what a reader of constraints such as
`~>1.2.3` might expect, and the model follows the code:

- The search is not anchored, so `~>1.2.3` reads as `>1.2.3` rather than
  being malformed.
- `check_version` stops at the first clause that fails. Clauses after it are
  never parsed, so a malformed clause after a failing one does not raise.

## Model

| member | source | states |
|---|---|---|
| Strings.Split | scripts/query_config.py:37 | every piece is free of the separator, and there is at least one piece |
| Strings.Join | scripts/cmake.py:24 | definition of `'.'.join(parts)`; its meaning is stated by `Strings.JoinSplit` and `Strings.SplitJoin` |
| Strings.JoinSplit | scripts/cmake.py:24 | joining the pieces of a split with the separator gives back the text |
| Strings.SplitJoin | scripts/cmake.py:24 | splitting a join of separator-free parts gives back the parts |
| Strings.SplitConcat | scripts/cmake.py:503-507 | splitting at one separator splits the two sides independently |
| Lexicographic.LessIffFirstDifference | scripts/cmake.py:42-53 | tuple `<` holds iff, at the first position where they differ, the left tuple ends or has the smaller component |
| Lexicographic.Less | scripts/cmake.py:42-53 | definition of Python tuple `<` on int tuples; stated by `Lexicographic.LessIffFirstDifference`, `Lexicographic.Trichotomy` and `Lexicographic.Transitive` |
| Lexicographic.Trichotomy | scripts/cmake.py:38-53 | exactly one of `<`, `==`, `>` holds between two tuples |
| Lexicographic.Transitive | scripts/cmake.py:38-53 | tuple `<` is transitive |
| SortedStrings.Sort | scripts/cmake.py:93 | `sorted()` returns a permutation of its argument |
| SortedStrings.StrLess | scripts/cmake.py:93 | definition of `<` on `str` as the tuple order of code points, the order `sorted()` uses; stated by `SortedStrings.SortOrdered` and `SortedStrings.OrderedUnique` |
| SortedStrings.SortOrdered | scripts/cmake.py:93 | the result of `sorted()` is ordered by string `<=` |
| SortedStrings.OrderedUnique | scripts/cmake.py:93 | two ordered lists with the same elements are equal |
| SortedStrings.SortIgnoresOrder | scripts/cmake.py:93 | `sorted()` of two permutations of the same arguments gives the same list |
| ConfigTree.Merge | scripts/query_config.py:10-16 | the merged dict holds exactly the keys of the old and of the new dict |
| ConfigTree.Incoming | scripts/query_config.py:12-15 | definition of the value the loop stores at one key (recursive merge for a dict, replacement otherwise); stated by `ConfigTree.Merge`, `ConfigTree.LastWins` and `ConfigTree.PreservedWhenUntouched` |
| ConfigTree.Compatible | scripts/query_config.py:11-15 | definition of the exact condition under which the loop raises nowhere; stated by `QueryConfig.UpdateConfig`, which succeeds iff it holds |
| ConfigTree.MergeIntoEmpty | scripts/query_config.py:10-16 | merging a document into `{}` gives the document itself |
| ConfigTree.MergeIdempotent | scripts/query_config.py:10-16 | merging the same document twice changes nothing more, and does not raise if the first merge did not |
| ConfigTree.MergeAssociative | scripts/query_config.py:10-16 | merging `a` then `b` equals merging the merge of `a` and `b` |
| ConfigTree.LastWins | scripts/query_config.py:12-15 | a non-dict value the new document sets at a path is what the merged dict holds there |
| ConfigTree.PreservedWhenUntouched | scripts/query_config.py:11-13 | a path the new document does not reach keeps its value, or stays absent |
| ConfigTree.UntouchedKey | scripts/query_config.py:11-13 | a key the loop has not reached still has its old value, and if it cannot be merged, neither can the document |
| ConfigTree.MergedEverything | scripts/query_config.py:11-16 | once every key is processed, the loop's dict is the merge and no step raised |
| ConfigTree.ContainsIffOccurs | scripts/query_config.py:38 | `field in s` on a string holds iff `field` occurs in `s` at some position |
| ConfigTree.Contains | scripts/query_config.py:38 | definition of `field in s` on a `str`; stated by `ConfigTree.ContainsIffOccurs` |
| ConfigTree.Walk | scripts/query_config.py:37-41 | definition of the field loop from one node: a value, unknown, or a raise; stated by `QueryConfig.Lookup`, `QueryConfig.TopLevelQuery` and `QueryConfig.QueryThroughNumberFails` |
| ConfigTree.Get | scripts/query_config.py:35-41 | definition of the walk from the loaded configuration; stated by `QueryConfig.Lookup`, `ConfigTree.LastWins` and `ConfigTree.PreservedWhenUntouched` |
| ConfigTree.MergeAllNext | scripts/query_config.py:30-31 | loading the files up to `i` is loading those before it, then file `i` |
| ConfigTree.MergeAll | scripts/query_config.py:29-31 | definition of the fold over the file arguments, failing at the first raise; stated by `ConfigTree.MergeAllNext`, `ConfigTree.MergeAllIsOneMerge` and `QueryConfig.LoadConfigs` |
| ConfigTree.MergeAllIsOneMerge | scripts/query_config.py:29-31 | loading a list of files gives the same dict as merging in one document that holds their merge |
| ConfigTree.LastSetterWins | scripts/query_config.py:29-31 | a path holds the non-dict value of the last file that reaches it |
| QueryConfig.UpdateConfig | scripts/query_config.py:10-16 | the key-by-key loop succeeds iff the merge does not raise, and then returns the merge |
| QueryConfig.LoadConfigs | scripts/query_config.py:18-31 | the argument loop succeeds iff every file exists and every merge in argument order succeeds, and then holds that fold |
| QueryConfig.MergeAllStopsAtFailure | scripts/query_config.py:29-31 | once a prefix of the files fails to merge, the whole list fails |
| QueryConfig.Lookup | scripts/query_config.py:35-41 | the walk over `query.split('.')` ends where `Get` says: a value, unknown, or a raised error |
| QueryConfig.Membership | scripts/query_config.py:38 | definition of `field in node` for each kind of node, absent where the `in` raises; stated by `QueryConfig.Lookup` |
| QueryConfig.Subscript | scripts/query_config.py:41 | definition of `node[field]` after a successful `in`, absent where it raises; stated by `QueryConfig.Lookup` |
| QueryConfig.FirstFailure | scripts/query_config.py:34-41 | no walk before the returned position raises, and the walk at it does |
| QueryConfig.InterleaveShape | scripts/query_config.py:42-45 | the answers sit at even positions, with a separator between neighbours |
| QueryConfig.InterleaveSnoc | scripts/query_config.py:42-45 | each answer after the first adds a separator before it |
| QueryConfig.RunQueries | scripts/query_config.py:33-51 | the printed pieces are the report; the loop raises iff some query's walk raises |
| QueryConfig.Report | scripts/query_config.py:33-51 | definition of the printed pieces: answers up to the first raise, `|` between them, the newline only after a full run; stated by `QueryConfig.RunQueries`, `QueryConfig.ReportAt` and `QueryConfig.ReportWhenAllAnswered` |
| QueryConfig.ReportAt | scripts/query_config.py:33-51 | when query `i` is the first to raise, the answers before it are printed and nothing else |
| QueryConfig.ReportWhenAllAnswered | scripts/query_config.py:33-51 | when no walk raises, answer `j` is at position `2j`, with separators between, and the line ends with a newline |
| QueryConfig.TopLevelQuery | scripts/query_config.py:37-41 | a query without dots returns the top-level value, or unknown |
| QueryConfig.QueryThroughNumberFails | scripts/query_config.py:38 | a walk that passes through a number raises, rather than answering unknown |
| CMakeVersion.DigitRunIsMaximal | scripts/cmake.py:34 | each `\d+` group is the maximal run of digits at its position |
| CMakeVersion.DecimalValue | scripts/cmake.py:37 | definition of `int()` on a run of decimal digits; stated by `CMakeVersion.DecimalValueOfNatToStr` |
| CMakeVersion.ReadGroups | scripts/cmake.py:34 | the `(\d+)` groups joined by `\.`: when it matches it reads exactly `n` values; stated by `CMakeVersion.DigitRunIsMaximal` and `CMakeVersion.ReadVersionText` |
| CMakeVersion.SearchIsLeftmost | scripts/cmake.py:34 | `re.search` returns the match at the leftmost matching position, and finds none iff no position matches |
| CMakeVersion.SearchFrom | scripts/cmake.py:34 | the scan of `re.search` from one position: a match has `len(version)` values; stated by `CMakeVersion.SearchIsLeftmost` |
| CMakeVersion.Search | scripts/cmake.py:34-35 | `re.search` of the clause pattern, absent when nothing matches: a match has `len(version)` values; stated by `CMakeVersion.SearchIsLeftmost`, `CMakeVersion.ClauseReadsBack` and `CMakeVersion.LeadingTextSkipped` |
| CMakeVersion.MatchHere | scripts/cmake.py:34 | a match starts with a comparator and has exactly `len(version)` groups |
| CMakeVersion.CheckVersion | scripts/cmake.py:32-54 | the loop over clauses returns the verdict `Satisfies` gives: the first clause that does not parse raises, the first failing comparison gives False, otherwise True |
| CMakeVersion.Holds | scripts/cmake.py:38-53 | definition of the `match` on the comparator under tuple order; stated by `CMakeVersion.SatisfiesIffEveryClauseHolds` and `CMakeVersion.RangeConstraint` |
| CMakeVersion.Evaluate | scripts/cmake.py:33-54 | the clause loop; a raise carries the whole constraint string; stated by `CMakeVersion.EvaluateTrueIff`, `CMakeVersion.FirstFailingClauseDecides` and `CMakeVersion.LaterClausesIgnored` |
| CMakeVersion.Satisfies | scripts/cmake.py:32-54 | definition of what `check_version` returns or raises; stated by `CMakeVersion.CheckVersion` and `CMakeVersion.SatisfiesIffEveryClauseHolds` |
| CMakeVersion.EvaluateTrueIff | scripts/cmake.py:33-54 | the clause loop returns True iff every clause parses and its comparison holds |
| CMakeVersion.SatisfiesIffEveryClauseHolds | scripts/cmake.py:32-54 | `check_version` returns True iff every comma-separated clause parses and holds |
| CMakeVersion.FirstFailingClauseDecides | scripts/cmake.py:33-53 | the first clause that does not pass alone decides between the `ValueError` and False |
| CMakeVersion.LaterClausesIgnored | scripts/cmake.py:33-53 | clauses after one that returned False or raised are never looked at |
| CMakeVersion.EmptyConstraintMalformed | scripts/cmake.py:33-36 | an empty constraint raises |
| CMakeVersion.TooFewComponentsMalformed | scripts/cmake.py:34-36 | `=1.2` against a 3-tuple raises |
| CMakeVersion.ExtraComponentIgnored | scripts/cmake.py:34-37 | against a 2-tuple, `=3.11.5` reads the reference `(3, 11)` |
| CMakeVersion.EmptyVersionReadsLeAsLt | scripts/cmake.py:34-44 | with an empty version, `<=` reads as `<` and the check gives False |
| CMakeVersion.LeadingTextSkipped | scripts/cmake.py:34 | text with no comparator before a clause does not change what the search finds |
| CMakeVersion.VersionToStrIsJoin | scripts/cmake.py:23-24 | `version_to_str` is `'.'.join(map(str, version))` |
| CMakeVersion.NatToStr | scripts/cmake.py:24 | `str()` of a natural: a non-empty digit text; its round trip is stated by `CMakeVersion.DecimalValueOfNatToStr` |
| CMakeVersion.VersionToStr | scripts/cmake.py:23-24 | definition of `version_to_str`; stated by `CMakeVersion.VersionToStrIsJoin` and `CMakeVersion.VersionTextSplitsIntoComponents` |
| CMakeVersion.VersionTextSplitsIntoComponents | scripts/cmake.py:23-24 | splitting a printed version at `.` gives the decimal components |
| CMakeVersion.DecimalValueOfNatToStr | scripts/cmake.py:37 | `int(str(x)) == x` |
| CMakeVersion.ReadVersionText | scripts/cmake.py:34-37 | the digit groups of a printed version read back as the version, whatever non-digit text follows |
| CMakeVersion.ClauseReadsBack | scripts/cmake.py:34-37 | searching a printed clause gives the clause back |
| CMakeVersion.VersionSatisfiesItsOwnPin | scripts/cmake.py:23-54 | every version satisfies `"=" + version_to_str(version)` |
| CMakeVersion.ConstraintTextRoundTrip | scripts/cmake.py:32-54 | a printed list of clauses checks to "every comparison holds", never to an error |
| CMakeVersion.SatisfiesBoth | scripts/cmake.py:32-54 | two printed clauses joined by a comma hold iff both comparisons hold |
| CMakeVersion.RangeConstraint | scripts/cmake.py:32-54 | `>=lo,<hi` holds exactly for versions from `lo` up to but excluding `hi` |
| CMakeVersion.TildeReadsAsGreater | scripts/cmake.py:34 | `~>x.y.z` holds exactly for versions strictly above `x.y.z` |
| CMakeVersion.PrefixedClause | scripts/cmake.py:33-37 | text with no comparator and no comma before a printed clause does not change the verdict |
| CMakeVersion.SingleClause | scripts/cmake.py:33-54 | a constraint without a comma holds iff its one clause parses and holds |
| CMakeVersion.PythonPin | scripts/cmake.py:564 | `(3, 11)` satisfies `=3.11` and `(3, 10)` does not |
| CMakeConfig.BaseName | scripts/cmake.py:507 | the file name recorded in the guard contains no `/` |
| CMakeConfig.BaseNameInDirectory | scripts/cmake.py:502-507 | a file's recorded name is its own name, whatever directory it is opened from |
| CMakeConfig.ClaimKeepsConsistent | scripts/cmake.py:517-521 | every guarded key stays a present, non-dict setting |
| CMakeConfig.GuardConsistent | scripts/cmake.py:517-521 | definition of the invariant that every guarded key is a present non-dict setting; stated by `CMakeConfig.ClaimKeepsConsistent` and `CMakeConfig.LoadAllKeepsConsistent` |
| CMakeConfig.Claim | scripts/cmake.py:520 | definition of the guard after a file; stated by `CMakeConfig.Builder.UpdateConfig` and `CMakeConfig.GuardNamesLastSetter` |
| CMakeConfig.Overrides | scripts/cmake.py:517-519 | definition of the warnings a file draws; stated by `CMakeConfig.Builder.UpdateConfig`, `CMakeConfig.SingleSetting` and `CMakeConfig.BaseOverrideIsSilent` |
| CMakeConfig.Builder.constructor | scripts/cmake.py:525-526 | a new builder starts with an empty configuration and an empty guard |
| CMakeConfig.Builder.UpdateConfig | scripts/cmake.py:509-522 | succeeds iff the merge does not raise; then returns the merge, the guard with every top-level non-dict key claimed by the file, and the warnings drawn |
| CMakeConfig.Builder.LoadConfig | scripts/cmake.py:501-507 | loads one file under its base name, updating the configuration and the guard, or fails if it is missing or its merge raises |
| CMakeConfig.LoadOne | scripts/cmake.py:501-507 | definition of one `_load_config`, failing on a missing file or a raising merge; stated by `CMakeConfig.Builder.LoadConfig` and `CMakeConfig.WarningsAccumulate` |
| CMakeConfig.Builder.LoadConfigs | scripts/cmake.py:93-94 | loading the sorted arguments one by one reaches the state of the sorted fold, and fails iff that fold fails |
| CMakeConfig.LoadAll | scripts/cmake.py:93-94 | definition of the fold over the sorted arguments; stated by `CMakeConfig.Builder.LoadConfigs`, `CMakeConfig.LoadAllIsMergeAll` and `CMakeConfig.GuardNamesLastSetter` |
| CMakeConfig.WarningsAccumulate | scripts/cmake.py:93-94 | the warnings of a run of loads are those of the earlier loads plus those the last file draws, repeats counted |
| CMakeConfig.TrackedDict | scripts/cmake.py:512-514 | a dict value claims no key and draws no warning at the top level |
| CMakeConfig.TrackedScalar | scripts/cmake.py:515-521 | a non-dict value is claimed by the file and warns iff a non-base file owned it |
| CMakeConfig.LoadAllStopsAtFailure | scripts/cmake.py:93-94 | once a prefix of the files fails to load, the whole list fails |
| CMakeConfig.LoadAllIsMergeAll | scripts/cmake.py:93-94 | the guard and warnings do not change what is loaded: the configuration is the plain fold of the merges |
| CMakeConfig.LoadAllKeepsConsistent | scripts/cmake.py:509-522 | loading keeps every guarded key a present non-dict setting |
| CMakeConfig.GuardNamesLastSetter | scripts/cmake.py:509-522 | the guard names the last file that set a top-level non-dict setting |
| CMakeConfig.GuardOnlyFromSetters | scripts/cmake.py:509-522 | a key enters the guard only from a file that sets it as a non-dict |
| CMakeConfig.ArgumentOrderIrrelevant | scripts/cmake.py:93-94 | the outcome of loading does not depend on the order of the arguments |
| CMakeConfig.ReloadWarnsAboutItself | scripts/cmake.py:509-522 | reloading a file keeps the configuration and the guard, and warns once per top-level setting, naming the file itself, unless it is the base file |
| CMakeConfig.SingleSetting | scripts/cmake.py:509-522 | a file with one non-dict setting leaves exactly that setting, owned by the file, and warns iff a non-base file owned it |
| CMakeConfig.BaseThenSecond | scripts/cmake.py:517 | a second file overwrites a base-file setting without a warning |
| CMakeConfig.BaseOverrideIsSilent | scripts/cmake.py:517 | base, second, third file: only the third file's overwrite warns, naming the second file |

## Left out

- File I/O, `json.load` and path resolution are left out; `files` maps each argument to its parsed document.
- A file whose top-level JSON value is not an object cannot be represented, since `files` holds objects only. Both scripts raise on it at `new_config.items()` (scripts/query_config.py:11, scripts/cmake.py:511); the model has no such input.
- Command-line parsing (`argparse`) is left out; the file arguments and queries are parameters.
- The JSON-schema validation after loading, and everything else `Builder` does (toolchain detection, running CMake), are not part of this model.
- `print` is left out. The query script's output is a list of printed pieces in which a value is kept as a value; its `str()` text is not modelled. The cmake warnings of one file are collected as a set, which is exact since each key draws at most one warning; across files they are collected as a multiset, so a warning printed by two loads counts twice. Only their print order is not modelled.
- Dict iteration order is not modelled. The merge result and the guard do not depend on it, since each key is visited once.
- Floating-point JSON numbers are left out; `Value` has integral numbers only.
- `\d` is modelled as the ASCII digits; Python's `\d` also matches other Unicode decimal digits.
- CMakeVersion.DecimalValue: has no digit limit. Python 3.11's `int()` raises `ValueError` on a decimal text longer than 4300 digits, so `check_version` raises at scripts/cmake.py:37 on such a group, where `Satisfies` returns a verdict.
- CMakeVersion.NatToStr: has no size limit. Python 3.11's `str()` raises `ValueError` on an integer of 4301 or more digits, so `version_to_str` raises there; `VersionToStr`, `DecimalValueOfNatToStr` and `VersionSatisfiesItsOwnPin` state their round trips for every natural.
- CMakeConfig.BaseName: splits at `/` only; Windows `\` separators and `Path` normalisation are not modelled.
- The state left behind when a merge raises part-way, and the warnings `_update_config` printed before the raise, are not modelled. A failed load returns `ok == false`, and the script stops there.
- Aliasing is not modelled. Python's `config` and `config_guard` are class-level dicts that `_update_config` mutates in place; the model gives the one `Builder` its own fields. The query script's `update_config` likewise mutates `old_config` in place and returns that same dict (scripts/query_config.py:13, :16); the model returns a new map, which every call site stores back, so nothing observable differs.
- CMakeConfig.Builder.UpdateConfig: requires the guard to own only present non-dict settings. Every guard the builder builds satisfies this (`ClaimKeepsConsistent`, `LoadAllKeepsConsistent`).
- CMakeConfig.Builder.UpdateConfig: nested dicts get a fresh guard, so their warnings are always empty and are dropped. The nested `config_guard.get(key, {})` is `{}` whenever the nested loop runs a step; with an empty incoming dict the call returns at once and never reads the guard it was given.
