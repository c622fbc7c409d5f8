# pynisurf name helpers and shell path escaper in Dafny

This project models two groups of helpers from pynisurf.

The first group reads information out of FreeSurfer label and analysis names. These helpers appear twice, in `pynisurf/freesurfer/util.py` and in `utilities/fs.py`, with the same code. One module, `FsUtil`, models both copies:

- `tocontrast` reads the contrast (`f-vs-o`) out of a name.
- `_tohemi` / `tohemi` (util.py), also `tohemi` / `to_hemi_multi` (fs.py), read the hemisphere (`lh`, `rh` or `''`).
- `tosig` reads the significance threshold, the digits after `f` in `f20`.
- `totemplate` reads the template (`fsaverage`, `self`).
- `colors` picks rows of a fixed colour table.

The second group is `cmdpath` from `pynisurf/utilities.py`, modelled in `ShellUtil`. It makes paths safe for bash. It merges a table of default escapes with the caller's pairs, then replaces every occurrence of each key by its value, pair by pair, in every command.

`PyStr` holds the Python string operations the helpers rely on:

- `in` on strings (`Contains`)
- `str.split` with an explicit separator (`Split`)
- `sep.join` (`Join`)
- `str.replace` (`Replace`)

Python exceptions are modelled as values. The `ValueError` that `str.split('')` and `float(...)` raise becomes `Result.ValueError`. A Python argument that may be a string or a list is the `StrOrList` datatype. The promotion `if isinstance(x, str): x = [x]` is `AsList`.

`cmdpath` loops over the merged table and rebinds the command list once per pair. `ShellUtil.CmdPath` is therefore a method with a `while` loop. It is proved against the fold `ApplyPairs`. Everything else in the core is comprehensions over strings and lists, so it is modelled as functions and lemmas.

The BIDS filename encoder and decoder (`fn2info` / `info2fn`) are not part of this model.

## Model

| member | source | states |
|---|---|---|
| PyStr.ContainsIff | pynisurf/freesurfer/util.py:59-63 | Python's `sub in s` holds exactly when `sub` occurs at some index of `s` |
| PyStr.ContainsChars | pynisurf/freesurfer/util.py:33 | a string that contains `sub` contains every character of `sub` |
| PyStr.JoinSplit | pynisurf/freesurfer/util.py:31 | joining the pieces of `s.split(sep)` with `sep` gives `s` back |
| PyStr.SplitPiecesFree | pynisurf/freesurfer/util.py:31 | no piece of `s.split(sep)` contains `sep` |
| PyStr.SplitCutsAtFirst | pynisurf/freesurfer/util.py:31 | `s.split(sep)` cuts at the leftmost occurrence of `sep`: none starts inside the first piece; with more pieces one starts right after it and the other pieces are the split of what follows it; a single piece is all of `s` (so `'aaa'.split('aa')` is `['', 'a']`) |
| PyStr.SplitOfJoin | pynisurf/freesurfer/util.py:31 | splitting on a character the pieces lack undoes joining on it |
| PyStr.ReplaceIsJoinOfSplit | pynisurf/utilities.py:34 | `s.replace(t, r)` with non-empty `t` is `r.join(s.split(t))`: every non-overlapping occurrence, found left to right, is replaced |
| PyStr.ReplaceSelf | pynisurf/utilities.py:34 | replacing a string by itself changes nothing |
| PyStr.InsertEverywhere | pynisurf/utilities.py:34 | `s.replace('', r)` is `len(s) + (len(s) + 1) * len(r)` characters long |
| PyStr.InsertEverywhereIsJoin | pynisurf/utilities.py:34 | `s.replace('', r)` is `r.join(['', s[0], ..., s[-1], ''])`: `r` before every character and once more at the end, the characters in their order |
| PyStr.ReplaceCharConcat | pynisurf/utilities.py:34 | replacing a one-character key distributes over concatenation |
| PyStr.ReplaceCharAbsent | pynisurf/utilities.py:34 | replacing a character that does not occur changes nothing |
| FsUtil.Matching | pynisurf/freesurfer/util.py:33 | the kept pieces are exactly the pieces that contain `con_sign`; nothing is kept iff no piece contains it |
| FsUtil.MatchingAppend | pynisurf/freesurfer/util.py:33 | the filter keeps the pieces' order (it distributes over concatenation) |
| FsUtil.ToContrast | pynisurf/freesurfer/util.py:31-33 | `ValueError` iff the separator is empty and the list is not; otherwise one contrast per name, in order, each the `''`-join of that name's matching pieces |
| FsUtil.ContrastHasSign | pynisurf/freesurfer/util.py:33 | a non-empty contrast contains `con_sign` |
| FsUtil.ContrastEmptyIff | pynisurf/freesurfer/util.py:31-33 | with a non-empty sign, the contrast is `''` exactly when no piece contains the sign |
| FsUtil.ContrastOfSinglePiece | pynisurf/freesurfer/util.py:31-33 | a name without the separator is its own contrast if it holds the sign, `''` otherwise |
| FsUtil.ContrastOfLabelName | pynisurf/freesurfer/util.py:11-12 | `roi.lh.f13.f-vs-o.label` gives `f-vs-o` |
| FsUtil.ContrastOfDemoNames | utilities/fs.py:100-104 | `['test.f20.f-vs-o.label', 'test2.f13.f-vs-scr.label']` gives `['f-vs-o', 'f-vs-scr']` |
| FsUtil.CountTrue | pynisurf/freesurfer/util.py:65 | `sum(hemi_bool)` is at most the number of flags and is 0 iff no flag is set |
| FsUtil.Compress | pynisurf/freesurfer/util.py:66 | `compress` keeps as many items as there are true selectors, each an item whose selector is true |
| FsUtil.HemiFromFlags | pynisurf/freesurfer/util.py:59-69 | `lh` iff only the `lh` flag is set, `rh` iff only the `rh` flag is set, `''` iff both or neither are |
| FsUtil.ToHemi | utilities/fs.py:119-135 | the result is `''`, `lh` or `rh`; on a plain name, `lh` iff it contains `lh` and not `rh`, `rh` symmetrically, `''` otherwise; with `fn_only` and a path, the same rule on list membership in the directory listing |
| FsUtil.HemiList | utilities/fs.py:152-157 | same length as the input, element `i` is the hemisphere of name `i`, each `''`, `lh` or `rh` |
| FsUtil.DigitRun | pynisurf/freesurfer/util.py:117 | `\d+` is greedy: the run is all digits and is followed by a non-digit or the end |
| FsUtil.SigMatches | pynisurf/freesurfer/util.py:117-118 | every match is an `f` followed by one or more digits |
| FsUtil.SigPositionsAreStarts | pynisurf/freesurfer/util.py:117-118 | every index the reference scan lists is an `f` followed by a digit |
| FsUtil.SigPositionsComplete | pynisurf/freesurfer/util.py:117-118 | every index where an `f` is followed by a digit is listed |
| FsUtil.SigPositionsIncreasing | pynisurf/freesurfer/util.py:117-118 | the listed indices are strictly increasing |
| FsUtil.SigMatchesAtPositions | pynisurf/freesurfer/util.py:117-118 | `finditer` finds one match at every index where an `f` is followed by a digit, in index order and no other, each the `f` with the whole run of digits after it |
| FsUtil.SigMatchesEmptyIff | pynisurf/freesurfer/util.py:117-118 | there is no match exactly when no `f` is followed by a digit |
| FsUtil.SigValueOkIff | pynisurf/freesurfer/util.py:119-122 | `float(sig_str[1:])` succeeds iff the name holds exactly one `f\d+` run, and then gives the number after that `f` |
| FsUtil.SigMatchesOfOnlyStart | pynisurf/freesurfer/util.py:117-118 | a name with one `f` followed by a digit has exactly the one match that starts there |
| FsUtil.SigValueOfOnlyStart | pynisurf/freesurfer/util.py:117-122 | the threshold is read iff exactly one `f` in the name is followed by a digit, and it is then the value of the digits after that `f` |
| FsUtil.SigList | pynisurf/freesurfer/util.py:118-122 | succeeds iff every name has a threshold, and then gives one threshold per name, in order |
| FsUtil.ToSig | utilities/fs.py:170-181 | a lone string is promoted to a one-element list; a success has one value per input |
| FsUtil.SigOfDemoShape | utilities/fs.py:174-179 | for any name shaped like `test.f20.f-vs-o.label`, the token is the digits after the first `f` and the threshold is their value |
| FsUtil.SigOfDemoName | utilities/fs.py:174-179 | `test.f20.f-vs-o.label` has token `20` and threshold 20 |
| FsUtil.Marks | pynisurf/freesurfer/util.py:154 | one mark per pattern for each name |
| FsUtil.AllMarks | pynisurf/freesurfer/util.py:154 | no patterns give no marks |
| FsUtil.Occurring | pynisurf/freesurfer/util.py:154 | every pattern the name contains is found, and only those |
| FsUtil.MarksJoin | pynisurf/freesurfer/util.py:154-157 | `''.join` of a name's marks is the concatenation of the patterns it contains |
| FsUtil.ChunksFirst | pynisurf/freesurfer/util.py:157 | the first chunk is the `''`-join of the first `len(patterns)` marks, and the rest are the chunks of what follows |
| FsUtil.ChunksOfAllMarks | pynisurf/freesurfer/util.py:154-157 | chunking the flattened marks gives one template per name, in order |
| FsUtil.ToTemplateSpec | pynisurf/freesurfer/util.py:145-157 | no patterns give `[]`; otherwise one entry per input (a lone string counts as one), each the in-order concatenation of the patterns it contains, whatever `default_str` is |
| FsUtil.TemplateOfNoMatch | pynisurf/freesurfer/util.py:154-157 | a name with no pattern gets `''` |
| FsUtil.TemplatesOfDemoNames | utilities/fs.py:210-215 | `['lh.fsaverage.f20.f-vs-o.label', 'lh.self.f13.f-vs-scr.label']` gives `['fsaverage', 'self']` |
| FsUtil.OccurringAtLeastTwo | pynisurf/freesurfer/util.py:154 | a name that contains the patterns at two different places of the list has at least two patterns found |
| FsUtil.TemplateLabelSpec | pynisurf/freesurfer/util.py:137-142 | the documented template: `default_str` for a name with no pattern, the pattern itself for a name with exactly one, `multiple` for a name that contains the patterns at any two different places of the list, such as both defaults |
| FsUtil.ToTemplateUnmatchedAsWritten | pynisurf/freesurfer/util.py:142-157 | `totemplate('lh.f20.label')` is `['']` where the documentation promises `['unknown']` |
| FsUtil.ToTemplateBothAsWritten | pynisurf/freesurfer/util.py:142-157 | `totemplate('fsaverage.self')` is `['fsaverageself']` where the documentation promises `['multiple']` |
| FsUtil.SelectedFrom | pynisurf/freesurfer/util.py:226 | the selected indices are exactly the in-range indices listed in `color`, strictly increasing (so table order, each at most once) |
| FsUtil.ColorsAreSelectedRows | pynisurf/freesurfer/util.py:206-226 | row `i` of the result is the table row at the `i`-th selected index |
| FsUtil.ColorsSpec | pynisurf/freesurfer/util.py:206-226 | at most 12 rows, each a table row, and `[]` for an empty list |
| FsUtil.BlackRows | utilities/fs.py:254-274 | rows 6 through 11 are black, so selecting only those gives black rows |
| FsUtil.ColorsOfNothingAsWritten | pynisurf/freesurfer/util.py:223-226 | `colors([])` is `[]`, while the corrected `ColorsOrAll([])` is the whole table |
| FsUtil.ColorsOfAll | pynisurf/freesurfer/util.py:223-226 | selecting every index from `k` on gives the rest of the table |
| FsUtil.ColorsOrAllSpec | pynisurf/freesurfer/util.py:223-226 | the corrected `colors` gives the whole table for an empty list and agrees with `colors` otherwise |
| ShellUtil.Keys | pynisurf/utilities.py:25 | the keys of a table, one per pair, in order |
| ShellUtil.Lookup | pynisurf/utilities.py:25 | a key is found iff it is a key of the table, and then its pair is in the table |
| ShellUtil.Override | pynisurf/utilities.py:25 | overriding keeps the defaults' keys in their order |
| ShellUtil.NewEntriesMembers | pynisurf/utilities.py:25 | the pairs appended after the defaults are exactly the caller's pairs whose key is not a default key |
| ShellUtil.NewEntriesAppend | pynisurf/utilities.py:25 | the caller's new pairs keep the caller's order |
| ShellUtil.MergeIsDictUnion | pynisurf/utilities.py:21-25 | the merged keys are distinct, the defaults' keys come first in their order, each key looks up the caller's value if given and the default's otherwise, and the pairs after the defaults are caller pairs with new keys |
| ShellUtil.MergeOverridesInPlace | pynisurf/utilities.py:21-25 | a caller key equal to a default key takes that default's place, with the caller's value |
| ShellUtil.OverrideUntouched | pynisurf/utilities.py:25 | defaults whose keys the caller does not give are unchanged |
| ShellUtil.MergeOneNewKey | pynisurf/utilities.py:21-25 | one caller pair with a new key is appended after the four defaults |
| ShellUtil.ApplyPairsStep | pynisurf/utilities.py:33-34 | applying one more pair is one more replace-all on the previous result |
| ShellUtil.ReplaceEach | pynisurf/utilities.py:34 | one replace-all per command, same length |
| ShellUtil.CmdPath | pynisurf/utilities.py:25-37 | a string gives a string and a list a list of the same length; each output is its input after every merged pair's replace-all, applied in merged-table order |
| ShellUtil.ApplyPairsDefaults | pynisurf/utilities.py:21-24 | folding the default table is the four replacements, space, `(`, `)`, `~`, in that order |
| ShellUtil.DefaultsEscape | pynisurf/utilities.py:21-34 | with the defaults only, the output is the character-by-character escape, because no later default rewrites what an earlier one inserted |
| ShellUtil.EscapeLength | pynisurf/utilities.py:21-34 | the escape adds one character per space, `(` and `)` and four per `~` |
| ShellUtil.EscapeNoTilde | pynisurf/utilities.py:21-34 | no `~` survives the escape |
| ShellUtil.EscapeBackslashed | pynisurf/utilities.py:21-34 | every space, `(` and `)` of the escape follows a backslash |
| ShellUtil.EscapeUnchanged | pynisurf/utilities.py:21-34 | a string with none of the four characters is unchanged |
| ShellUtil.CmdPathDefaults | pynisurf/utilities.py:21-34 | with the defaults only: no `~`, every space, `(` and `)` follows a backslash, length grows by one per space, `(`, `)` and by four per `~`, and a string without them comes back unchanged |
| ShellUtil.CmdPathExample | pynisurf/utilities.py:18 | `cmdpath('test ', e='magic')` is `tmagicst\ ` |

## Left out

- `os.listdir` in `_tohemi` is a parameter: `listing` for one name, the function `listdir` for a list. The directory itself is not modelled.
- The `print` warnings of `_tohemi` and `tohemi` are not modelled. They do not change the result.
- `tocontrast` and `tohemi` given a bare string iterate over its characters, as Python does. The model takes a list of names only.
- `_tohemi` with `fn_only` false never lists a directory. The model covers that through the same `ToHemi` branch as a name without `os.sep`. `os.sep` is `/`.
- SigValue: the threshold is an exact natural number, not a Python `float`. `float` rounding of very long digit strings is not modelled.
- SigMatches: `\d` is taken as the ASCII digits `0`–`9`. Python's `re` also accepts other Unicode decimal digits there.
- `colors` takes a list of integers. A `color` of another type (an int, where `c in color` raises `TypeError`) is not modelled. Rows are exact reals.
- CmdPath: the caller's keyword arguments are an ordered table with distinct keys. Python's rule that keyword names are identifiers is not modelled, so keys such as `' '` (reachable with `**{' ': ...}`) are allowed.
- `runcmd` in `pynisurf/utilities.py` runs subprocesses and is not part of this model.
- These are directory, environment and process code and are not part of this model:
  - `subjdir`, `sesslist`, `ana2con` in utilities/fs.py
  - `funcdir`, `bidsdir`, the `project` class
  - everything in `pyfsurf/fspy.py`

## Findings

| source | as written | input that shows it | evidently intended | confidence | as-written member | corrected member |
|---|---|---|---|---|---|---|
| pynisurf/freesurfer/util.py:223-226 | for an empty `color` the code sets `n_color = range(n_clr)` and never uses it, so the result is `[]` | `colors([])` | all twelve rows for an empty list | medium, not executed | FsUtil.ColorsOfNothingAsWritten | FsUtil.ColorsOrAllSpec |
| pynisurf/freesurfer/util.py:137-157 | `default_str` is wrapped in a list and never used; patterns found are concatenated | `totemplate('lh.f20.label')` gives `['']`; `totemplate('fsaverage.self')` gives `['fsaverageself']` | `['unknown']` and `['multiple']`, as the docstring says | medium, not executed | FsUtil.ToTemplateUnmatchedAsWritten | FsUtil.TemplateLabelSpec |
