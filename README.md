# merge.py, modelled in Dafny

`python/summarize/merge.py` aggregates per-reference "call" summaries produced
by an analysis pipeline. Each job of each pool writes a tab-separated call
summary. `parse_callsum` turns one summary into a map from reference id to a
raw call record, and decomposes a `Fixable:<p1>,<p2>` call into its parts.
`call_display` reduces a raw record to a display record with a call from a
fixed vocabulary (`perfect`, `almost`, `errors`, `dips`, `incomplete`,
`lowcov`, `?`). `merge_calls` builds the call table (reference, then pool,
then display record), taking the requested protocol's summary and falling
back to `bwa_dir`. `best_calls` picks for each reference the pool with the
largest `perfect` display value, else the largest `almost` one, else none.

The model follows the code's own shape:

- `wrappers.dfy`: `Option` and `Result`. A `Failure` stands for an exception the Python code lets escape.
- `pystr.dfy` (module `PyStr`): the Python built-ins the code relies on, written out. These are `str.split`, `str.strip`, `list.index`, `str.startswith`, `int(str)` and `str(int)`.
- `summary.dfy` (module `Summary`): `parse_callsum`. A method with the source's loop (`ParseCallsum`) is proved equal to a specification function (`CallSummary`). The lemmas about that function state what the parse means.
- `display.dfy` (module `Display`): `call_display`, as a function.
- `merge.dfy` (module `Merge`): `merge_calls`, as a method with the source's outer loop (`MergeCalls`). The inner loop, which fills one reference's row, is the method `MergeRow`. Their results are specified by `IsMergedTable` and `IsMergedRow`.
- `best.dfy` (module `Best`): `best_calls`, as methods with loops over the keys of the maps. The keys are taken in an unspecified order, as Python 2 dicts are. The result is specified by `IsBestChoice`.

Records are `map<string, string>`, like the source's dicts. The rounding helper
`ff` (line 32) is a parameter `ff: string -> string` of `CallDisplay` and
`MergeCalls`.

Where the code and the written description of the system disagree, the model
follows the code:

- Only `'\n'` is stripped from each line (line 6). Other white space is kept.
- A Fixable call may hold more than one `:`. Everything after the second colon-separated piece is ignored (lines 13 and 16). Only the piece after the first `:` must split into exactly two comma pieces.
- Any call that merely starts with `Fixable` (for example `FixableX:a,b`) is decomposed too. Its category part then reaches `call_display` as an unknown call (`?`).
- A column name that also appears at position 0 of the header takes its value from column 0 (`header.index(h)`, line 11).

## Model

| member | source | states |
|---|---|---|
| `PyStr.IndexOf` | python/summarize/merge.py:11 | `header.index(h)` is the first position holding `h` |
| `PyStr.Split` | python/summarize/merge.py:13 | `split` gives at least one piece, no piece holds the separator, and there is more than one piece exactly when the separator occurs |
| `PyStr.JoinSplit` | python/summarize/merge.py:13 | joining the pieces of a split with the separator gives back the string |
| `PyStr.SplitJoin` | python/summarize/merge.py:13 | splitting the join of separator-free pieces gives back the pieces |
| `PyStr.StripLeft` | python/summarize/merge.py:6 | the result is the suffix left after removing every leading stripped character, and it does not start with one |
| `PyStr.StripRight` | python/summarize/merge.py:6 | the result is the prefix left after removing every trailing stripped character, and it does not end with one |
| `PyStr.StripReadLine` | python/summarize/merge.py:6 | `strip('\n')` on a line read from a file removes exactly its line terminator |
| `PyStr.IntToString` | python/summarize/merge.py:33 | `str` of an integer reads back through `int` as that integer |
| `Summary.SplitFixableErrors` | python/summarize/merge.py:12-16 | a call without `:` fails with the missing-colon error; any other failure is a count of comma pieces other than two |
| `Summary.FixableDecomposes` | python/summarize/merge.py:13-16 | a successful decomposition means the call is category, `:`, `p1`, `,`, `p2`, then nothing or a `:`-led tail; no part holds a separator |
| `Summary.FixableRoundTrip` | python/summarize/merge.py:13-16 | every call of that form decomposes back into its category, `p1` and `p2` |
| `Summary.RowRecordMeaning` | python/summarize/merge.py:11-16 | a row gives a record keyed by `header[1:]` (plus `p1`, `p2` for Fixable); each value is the row's entry at the name's first header position; a Fixable call is split; the row fails exactly when it is short, the header lacks `call`, or the Fixable value is malformed |
| `Summary.CallSummary` | python/summarize/merge.py:4-18 | an empty file, or one with only a header, gives the empty map |
| `Summary.ParseRowsSucceeds` | python/summarize/merge.py:10-17 | the parse succeeds exactly when every data row does |
| `Summary.ParseRowsFirstError` | python/summarize/merge.py:10-17 | a failed parse reports the error of the first failing row, and every row before it parses |
| `Summary.ParseRowsPrefixFailure` | python/summarize/merge.py:10-17 | once the rows read so far fail, no later row changes the outcome |
| `Summary.ParseRowsKeys` | python/summarize/merge.py:17 | the keys of the result are exactly the column-0 values of the data rows |
| `Summary.ParseRowsLatest` | python/summarize/merge.py:17 | each key maps to the record of the last row carrying it; a later row overwrites an earlier one |
| `Summary.ParseCallsum` | python/summarize/merge.py:4-18 | the loop over the lines computes `CallSummary`, including its errors |
| `Display.CallDisplayMeaning` | python/summarize/merge.py:39-47 | total on records holding the fields it reads; the output has keys `call` and `display`, plus `p1` and `p2` (copied unchanged) only for `almost`; `call` is the vocabulary's name for the raw call (`?` for any other) and lies in the seven-word vocabulary; `display` is `nvars`/`ndips`/`pct_cov` verbatim for Errors/Dips/Incomplete and `ff(mean_cov)` otherwise |
| `Display.VocabularyFaithful` | python/summarize/merge.py:41-47 | distinct named raw calls get distinct display calls; `?` arises exactly for unnamed calls; `errors`, `dips` and `incomplete` arise exactly for the verbatim categories |
| `Merge.ChosenProtocol` | python/summarize/merge.py:55-59 | the requested protocol when the pool has it, else `bwa_dir` when it has that, else none |
| `Merge.MergeRow` | python/summarize/merge.py:54-59 | the row for one reference has an entry exactly for the listed pools holding the requested protocol or `bwa_dir`; each entry is `call_display` of that protocol's record for the reference |
| `Merge.MergeCalls` | python/summarize/merge.py:49-61 | every reference gets a row, possibly empty; a row has an entry exactly for the listed pools holding the requested protocol or `bwa_dir`; each entry is `call_display` of that protocol's record for the reference |
| `Merge.MergedTableUnique` | python/summarize/merge.py:49-61 | the table is determined by its inputs, so merging twice on the same loaded calls gives equal tables |
| `Best.SelectMax` | python/summarize/merge.py:66-68 | fails exactly when some candidate's display is not an integer; none exactly when there is no candidate; otherwise a candidate whose integer display is at least every other candidate's |
| `Best.BestPool` | python/summarize/merge.py:66-74 | a maximal `perfect` pool if any `perfect` entry exists, else a maximal `almost` pool if any `almost` entry exists, else none; fails exactly when the category being sorted has a non-integer display |
| `Best.BestCalls` | python/summarize/merge.py:63-75 | the result has the call table's keys; each reference gets an admissible best choice; the whole call fails exactly when some reference's sort would raise |
| `Best.BestChoiceUpToTies` | python/summarize/merge.py:66-72 | any two admissible choices for a reference agree on whether there is one, on its call, and on its integer display value |
| `Best.BestChoiceExample` | python/summarize/merge.py:66-68 | of two `perfect` pools showing 80 and 95, the one showing 95 is chosen |
| `Best.MergedTableSelectsCleanly` | python/summarize/merge.py:63-75 | on a merged table, `best_calls` finds every key it reads and never fails when `ff` always renders an integer |

## Left out

- File I/O: opening the summary file (line 6) is not modelled. `ParseCallsum` takes the file's lines as already read, each with its terminator. The `'rU'` newline translation belongs to that reader.
- `load_calls` (lines 20-30): path construction and the walk over the analysis tree use foreign objects and file I/O. `MergeCalls` takes the map `load_calls` returns as an input.
- `ff` (lines 32-33): float parsing and rounding are not modelled. `ff` is a parameter. Its own ValueError or OverflowError on a non-numeric or infinite value is therefore not modelled.
- `fp` (lines 35-36): unused, so it is not modelled.
- `CallDisplay`: a missing field (KeyError, lines 40-47) is excluded by the precondition `Displayable` instead of being modelled as an error.
- `MergeCalls`: a pool missing from the loaded calls, or a reference missing from the chosen protocol's summary (KeyError, lines 55-59), is excluded by the preconditions `Mergeable` and `RowMergeable`.
- `MergeCalls`: the source fills `calltable[ref]` in place. The model builds each row in a local map (`MergeRow`) and then stores it. Nothing can observe the difference.
- `BestCalls`: a missing `call` or `display` key (KeyError, lines 66 and 70) is excluded by the precondition `Selectable`.
- `BestCalls`: the source collects `(ref, pool)` pairs in a list and converts it with `dict`. The model fills the map directly, which gives the same map because the keys are distinct.
- `BestCalls`: which of several equal maxima is chosen depends on Python 2 dict iteration order. The contract promises only some maximal pool.
- `BestCalls`: the error carries no data. The model does not say which display value raised the ValueError.
- `PyStr.IntOf`: models `int()` on the plain decimal form: optional surrounding white space, an optional sign, then digits. Any other spelling an interpreter may accept counts as a ValueError here.
- The reference lengths in `reflens` are unused by the source, and the model ignores them too.
- The commented-out printing code (lines 77-79) is not modelled.
