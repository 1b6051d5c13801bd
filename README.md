# OCR window and record segmenter, in Dafny

A model of the text-processing core of `ocr.py`. The script reads automation
rules off screenshots of a rule-editor UI.

- `get_text_ocr` keeps the recognised texts between the `"ACTION"` header and
  the last `"Select"` button and joins them with newlines.
- `split_by_description` cuts that text into one record per
  `If description ...` condition. It then repairs the records with a fixed
  chain of passes:
  1. split at the delimiter;
  2. merge a short first group;
  3. reattach the seam lines;
  4. remove `"Select"` and restore the delimiter;
  5. collapse a multi-line `"Rename"`;
  6. merge a condition split before a later `"If "` line.

Modules, one per concern:

- `Wrappers`: `Option` and `Result`.
- `Text`: the Python string operations the script uses (`str.isspace`,
  `strip`, `split("\n")`, `join`, `startswith`), over ASCII.
- `Delimiter`: the pattern `I?f?\s*?description` under `re.I`, written as a
  backtracking matcher in the order Python's `re` tries alternatives, and
  `re.split` on it. It is proved equal to a declarative reading of the pattern.
- `Window`: `get_text_ocr` after recognition. The OCR result is a parameter.
- `Segmenter`: `split_by_description`. Each loop of the script is a method
  proved equal to a function of its input. The properties of the passes are
  lemmas about those functions.

Four behaviours of the code are worth knowing before reading the model:

- The window includes the `"Select"` fragment that ends it, because
  `end = len(data) - k` is one past that fragment (`Window.WindowBetweenMarkers`).
- A record left with fewer than two lines after `"Select"` removal raises
  `IndexError` at `ocr.py:70`. That aborts the whole call; the model returns
  `Failure(IndexError)`. The text
  `"Header\nJunk\nIf description: X is true\nRename A to B\nExtra\nSelect\nIf description: Y is false\nFinal"`
  takes this path: the call raises instead of returning records. Its raw
  groups, worked out from the text by hand following `re.split`, are the ones
  in `Segmenter.SelectSeamFails`: the seam moves `"Select"` to the front of the
  last record, and removal leaves that record one line. In general the call
  fails when a group ends in `"Select"` and the next group, without its own
  last line, keeps fewer than two lines other than `"Select"`
  (`Segmenter.SelectSeamFailsWhen`).
- Line 1 of a result record starts with `"If description"` when line 0 of the
  cleaned record starts with neither `"Rename"` nor `"If "`
  (`Segmenter.RepairKeepsDelimiter`). A leading multi-line `"Rename"` can join
  the restored line into line 0 (`Segmenter.LeadingRenameSwallowsDelimiter`).
- The `"Rename"` pass is not idempotent: the last qualifying `"Rename"` line
  wins, and with two qualifying lines a second run can collapse again at the
  earlier one (`Segmenter.RenameCollapseNotIdempotent`). With at most one
  `"Rename"` line it settles after one run (`Segmenter.RenameCollapseSettles`).
- The `"If "` pass keeps merging after its first merge. It reads lines from the
  original group but slices the already shortened `new_group` at the original
  index, so the `"If "` line that triggers a later merge can itself be joined
  into line 1 (`Segmenter.ConditionMergeChains`).

## Model

| member | source | states |
|---|---|---|
| Text.TrimLeft | ocr.py:52 | the result is a suffix of the input; all of what it drops is whitespace; it does not start with whitespace |
| Text.TrimRight | ocr.py:52 | the result is a prefix of the input; all of what it drops is whitespace; it does not end with whitespace |
| Text.Strip | ocr.py:52 | `strip()` is the slice of the text that starts where `lstrip()` starts, with only whitespace before and after it; it is empty exactly when the text is all whitespace, and otherwise neither starts nor ends with whitespace |
| Text.SplitLines | ocr.py:52 | `split("\n")` gives at least one line, no line holds a newline, and joining the lines with newlines gives the text back |
| Text.SplitJoinedLines | ocr.py:36 | splitting a newline-join of newline-free lines gives those lines back |
| Text.JoinStartsWithFirst | ocr.py:80 | a join starts with its first part |
| Text.SpaceJoinAvoids | ocr.py:80 | a space-join of parts that do not include a space-free word is not that word |
| Delimiter.SpacesThenWord | ocr.py:49 | the lazy `\s*?description` ends after blanks and then the word, in any letter case |
| Delimiter.MatchAt | ocr.py:49 | a match from p ends after p and inside the text |
| Delimiter.MatchAtIffDelimiter | ocr.py:49-51 | the matcher finds a match from p ending at e exactly when `s[p..e]` is `I?f?`, blanks and `description`, in any letter case |
| Delimiter.FindMatch | ocr.py:51 | the match found lies inside the searched range |
| Delimiter.FindMatchIsLeftmost | ocr.py:51 | the search stops at the first position holding a match, and no match starts before it |
| Delimiter.SplitSpec | ocr.py:51 | `re.split` gives one piece more than delimiters; putting the delimiters back rebuilds the text; every delimiter matches the pattern; every cut is leftmost, so no match starts inside a piece even if it would run past the piece's end; no piece contains a match |
| Delimiter.SplitUnique | ocr.py:51 | any cut of the text with the properties of `SplitSpec` is the one `re.split` makes |
| Delimiter.SplitTakesLeadingI | ocr.py:49-51 | `re.split` on "idescription" gives `["", ""]`: the optional `I` belongs to the match, so no "i" piece is left before it |
| Delimiter.SplitWithoutDelimiter | ocr.py:51 | text without a match splits into itself alone |
| Delimiter.BlankHasNoDelimiter | ocr.py:49 | whitespace-only text holds no match |
| Window.FirstIndex | ocr.py:24-27 | the index of the first occurrence, or the length when absent; nothing before it is the sought text |
| Window.EndAfterLast | ocr.py:30-33 | one past the last occurrence, or 0 when absent; nothing after it is the sought text |
| Window.FindBounds | ocr.py:21-33 | the two scans with `break` compute the window's start and end |
| Window.GetTextOcr | ocr.py:18-41 | a failed recognition gives ""; otherwise the window's texts are joined with newlines |
| Window.WindowStartSpec | ocr.py:21-27 | the start is 0 without "ACTION", else one past the first "ACTION" |
| Window.WindowEndSpec | ocr.py:21-33 | the end is the length without "Select", else one past the last "Select", which stays in the window |
| Window.NoMarkersWholeWindow | ocr.py:21-36 | without either marker the window is all the texts |
| Window.CrossedMarkersEmptyWindow | ocr.py:36 | when the start is not before the end the window is empty |
| Window.WindowBetweenMarkers | ocr.py:21-36 | with one "ACTION" at a and one "Select" at b > a, the window is `texts[a+1..b+1]`, ending with "Select" |
| Window.WindowTextSplitsBack | ocr.py:36 | the joined window text splits back into the window's texts when none holds a newline |
| Segmenter.KeepNonBlank | ocr.py:52 | one group per non-blank piece, in order: group j joined with newlines is the j-th non-blank piece stripped; every group has a line, no line holds a newline, and its text is stripped and not blank |
| Segmenter.NonBlankConcat | ocr.py:52 | the blank-piece filter works piece by piece: it distributes over concatenation |
| Segmenter.KeepNonBlankLines | ocr.py:52 | group j is exactly `split("\n")` of the j-th non-blank stripped piece |
| Segmenter.BlankTextNoGroups | ocr.py:51-52 | empty or blank text gives no group |
| Segmenter.UndelimitedTextOneGroup | ocr.py:51-52 | text with no delimiter is one group: its stripped lines |
| Segmenter.MergeFirst | ocr.py:55-56 | the count drops by one exactly when there are two groups or more and the first has fewer than three lines; otherwise nothing changes; the lines in order and the groups from index 2 on are kept |
| Segmenter.ReattachSeams | ocr.py:58-63 | the loop builds the reattached groups |
| Segmenter.ReattachedShape | ocr.py:58-63 | one record per group; record 0 loses its last line; record i > 0 starts with the last line of group i-1 and has the length of group i |
| Segmenter.ReattachedKeepsLines | ocr.py:58-63 | read in order, the records hold all lines of the groups except the very last |
| Segmenter.RemoveSelect | ocr.py:69 | no line of the result is "Select"; a group without "Select" is kept as it is |
| Segmenter.RemoveSelectConcat | ocr.py:69 | the filter works line by line: it distributes over concatenation, so kept lines stay in order |
| Segmenter.RemoveSelectKeepsOthers | ocr.py:69 | every line other than "Select" occurs in the result as often as in the group |
| Segmenter.CleanedGroupSpec | ocr.py:69-70 | a group with two lines or more left becomes a record of the filtered group's length, with no "Select", line 1 equal to "If description" glued to the old line 1, and every other line that of the filtered group |
| Segmenter.CleanedSpec | ocr.py:66-71 | cleaning fails exactly when some group has fewer than two lines without "Select"; otherwise one record per group, each of its filtered group's length (two or more), with no "Select", line 1 being "If description" glued to the old line 1, and every other line that of the filtered group |
| Segmenter.CleanGroups | ocr.py:66-71 | the loop computes `Cleaned`, stopping at the first short group |
| Segmenter.LastRename | ocr.py:77-79 | the last index where a line starts with "Rename" and has two lines or more after it |
| Segmenter.CollapseRename | ocr.py:76-80 | the loop over one group computes the collapse |
| Segmenter.CollapseRenames | ocr.py:74-81 | one collapsed group per cleaned group |
| Segmenter.RenameCollapsedSpec | ocr.py:76-80 | without a qualifying "Rename" line the group is unchanged; otherwise, with i the last one, the result is `group[:i] + [" ".join(group[i:-1])] + [group[-1]]`, of length i+2, keeping the last line |
| Segmenter.RenameCollapsedKeepsShape | ocr.py:76-80 | two lines or more stay two or more, and no "Select" appears |
| Segmenter.RenameCollapseSettles | ocr.py:76-80 | with at most one "Rename" line, a second run changes nothing |
| Segmenter.RenameCollapseNotIdempotent | ocr.py:76-80 | a second run can collapse again: on a group with two qualifying "Rename" lines it collapses at the earlier one |
| Segmenter.FirstCondition | ocr.py:90-91 | the first index of a line starting with "If ", and none before it |
| Segmenter.MergeConditions | ocr.py:86-93 | the nested loops with `break` compute the condition merge |
| Segmenter.MergeAllConditions | ocr.py:84-94 | one merged group per processed group |
| Segmenter.SingleConditionUnchanged | ocr.py:86-93 | a group with at most one line starting with "If " comes out unchanged |
| Segmenter.ConditionMergeChains | ocr.py:86-93 | on `["x", "If a", "y", "If b", "If c"]` a first merge at index 3 gives four lines, and the "If c" line at original index 4 then merges the whole rest, itself included, into line 1 |
| Segmenter.ConditionMergeKeepsSuffix | ocr.py:92 | a merge at i keeps `new_group[i:]` after the two joined lines |
| Segmenter.ConditionsMergedKeepShape | ocr.py:86-93 | two lines or more stay two or more, and no "Select" appears |
| Segmenter.ConditionsMergedKeepDelimiter | ocr.py:86-93 | when line 0 is not a condition and line 1 starts with "If description", both stay so |
| Segmenter.SplitByDescription | ocr.py:44-96 | the whole function: the passes in order, failing with IndexError where the script raises it |
| Segmenter.BlankTextNoRecords | ocr.py:51-52 | empty or blank text gives no record and no error |
| Segmenter.RepairFailsOnShortGroup | ocr.py:68-70 | the call fails exactly when a reattached group has fewer than two lines without "Select" |
| Segmenter.RepairedRecordsShape | ocr.py:55-94 | one record per merged group; every record has two lines or more and none is "Select" |
| Segmenter.SegmentedRecordsShape | ocr.py:44-96 | every returned record has two lines or more, and no line is "Select" |
| Segmenter.RepairKeepsDelimiter | ocr.py:70-93 | line 1 of a record starts with "If description" when its line 0 starts with neither "Rename" nor "If " |
| Segmenter.LeadingRenameSwallowsDelimiter | ocr.py:76-80 | a leading multi-line "Rename" joins the restored line 1 into line 0 |
| Segmenter.SelectSeamFailsWhen | ocr.py:55-70 | when a merged group ends in "Select" and the next group, without its last line, keeps fewer than two lines other than "Select", the call fails with IndexError |
| Segmenter.SelectSeamFails | ocr.py:55-70 | raw groups whose middle group ends in "Select" and whose last group has two lines fail at ocr.py:70 |
| Segmenter.ShortFirstGroupMerged | ocr.py:55-94 | raw groups of 2, 1 and 3 lines give two records, with their exact contents |
| Text.IsSpace | ocr.py:49-52 | definition: the ASCII characters for which `str.isspace` holds, behind `strip()` and `\s` |
| Text.StartsWith | ocr.py:78 | definition of `str.startswith`: the prefix is the first characters of the text |
| Text.Join | ocr.py:36 | definition of `sep.join(parts)`; `SplitJoinedLines`, `JoinStartsWithFirst` and `SpaceJoinAvoids` state its properties |
| Delimiter.Lower | ocr.py:51 | definition: the ASCII case folding of `re.I` |
| Delimiter.IsDelimiter | ocr.py:49 | definition: the declarative reading of `I?f?\s*?description` under `re.I`; `MatchAtIffDelimiter` ties the matcher to it |
| Delimiter.SplitFrom | ocr.py:51 | definition: the pieces of `re.split` from a position on; `SplitSpec` and `SplitUnique` fix them |
| Delimiter.DelimitersFrom | ocr.py:51 | definition: the matched delimiters of `re.split` from a position on, fixed by `SplitSpec` |
| Delimiter.Split | ocr.py:51 | definition of `re.split(split_pattern, text, flags=re.I)`; `SplitSpec` and `SplitUnique` characterise it |
| Delimiter.Delimiters | ocr.py:51 | definition: the delimiters `re.split` cuts out, in order, fixed by `SplitSpec` |
| Window.WindowStart | ocr.py:21-27 | definition of `start`; `WindowStartSpec` states its value |
| Window.WindowEnd | ocr.py:21-33 | definition of `end`; `WindowEndSpec` states its value |
| Window.Slice | ocr.py:36 | definition of Python's `data[start:end]`, empty when start is not before end |
| Window.Window | ocr.py:36 | definition: the recognised texts of `data[start:end]`; the window lemmas state what they are |
| Segmenter.KeptPiece | ocr.py:52 | definition: one stripped piece when it is not blank, else none |
| Segmenter.NonBlank | ocr.py:52 | definition: the stripped non-blank pieces in order; `NonBlankConcat` and `KeepNonBlank` state its properties |
| Segmenter.RawGroups | ocr.py:51-52 | definition of `groups` after line 52; `KeepNonBlank`, `KeepNonBlankLines` and `SplitSpec` fix its contents |
| Segmenter.DropLast | ocr.py:61 | definition of Python's `group[:-1]`, empty for an empty group |
| Segmenter.Reattached | ocr.py:58-63 | definition of `structured_groups`; `ReattachedShape` and `ReattachedKeepsLines` fix its contents |
| Segmenter.Restore | ocr.py:70 | definition of `cleaned_group[1] = delimiter + cleaned_group[1]` |
| Segmenter.CleanedGroup | ocr.py:69-70 | definition of one turn of the cleaning loop; `CleanedGroupSpec` states its contents |
| Segmenter.Cleaned | ocr.py:66-71 | definition of `cleaned_groups` or the IndexError; `CleanedSpec` states it |
| Segmenter.CollapseAt | ocr.py:80 | definition of `group[:i] + [" ".join(group[i:-1])] + [group[-1]]` |
| Segmenter.RenameCollapsedUpTo | ocr.py:76-80 | definition of `new_group` after the inner loop has seen the first n lines |
| Segmenter.RenameCollapsed | ocr.py:76-80 | definition of one group's `new_group`; `RenameCollapsedSpec` states it |
| Segmenter.Take | ocr.py:89 | definition of Python's `s[:n]`, which stops at the end of s |
| Segmenter.Drop | ocr.py:92 | definition of Python's `s[n:]`, empty past the end of s |
| Segmenter.ConditionStep | ocr.py:88-93 | definition of one turn of the outer loop: a merge slices the current `new_group` at the original index i |
| Segmenter.ConditionsMergedUpTo | ocr.py:86-93 | definition of `new_group` after the outer loop has seen the first n lines of the original group |
| Segmenter.ConditionsMerged | ocr.py:86-93 | definition of one group's final `new_group`; the pass 6 lemmas state its properties |
| Segmenter.Repair | ocr.py:55-94 | definition of passes 2 to 6 on the raw groups; the whole-chain lemmas state its properties |
| Segmenter.Segmented | ocr.py:44-96 | definition of `split_by_description(text)`, with the IndexError as Failure |

## Left out

- The OCR engine: the `easyocr` import, the reader and `reader.readtext` (ocr.py:2, 6, 20). `GetTextOcr` takes the recognised texts as `Option<seq<string>>`, with `None` for a failed recognition. Only the text of each fragment is kept, not its region or confidence.
- The `except` branch that prints the error (ocr.py:38-39): only its result, `""`, is modelled.
- Filename generation and the driver loop with `print` (ocr.py:9-10, 100-103): I/O.
- `Delimiter.MatchAt`: only the one fixed pattern, not Python's `re` engine. Case folding covers ASCII letters only, and whitespace is the ASCII characters for which Python's `str.isspace` holds. Unicode case folding and Unicode whitespace in `strip()` and `\s` are not modelled.
- `Segmenter.SplitByDescription`: the `IndexError` is a `Failure` result, not an exception. The script has no handler for it, so the failure ends the whole call either way.
