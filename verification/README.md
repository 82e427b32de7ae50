# Claim matcher

A Dafny model of the claim-alignment engine of `claim_matching`. The engine puts the
claims of one patent document into the order of another, authoritative list of
claims. It comes in two near-identical Python scripts:

- `reorder_docs.py` works on two documents. It reads the authoritative claims from a
  Google Patents document (`patent_to_list`) and the claims to reorder from a case
  document (`case_to_list`). It then lists the case claims in the patent's order
  (`reorder_case_claims`).
- `reorder_table.py` works on one two-column Word table. `table_to_lists` reads both
  columns. The left column is reordered against the right one, and the result is
  written back into the table in place (`overwrite_table`, `reorder_claims`).

Both scripts share the same matching machinery, which is modelled once:

- `slice` strips a claim's number.
- `compare_strings` scores two claims by word-count differences.
- `compute_diffs` greedily picks, for each key claim, the earliest candidate with the
  lowest score. In `fast` mode a column picked by an earlier row is skipped.
- `reorder_lists` puts each pick at its key's position.

Layout:

| module (file) | what it holds |
|---|---|
| `Outcomes` (outcomes.dfy) | `Option`, `Result` and the exceptions the scripts can raise |
| `Text` (text.dfy) | the Python string built-ins the scripts use: `in`, `find`, `split`, `replace`, `s[a:b]` |
| `Scoring` (scoring.dfy) | `slice` and `compare_strings` |
| `Aligner` (aligner.dfy) | `compute_diffs` and `reorder_lists` |
| `DocClaims` (doc_claims.dfy) | `patent_to_list`, `case_to_list`, `reorder_case_claims` |
| `TableClaims` (table_claims.dfy) | the `Table` class: `table_to_lists`, `overwrite_table`, `reorder_claims` |

How the model is built:

- Every loop of the scripts is a `method` with a `while` or `for` loop.
- Each such method is proved equal to a specification function, such as `PatentScan`,
  `CaseClaims`, `Diffs`, `Columns` or `Overwrite`.
- The lemmas then state what those functions mean.
- A document is the sequence of its paragraph texts, and a table is an array of
  `Row(left, right)` values that `OverwriteTable` updates in place.
- Exceptions are `Err` values:
  - the `IndexError` of `split(...)[1]` is `SeparatorNotFound`;
  - the `TypeError` of `matched[None]` is `NoUnmatchedCandidate`;
  - any other `IndexError` is `IndexOutOfRange`.
- The `float("inf")` score of a skipped column is the `Inf` constructor of `Score`.
- The pick that Python appends as the last element of each score row is the `closest`
  field of `DiffRow`.

Where the code does something other than a natural reading of the scripts' intent,
the model follows the code:

- `case_to_list` returns no claim when no paragraph opens a numbered claim. It does
  not return one claim holding all the text, because `paras[1:]` drops the only
  accumulated entry.
- `patent_to_list` steps over one extra paragraph after any paragraph that starts
  with "What", including one inside the claims. So the claims are the paragraphs
  `h + 2, h + 4, ...` after the header `h` only when no claim starts with "What".
- An empty key list is not an error. `compute_diffs` returns no rows, and
  `reorder_case_claims` yields one `""` per case claim.
- The reordered list is as long as the candidate list, not the key list. Positions
  past the key's length hold `""`. In the relaxed (non-`fast`) mode that both scripts
  use, a key list longer than the candidate list makes `reorder_lists` raise
  `IndexError`. In `fast` mode, with every claim numbered, `compute_diffs` raises first,
  at `matched[None]`.
- Running `case_to_list` on its own output does not give the same list back. Line 142
  of reorder_docs.py puts " " before every claim, so each claim read again gains another leading space
  (`ReadAgain`, `ReadAgainExample`). With that space, a claim numbered 1000 or more has
  its "." outside `item[1:5]`, so it no longer opens a claim and is appended to the one
  before it (`ReadAgainMerges`).
- There is no low-confidence threshold and no per-pair error reporting.

## Model

| member | source | states |
|---|---|---|
| Scoring.Slice | reorder_docs.py:14-21 | succeeds exactly when `prefix` is non-empty and occurs in the claim; then the claim is the text before the first occurrence, `prefix`, and the result; ValueError for an empty `prefix`, IndexError when it does not occur |
| Scoring.SliceClaim | reorder_table.py:14-20 | succeeds exactly when the claim holds a "."; IndexError otherwise |
| Scoring.SliceClaimFirstDot | reorder_table.py:14-20 | `slice(claim)` of the table script equals `slice(claim, ".")` of the document script and cuts at the first "." (no "." before it) |
| Scoring.Tally | reorder_docs.py:33-39 | the count dictionary has exactly the words of the list as keys, each mapped to its number of occurrences |
| Scoring.CompareStrings | reorder_docs.py:23-46 | the result is the sum, over the distinct words of `str1`, of the absolute difference of their counts in `str1` and `str2` |
| Scoring.DiscrepancyZero | reorder_docs.py:41-46 | the score is 0 exactly when every word of `str1` occurs equally often in `str2` |
| Scoring.DiscrepancySameWords | reorder_docs.py:23-46 | strings with the same word multiset score 0; in particular `compare_strings(s, s) == 0` |
| Scoring.DiscrepancyAsymmetric | reorder_docs.py:41-46 | `compare_strings("a", "a b") == 0` but `compare_strings("a b", "a") == 1`: the score is not symmetric |
| Scoring.SliceAfterNumber | reorder_table.py:14-20 | a claim numbered with one digit and "." slices to the text after that "." |
| Scoring.WidgetInSmallWidget | reorder_docs.py:41-46 | `compare_strings(" A widget.", " A small widget.") == 0`: extra words in the candidate cost nothing |
| Scoring.WidgetNotInGadgetDevice | reorder_docs.py:41-46 | `compare_strings(" A widget.", " A gadget device.") > 0`: a word of the key missing from the candidate costs |
| Text.Find | reorder_docs.py:21 | `str.find`: the first index where `sub` occurs, none exactly when it never occurs |
| Text.ContainsChar | reorder_docs.py:21 | for a one-character separator, "occurs as a substring" is plain membership |
| Text.AfterFirst | reorder_table.py:20 | the text after the first `c` exists exactly when `c` occurs |
| Text.AfterFirstCuts | reorder_table.py:20 | the string is the text before its first `c` (holding no `c`), then `c`, then the text after it |
| Text.AfterFirstAt | reorder_table.py:20 | the text after the first `c` of `x + c + y`, where `x` holds no `c`, is `y` |
| Text.Split | reorder_docs.py:31-32 | `split(" ")` yields at least one piece and no piece holds the separator |
| Text.JoinSplit | reorder_docs.py:31-32 | joining the pieces of `split` with the separator gives back the string |
| Text.SplitJoin | reorder_docs.py:31-32 | splitting the join of pieces that hold no separator gives back the pieces |
| Text.Remove | reorder_docs.py:137 | `replace("\n", "")` leaves no newline, and a character other than a newline occurs in the result exactly when it occurs in the string; order and number are given by `RemoveConcat` |
| Text.RemoveAbsent | reorder_docs.py:137 | `replace` of a character that does not occur returns the string unchanged |
| Text.RemoveConcat | reorder_docs.py:137 | `replace("\n", "")` works piece by piece, so the remaining characters keep their order and number; with `RemoveAbsent` this fixes the result completely |
| Text.Substitute | reorder_docs.py:138 | `replace("\t", " ")` keeps the length and changes exactly the tab positions |
| Text.PySlice | reorder_docs.py:139 | `item[1:5]` holds the characters of `item` from index 1 up to index 5 or the end, whichever comes first, and is empty when the string is shorter than 2 |
| Aligner.Closest | reorder_docs.py:64-71 | a row's pick: none exactly when every entry is `inf`; otherwise a finite entry no larger than any finite entry and strictly below every finite entry before it (the earliest minimum) |
| Aligner.RowScores | reorder_docs.py:66-73 | one entry per candidate: the score of the sliced claims for an eligible column, `inf` for a skipped one |
| Aligner.ScoreRowSpec | reorder_docs.py:64-75 | a row that returns has one score per candidate and picks an eligible column inside the list |
| Aligner.RowSpecOutcome | reorder_docs.py:65-74 | a row returns exactly when some column is eligible and every claim it slices has a "."; otherwise IndexError when a column is eligible, `matched[None]` when none is |
| Aligner.RowSpecUnnumbered | reorder_docs.py:67-68 | an eligible column meeting a claim without "." makes the row raise IndexError |
| Aligner.RowSpecFacts | reorder_docs.py:66-75 | in a returned row, `inf` marks exactly the ineligible columns, eligible columns hold the score of the sliced claims, and the pick is the row's earliest minimum |
| Aligner.ScoreClaim | reorder_docs.py:68 | `compare_strings(slice(item, "."), slice(test, "."))` succeeds exactly when both claims hold a "." and then returns their score |
| Aligner.ScoreRow | reorder_docs.py:64-75 | the inner loop returns the specified row, or raises as specified |
| Aligner.ComputeDiffs | reorder_docs.py:48-78 | the outer loop, flagging each row's pick in `matched`, returns the specified matrix or raises as specified |
| Aligner.MarksPicked | reorder_docs.py:74 | after some rows, flag `j` is set exactly when one of those rows picked column `j` |
| Aligner.DiffsComputed | reorder_docs.py:63-76 | every row of the returned matrix is the inner loop's result under the flags set by the rows before it |
| Aligner.DiffsRow | reorder_docs.py:62-76 | row `i` has one entry per candidate; entry `j` is `inf` exactly when `fast` is set and an earlier row picked `j`, and otherwise the score of the sliced claims; the pick is the earliest least finite entry |
| Aligner.FastPicksDistinct | reorder_docs.py:67-74 | with `fast`, no two rows pick the same candidate |
| Aligner.RelaxedPicksEarliestBest | reorder_docs.py:66-71 | without `fast`, every row picks the earliest candidate with the least score against its key claim, whatever earlier rows picked |
| Aligner.RelaxedMayRepeat | reorder_docs.py:67-74 | without `fast`, two key claims may pick the same candidate; with `fast`, the same lists raise at `matched[None]` |
| Aligner.ExampleScores | reorder_docs.py:68 | "1. A widget." scores strictly lower against "1. A small widget." than against "2. A gadget device." |
| Aligner.FastTwoByTwo | reorder_docs.py:62-76 | with `fast`, two numbered keys and two candidates where the first key prefers the second candidate give picks 1 and then 0 |
| Aligner.ExclusiveExample | reorder_docs.py:62-76 | with `fast`, the keys "1. A widget.", "2. A gadget." pick "1. A small widget." and then "2. A gadget device." |
| Aligner.DiffsFromSucceeds | reorder_docs.py:63-76 | from row `i` on, the loop returns exactly when no key claim is left, or candidates remain (enough of them under `fast`) and every remaining claim holds a "."; otherwise it raises `matched[None]` when every remaining claim and candidate holds a ".", and IndexError when candidates remain (enough of them under `fast`) but a claim lacks one; `DiffsFromErrorKind` settles the remaining case |
| Aligner.DiffsSucceeds | reorder_docs.py:48-78 | compute_diffs returns exactly when `key` is empty, or `other` is non-empty (and under `fast` at least as long as `key`) and every claim of both lists holds a "."; an empty `other` with a non-empty `key` raises at `matched[None]` |
| Aligner.DiffsFromErrorKind | reorder_docs.py:63-76 | from row `i` on, with a non-empty `other`, a raised error is IndexError or `matched[None]`, and it is IndexError exactly when a candidate or one of the key claims from `i` up to `ScoredRows` (the rows that still get a column) lacks a "." |
| Aligner.DiffsErrorKind | reorder_docs.py:48-78 | with a non-empty `other`, compute_diffs raises only IndexError or `matched[None]`, and IndexError exactly when a candidate or one of the first `ScoredRows` key claims lacks a "." (all of `key`, or under `fast` only the first `len(other)` of them) |
| Aligner.ReorderLists | reorder_docs.py:80-91 | returns `key` unchanged and a list as long as `other` whose position `i < len(key)` holds `other[diffs[i][-1]]` and whose later positions hold `""`; IndexError exactly when `key` is longer than `diffs` or `other`, or a pick is out of range |
| DocClaims.PatentToList | reorder_docs.py:100-118 | the while loop over paragraphs, with its two flags, returns what the specified scan appends |
| DocClaims.FirstHeader | reorder_docs.py:114-115 | the first paragraph starting with "What", or none exactly when there is none |
| DocClaims.PatentAfterFooter | reorder_docs.py:109-110 | once the footer flag is off, nothing more is appended |
| DocClaims.PatentInClaims | reorder_docs.py:105-117 | after the header, the scan appends every second paragraph up to the first empty one, stepping one further after a paragraph starting with "What" |
| DocClaims.PatentBeforeHeader | reorder_docs.py:114-117 | paragraphs before the first header are skipped, and the claims start two paragraphs after it |
| DocClaims.PatentWithoutHeader | reorder_docs.py:103-118 | with no header paragraph, nothing is appended |
| DocClaims.PatentToListMeaning | reorder_docs.py:103-118 | patent_to_list returns `[]` without a "What" header, and otherwise the claims read from two paragraphs after the first header |
| DocClaims.ClaimsFromNonEmpty | reorder_docs.py:109-112 | every claim read after the header is a non-empty paragraph |
| DocClaims.PatentClaimsNonEmpty | reorder_docs.py:109-112 | no claim patent_to_list returns is empty |
| DocClaims.ClaimsFromStride | reorder_docs.py:111-117 | when no later paragraph starts with "What", the claims are paragraphs `j, j+2, j+4, ...` in order, up to the end or the first empty one |
| DocClaims.Clean | reorder_docs.py:137-138 | a cleaned paragraph holds no newline and no tab |
| DocClaims.CleanKeeps | reorder_docs.py:137-138 | a paragraph without a newline comes back with each tab turned into a space and every other character unchanged in its place |
| DocClaims.OpensClaimMeaning | reorder_docs.py:139 | a paragraph opens a claim exactly when it has a "." at one of the indices 1 to 4 |
| DocClaims.CaseToList | reorder_docs.py:127-146 | the accumulator loop returns the specified claim list, with the text before the first claim dropped |
| DocClaims.CaseClaimsSnoc | reorder_docs.py:133-146 | one more paragraph at the end of the document: a cancelled one changes nothing; an opening one adds the claim " " + its cleaned text; any other one extends the last claim with " " + its cleaned text, or is dropped when no claim has opened yet. With `CaseClaimsShape` on the empty document this fixes the result completely |
| DocClaims.ReadAgain | reorder_docs.py:139-142 | a clean, uncancelled paragraph that opens a claim comes back as `" " + paragraph`, so reading one of case_to_list's own claims again does not give it back |
| DocClaims.ReadAgainExample | reorder_docs.py:139-146 | "1. A" is read as " 1. A", and " 1. A" read again as "  1. A" |
| DocClaims.ReadAgainMerges | reorder_docs.py:139-142 | read again, the claims " 1. A" and " 1000. B" become one claim: the "." of a number of four digits or more falls outside `item[1:5]` once the leading space is there |
| DocClaims.CaseClaimsShape | reorder_docs.py:133-146 | case_to_list returns one claim per non-cancelled paragraph whose cleaned text opens a claim (none when there is none), claim `t` beginning with " " and the `t`-th such paragraph |
| DocClaims.CaseClaimsFlat | reorder_docs.py:133-146 | no returned claim holds a newline or a tab |
| DocClaims.CancelledIgnored | reorder_docs.py:136 | inserting a paragraph containing "(Canceled)" anywhere changes nothing |
| DocClaims.PreambleDiscarded | reorder_docs.py:145-146 | paragraphs before the first one that opens a claim do not affect the result |
| DocClaims.ReorderCaseClaims | reorder_docs.py:155-158 | succeeds exactly when the patent has no claim, or the case has at least as many claims and every claim of both has a "."; then yields, per patent claim, a case claim that is the earliest best match for it, and `""` for the remaining positions; otherwise raises the kind of error that applies |
| TableClaims.Lefts | reorder_table.py:93-98 | the left column has `1 + rows / 2` entries |
| TableClaims.Rights | reorder_table.py:93-98 | the right column has `1 + rows / 2` entries |
| TableClaims.ColumnsReadEntryRows | reorder_table.py:93-98 | entry `k` of each column is the cell of row 0 (`k = 0`) or row `2k - 1`, and every such row is read |
| TableClaims.ColumnsIgnoreBlankRows | reorder_table.py:95-97 | tables that agree on their entry rows give the same columns, whatever the blank rows hold |
| TableClaims.OverwriteMeaning | reorder_table.py:100-111 | overwrite_table writes both lists' entries into row 0 and rows `2i - 1` up to the first missing one, writes a lone left cell where `right` runs out first, leaves every other row (the blank rows included) as it was, and succeeds exactly when `1 <= len(left) <= len(right)` and the table has a row for every entry |
| TableClaims.ReadAfterOverwrite | reorder_table.py:87-111 | after a successful overwrite, reading the table gives the written lists followed by the entries not reached; lists as long as the columns are read back unchanged |
| TableClaims.OverwriteWithColumns | reorder_table.py:87-111 | writing back the columns just read succeeds and leaves the table unchanged |
| TableClaims.Table.TableToLists | reorder_table.py:87-98 | the stride-two loop returns the specified columns, or IndexError for a table without rows |
| TableClaims.Table.OverwriteTable | reorder_table.py:100-111 | updates the rows in place as specified and returns the specified outcome |
| TableClaims.Table.ReorderClaims | reorder_table.py:124-128 | fails only on a table without rows or a claim without "." below the header, leaving the table as it was; otherwise keeps the header row, the right column and the blank rows, and puts in each left entry below the header the left-column claim that is the earliest best match for the right-column claim beside it |
| TableClaims.ReorderedTable | reorder_table.py:124-128 | writing the old left header and the picks, with the table's own right column, succeeds and leaves a reordered table |
| TableClaims.TailWritten | reorder_table.py:127-128 | that write keeps the header row, the right column and the blank rows, and puts pick `k - 1` into left entry `k` |
| TableClaims.PicksAreEarliestBest | reorder_table.py:125 | with `fast` off, every pick is in range and is the earliest best match for its key claim |
| TableClaims.OverwriteLeftColumn | reorder_table.py:100-111 | overwriting with a full-length left column and the table's own right column succeeds and changes only the left cells of the entry rows |

The duplicate `compare_strings`, `compute_diffs` and `reorder_lists` of
reorder_table.py (lines 22-85) are the same code as their reorder_docs.py
counterparts, so the same members model them.

## Left out

- Opening, clearing and saving .docx files, and `doc.tables[0]`, are not modelled. A document is its paragraph texts and a table is an array of rows.
- `reorder_case_claims` also writes each reordered claim and a blank paragraph into a new document. That is I/O, so `ReorderCaseClaims` returns the list it would write.
- The output file name `file.split(".")[0] + "_reordered.docx"` is not modelled, because it is only I/O naming.
- The module-level `try`/`except`, `print` and `time.sleep` are not modelled, because they are console and timing glue.
- The unused local `reorder` of `compute_diffs` is not modelled, because nothing reads it.
- `compute_diffs` takes its `slice` function as a parameter. Both callers pass a slice that cuts at the first ".", so the model fixes that function rather than taking one.
- Floating point is not modelled. `float("inf")` appears only as the score of a skipped column, and `Inf` stands for it.
- Python's exception classes are merged into four error kinds. The model does not separate the message or the exact class beyond those kinds.
- Low-confidence thresholds, an error for an empty key list, a count-mismatch error and batch pairing of files are not modelled, because the code has none of them.
