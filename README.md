# Sortable task table and playbook preview, in Dafny

This project models two pieces of the JusticeBench website.

**The sortable task table** (`src/components/SortableTaskTable.tsx`) lists tasks.
- It keeps a sort state: the selected column (`code`, `title` or `categoryTitle`) and a direction flag. A fresh table sorts by code, ascending.
- Clicking a header flips the direction of the active column, or selects another column in ascending order.
- The displayed rows are a copy of the input sorted with a comparator. The comparator compares the selected field, with a missing field read as the empty string, and negates the result when descending.
- Each row is rendered through fixed fallbacks: code or `—`, title or `Untitled task`, the plain text of the first rich-text block, category title or `—`, a link only when the slug is non-empty (truthy), and an icon only when its URL is non-empty (truthy).

**The playbook preview** (`prepare` in `studio/schemaTypes/playbook.ts`) formats a playbook for the studio's document list.
- The title is the document title, a space, and the version in parentheses when the version is truthy. When the version is falsy, the title just ends in a trailing space.
- The subtitle is the playbook type and the status, each with a default.

How the model is laid out:
- `js.dfy` (`Js`) holds the JavaScript conventions the code relies on: optional values, `??`, `||` on strings, and how a template literal prints an absent value.
- `collation.dfy` (`Collation`) models `localeCompare`. It is a parameter `collate` that must be a consistent comparator (`IsCollation`: sign-antisymmetric, and "sorts no later than" is transitive). Distinct strings may compare equal, as under a locale collation. `Lexicographic` is proved to be one such comparator.
- `task_rows.dfy` (`TaskRows`) holds the row shape and the sort keys.
- `task_sort.dfy` (`TaskSort`) holds:
  - the comparator;
  - the specification `SortedRows` (a stable insertion sort), with its permutation, ordering and stability properties;
  - the theorem that `SortedRows` is the *only* ordered arrangement that keeps tied rows in input order. This is why the runtime's stable `Array.prototype.sort` must produce it, whatever algorithm it uses.
  - the in-place array sort, proved equal to `SortedRows`.
- `task_cells.dfy` (`TaskCells`) holds the cell fallbacks.
- `task_table.dfy` (`TaskTable`) holds:
  - the click state machine and the header labels;
  - the class `SortableTaskTable`, with its two state fields, `ClickHeader` and `Rows`. `Rows` copies the input into a fresh array and sorts that array in place.
- `playbook_preview.dfy` (`PlaybookPreview`) holds `prepare`.

## Model

| member | source | states |
|---|---|---|
| Js.Coalesce | src/components/SortableTaskTable.tsx:72-73 | `??`: the result is the default or the value that is present, nothing else; when each occurs is stated by `CoalesceShowsDefault` |
| Js.Or | studio/schemaTypes/playbook.ts:207 | `||` on a string: the result is the default or the value that is present, and a non-empty default never yields `''`; specified further by `OrVersusCoalesce` |
| Js.Interpolate | studio/schemaTypes/playbook.ts:206 | `${…}`: the text is `undefined` or the present value, and `undefined` exactly for an absent value or that very text; specified further by `InterpolateUndefined` |
| Js.CoalesceShowsDefault | src/components/SortableTaskTable.tsx:72-73 | `??` yields its default exactly when the value is missing or is the default itself; a present empty string is kept |
| Js.OrVersusCoalesce | studio/schemaTypes/playbook.ts:207 | `\|\|` differs from `??` only on a present empty string, which it replaces by the default; with a non-empty default it never yields `''` |
| Js.InterpolateUndefined | studio/schemaTypes/playbook.ts:206 | a template literal prints `undefined` exactly for an absent value (or that very text) and otherwise the value itself |
| Collation.CollationBasics | src/components/SortableTaskTable.tsx:31 | a consistent `localeCompare` gives 0 on equal strings, compares equal symmetrically, and makes any two strings comparable |
| Collation.EquivalentTransitive | src/components/SortableTaskTable.tsx:31 | comparing equal under `localeCompare` is transitive |
| Collation.Lexicographic | src/components/SortableTaskTable.tsx:31 | the stand-in collation returns -1, 0 or 1 |
| Collation.LexicographicZero | src/components/SortableTaskTable.tsx:31 | the stand-in returns 0 exactly on equal strings |
| Collation.LexicographicAntisymmetric | src/components/SortableTaskTable.tsx:31 | swapping the operands negates the stand-in's result |
| Collation.LexicographicTransitive | src/components/SortableTaskTable.tsx:31 | "sorts no later than" is transitive for the stand-in |
| Collation.LexicographicIsCollation | src/components/SortableTaskTable.tsx:31 | the stand-in is a consistent comparator, puts the empty string first, and ties only equal strings |
| TaskRows.SortValue | src/components/SortableTaskTable.tsx:23-30 | the sort key of a row is `''` exactly when the selected field (for `categoryTitle`, the category or its title) is missing or empty; `SortValueOfField` gives its value field by field |
| TaskRows.SortValueOfField | src/components/SortableTaskTable.tsx:23-30 | a row is compared by the selected field; a missing code, title, category or category title counts as the empty string |
| TaskSort.RowCompare | src/components/SortableTaskTable.tsx:22-31 | the comparator is 0 exactly when the keys collate equal, and negative exactly when the first key collates before the second (ascending) or after it (descending) |
| TaskSort.Insert | src/components/SortableTaskTable.tsx:22 | one insertion step of the stable sort grows the rows by one; specified by `InsertPermutation`, `InsertOrdered`, `InsertStable` and `InsertAt` |
| TaskSort.SortedRows | src/components/SortableTaskTable.tsx:21-22 | the sorted copy has as many rows as the input; specified by `SortedRowsPermutation`, `SortedRowsOrdered`, `SortedRowsStable` and `SortedRowsCharacterisation` |
| TaskSort.DescendingIsNegation | src/components/SortableTaskTable.tsx:31 | the descending comparator is the exact negation of the ascending one |
| TaskSort.RowCompareInOrder | src/components/SortableTaskTable.tsx:23-31 | the comparator is at most 0 exactly when the two rows are in order for the direction, and positive only when the reverse order holds |
| TaskSort.InOrderTransitive | src/components/SortableTaskTable.tsx:31 | "may stand before" is transitive for either direction |
| TaskSort.InOrderBothWays | src/components/SortableTaskTable.tsx:31 | rows in order both ways have sort values that compare equal |
| TaskSort.TiedAppend | src/components/SortableTaskTable.tsx:22 | the rows tied with a value in a concatenation are those of each part, in order |
| TaskSort.TiedMembers | src/components/SortableTaskTable.tsx:22 | a row is among those tied with a value exactly when it is in the sequence and its sort value compares equal to that value |
| TaskSort.SwapUntied | src/components/SortableTaskTable.tsx:22 | swapping two rows that do not tie leaves the rows tied with every value unchanged |
| TaskSort.InsertPermutation | src/components/SortableTaskTable.tsx:22 | one insertion step adds exactly the inserted row to the multiset of rows |
| TaskSort.InsertLast | src/components/SortableTaskTable.tsx:22 | after an insertion the last row is either the inserted row or the previous last row |
| TaskSort.OrderedDropLast | src/components/SortableTaskTable.tsx:22 | dropping the last row of an ordered sequence leaves it ordered |
| TaskSort.OrderedAppend | src/components/SortableTaskTable.tsx:22 | appending a row in order with the last one keeps the sequence ordered |
| TaskSort.InsertOrdered | src/components/SortableTaskTable.tsx:22-31 | inserting into an ordered sequence keeps it ordered |
| TaskSort.MovePastUntied | src/components/SortableTaskTable.tsx:22 | proof helper for `InsertStable`: moving a row past one it does not tie with leaves every tied group unchanged |
| TaskSort.InsertStable | src/components/SortableTaskTable.tsx:22 | insertion keeps the rows tied with every value in the order of prefix-then-new-row |
| TaskSort.MultisetOfLast | src/components/SortableTaskTable.tsx:22 | proof helper for the permutation lemmas: a non-empty sequence's multiset is its prefix's plus its last row |
| TaskSort.SortedRowsPermutation | src/components/SortableTaskTable.tsx:21-22 | the displayed rows are a permutation of the input, of the same length |
| TaskSort.SortedRowsOrdered | src/components/SortableTaskTable.tsx:22-31 | adjacent displayed rows are non-decreasing by the selected key when ascending, non-increasing when descending |
| TaskSort.TiedSnoc | src/components/SortableTaskTable.tsx:22 | proof helper for `SortedRowsStable`: appending one row adds it to the rows tied with a value exactly when it ties that value |
| TaskSort.SortedRowsStable | src/components/SortableTaskTable.tsx:22 | rows whose keys compare equal keep their input order (`sort` is stable) |
| TaskSort.OrderedPairwise | src/components/SortableTaskTable.tsx:22-31 | in an ordered sequence every earlier row is in order with every later one |
| TaskSort.NoRowsTied | src/components/SortableTaskTable.tsx:22 | a sequence with no rows tied with any value is empty |
| TaskSort.LastRowsTie | src/components/SortableTaskTable.tsx:22 | two ordered arrangements with the same tied rows for every value end in rows that tie |
| TaskSort.DropLastRow | src/components/SortableTaskTable.tsx:22 | if two such arrangements end in tying rows, those rows are the same and the prefixes also have the same tied rows |
| TaskSort.UniqueArrangement | src/components/SortableTaskTable.tsx:22 | two ordered arrangements with the same tied rows for every value are identical |
| TaskSort.SortedRowsCharacterisation | src/components/SortableTaskTable.tsx:22-31 | a sequence equals the displayed rows exactly when it is ordered and keeps every group of tied rows in input order, so any stable sort yields it |
| TaskSort.MissingKeysFirstWhenAscending | src/components/SortableTaskTable.tsx:23-31 | ascending, with a collation that puts `''` first, every row before a missing-key row has a key comparing equal to `''` |
| TaskSort.InsertAt | src/components/SortableTaskTable.tsx:22 | inserting a row is placing it after the last row that does not compare greater than it |
| TaskSort.SplitBeforeLast | src/components/SortableTaskTable.tsx:22 | proof helper for `InsertAt`: placing a row at an index commutes with appending the last row |
| TaskSort.InsertPlaced | src/components/SortableTaskTable.tsx:22 | the array prefix left by the insertion loop is the insertion of the row into the sorted prefix |
| TaskSort.SortedRowsExtend | src/components/SortableTaskTable.tsx:22 | proof helper for `SortInPlace`: sorting one more input row inserts it into the sorted prefix |
| TaskSort.ShiftGreater | src/components/SortableTaskTable.tsx:22 | shifts exactly the trailing greater rows of the sorted prefix one place right and returns the gap, touching nothing beyond it |
| TaskSort.InsertInPlace | src/components/SortableTaskTable.tsx:22 | after one pass the prefix is the insertion of the row into the old prefix and every element after it is unchanged |
| TaskSort.SortInPlace | src/components/SortableTaskTable.tsx:22 | sorting the array in place leaves it holding the displayed rows of its old contents |
| TaskCells.CodeCell | src/components/SortableTaskTable.tsx:72 | the code cell is blank only for a present empty code; `CodeFallback` states the fallback both ways |
| TaskCells.TitleCell | src/components/SortableTaskTable.tsx:73 | the title cell is blank only for a present empty title; `TitleFallback` states the fallback both ways |
| TaskCells.SpanText | src/components/SortableTaskTable.tsx:78 | a child contributes its own text or nothing |
| TaskCells.JoinTexts | src/components/SortableTaskTable.tsx:78 | every child's text fits within the joined text; specified further by `JoinTextsAppend`, `JoinTextsEmpty` and `JoinTextsCons` |
| TaskCells.FirstBlockText | src/components/SortableTaskTable.tsx:78 | a non-empty text comes only from a present first block that has children |
| TaskCells.OneLinerCell | src/components/SortableTaskTable.tsx:74-83 | a rich-text one-liner shows what its first block alone would show, and a missing one is never blank; `OneLinerFallback` covers every case |
| TaskCells.CategoryCell | src/components/SortableTaskTable.tsx:84 | the category cell is blank only for a present empty category title; `CategoryFallback` states the fallback both ways |
| TaskCells.Link | src/components/SortableTaskTable.tsx:86-87 | a link address always starts with `/task/` and has a slug after it; `LinkRoundTrip` reads the slug back |
| TaskCells.LinkText | src/components/SortableTaskTable.tsx:88-91 | the link cell is never blank; `LinkCellText` says which text appears when |
| TaskCells.IconSource | src/components/SortableTaskTable.tsx:67-70 | an icon source is never empty and needs an icon; `IconShownWhenUrlTruthy` says exactly when it appears |
| TaskCells.LinkCellText | src/components/SortableTaskTable.tsx:86-92 | the link cell reads `View task →` exactly when `slug.current` is truthy and `No link` exactly when it is not |
| TaskCells.CodeFallback | src/components/SortableTaskTable.tsx:72 | a present code is shown as it is, even when empty; the dash appears only for a missing code (or a code that is a dash) |
| TaskCells.TitleFallback | src/components/SortableTaskTable.tsx:73 | a present title is shown as it is; `Untitled task` appears only for a missing title (or that very title) |
| TaskCells.CategoryFallback | src/components/SortableTaskTable.tsx:84 | the category title is shown when present; the dash exactly when the category or its title is missing (or the title is a dash) |
| TaskCells.CategoryCellMatchesSortValue | src/components/SortableTaskTable.tsx:84 | the category cell shows the value the category column sorts by, except that a missing title shows `—` but sorts as `''` |
| TaskCells.JoinTextsAppend | src/components/SortableTaskTable.tsx:78 | joining the children's texts distributes over concatenation of the children |
| TaskCells.JoinTextsEmpty | src/components/SortableTaskTable.tsx:78 | the joined text is empty exactly when every child's text is missing or empty |
| TaskCells.JoinTextsCons | src/components/SortableTaskTable.tsx:78 | the joined text is the first child's text followed by the rest's |
| TaskCells.OnlyFirstBlockShown | src/components/SortableTaskTable.tsx:75-79 | blocks after the first never change a rich-text one-liner's cell |
| TaskCells.OneLinerFallback | src/components/SortableTaskTable.tsx:74-83 | a missing one-liner shows `—`, a plain one itself; an array with no first block, a null first block or a first block without children shows `''`; otherwise the first block's joined child texts |
| TaskCells.LinkRoundTrip | src/components/SortableTaskTable.tsx:86-87 | there is a link exactly when `slug.current` is truthy; its address is `/task/` followed by the slug, which can be read back from it |
| TaskCells.LinkInjective | src/components/SortableTaskTable.tsx:86-87 | two rows link to the same address exactly when their slugs are equal |
| TaskCells.IconShownWhenUrlTruthy | src/components/SortableTaskTable.tsx:67-70 | an icon is shown exactly when the asset URL is truthy, and its source is that URL |
| TaskTable.Click | src/components/SortableTaskTable.tsx:36-42 | a click always activates the clicked column and always changes the state |
| TaskTable.ClickOutcome | src/components/SortableTaskTable.tsx:36-42 | after a click the clicked column is active, and the order is descending exactly when the active ascending column was clicked |
| TaskTable.ClickActiveFlipsDirection | src/components/SortableTaskTable.tsx:37 | clicking the active header flips only the direction |
| TaskTable.ClickTwiceRestores | src/components/SortableTaskTable.tsx:37 | two clicks on the active header restore the state |
| TaskTable.ClickOtherResetsAscending | src/components/SortableTaskTable.tsx:38-41 | clicking another header selects it ascending, whatever the previous direction |
| TaskTable.ClicksAppend | src/components/SortableTaskTable.tsx:36-42 | a click sequence can be split: the rest continues from the state the first part reached |
| TaskTable.RepeatedClicksOnActive | src/components/SortableTaskTable.tsx:37 | n clicks on the active header restore the state when n is even and only flip the direction when n is odd |
| TaskTable.EveryStateReachable | src/components/SortableTaskTable.tsx:17-42 | from the initial state (code, ascending) every column and direction is reached in at most two clicks |
| TaskTable.Arrow | src/components/SortableTaskTable.tsx:51-58 | the arrow is at most one character and is present exactly on the active column |
| TaskTable.HeaderLabel | src/components/SortableTaskTable.tsx:50-59 | a header label is its name, a space, and at most one more character |
| TaskTable.ArrowOnlyOnActiveColumn | src/components/SortableTaskTable.tsx:51-58 | only the active column shows an arrow: ▲ exactly when ascending, ▼ exactly when descending |
| TaskTable.ExactlyOneArrow | src/components/SortableTaskTable.tsx:51-58 | exactly one sortable header carries an arrow |
| TaskTable.HeaderLabelShape | src/components/SortableTaskTable.tsx:50-59 | an inactive header reads as its name and a space; the active one adds the arrow; every label starts with the column's name |
| TaskTable.SortableTaskTable.constructor | src/components/SortableTaskTable.tsx:17-18 | a new table sorts by code, ascending |
| TaskTable.SortableTaskTable.ClickHeader | src/components/SortableTaskTable.tsx:36-42 | the new state is the click transition of the old state |
| TaskTable.SortableTaskTable.Rows | src/components/SortableTaskTable.tsx:20-34 | a missing input gives no rows; otherwise the rows are the stable sort of the input by the current state, a permutation of it, and the input array is not modified |
| TaskTable.ClickThenRows | src/components/SortableTaskTable.tsx:20-42 | the table's new state is the click transition of its old state, and the rows are the input sorted by the clicked column in the direction the click chose |
| PlaybookPreview.VersionSuffix | studio/schemaTypes/playbook.ts:206 | the version part is empty exactly when the version is falsy, and otherwise two characters longer than the version |
| PlaybookPreview.Prepare | studio/schemaTypes/playbook.ts:204-210 | the media passes through, the title is longer than the printed title, the subtitle longer than its separator; specified by `TitleShape`, `VersionRecoverable`, `SubtitleShape` and `MediaPassedThrough` |
| PlaybookPreview.TitleShape | studio/schemaTypes/playbook.ts:206 | a truthy version gives `title (version)`; a falsy one gives the title and a trailing space |
| PlaybookPreview.TitleHasNoFallback | studio/schemaTypes/playbook.ts:206 | the preview title starts with the title verbatim, or with `undefined` when it is absent |
| PlaybookPreview.VersionRecoverable | studio/schemaTypes/playbook.ts:206 | given the title, the version is read back: the rest is empty exactly when the version is falsy, otherwise it is the version in parentheses |
| PlaybookPreview.SubtitleShape | studio/schemaTypes/playbook.ts:207 | the subtitle is type, ` • `, status, with `playbook` and `draft` for falsy values; neither half is empty |
| PlaybookPreview.FalsyStatusIsInitialValue | studio/schemaTypes/playbook.ts:207 | a falsy status previews exactly as the schema's initial status `draft` |
| PlaybookPreview.ListedValuesShownVerbatim | studio/schemaTypes/playbook.ts:207 | every playbook type and status the schema offers is shown verbatim in the subtitle |
| PlaybookPreview.MediaPassedThrough | studio/schemaTypes/playbook.ts:200-208 | the media is the selected hero image, unchanged, and does not affect title or subtitle |

## Left out

- The page components, the navigation bar, the layout and the not-found page are not part of this model. They are presentational markup.
- The task list query (`src/app/task/page.tsx`) orders tasks inside the content store's own query language. Its result is only the input order handed to the table, which the model leaves arbitrary.
- The content-store client (`src/lib/sanity.ts`, `src/lib/getTasks.ts`) and `CustomPortableText` are not part of this model. They are I/O and foreign libraries.
- The schema declarations other than `prepare` in `playbook.ts` are not modelled. They are configuration that the CMS interprets, including validation rules such as `Rule.required()`.
- The one-line `title || "..."` previews of other section schemas are not modelled. They repeat the falsy-default pattern of `Js.Or`.
- The issue and category grouping and merge-by-id logic is not part of this model. No code for it appears among the modelled files.
- `localeCompare`'s locale tables are abstract. The comparator is the parameter `collate`, constrained only to be a consistent comparator. No locale-specific order is claimed.
- The comparator's `|| 0` only turns a negative zero or NaN into 0. Integer results have neither, so it is not modelled.
- `String(av)` on non-string field values is not modelled. The row type declares `code`, `title` and the category title as strings.
- The runtime's sorting algorithm is not modelled. Only its result is: a stable sort's output is unique (`TaskSort.SortedRowsCharacterisation`). The in-place insertion sort is one algorithm that produces that output.
- React rendering, `useMemo` caching, the row `key`, CSS classes and the image's `alt` text are not modelled. The rows are a function of the input and the state.
- TaskTable.SortableTaskTable.Rows: "the input array is not modified" is stated by the method's frame (it may modify nothing), not by an `ensures` clause.
- `oneLiner` values other than absent, a string or an array are not modelled: a number or an object would be rendered by React differently or rejected. A null entry in a block's `children` would make `c.text` throw; spans are never null in the model.
- A `null` (rather than absent) title is not modelled: `${null}` prints `null`, while the model prints every missing title as `undefined`. A `null` version is falsy and gives the same title as an absent one, which the model covers.
