# Spec Mirror core and puzzle-game rules, in Dafny

This project models the two pieces of deterministic logic in the Spec Mirror
repository and proves properties of them.

**Spec Mirror run** (`spec_mirror.dfy`, module `SpecMirror`). A run audits a
pull request against a checklist page in a document workspace. The model
covers every step of that run that does not talk to the outside world:

- The diff text is cut to its first 500,000 characters (`TruncateDiff`).
- The page id is the leftmost run of 32 characters from `[a-f0-9]` in the
  milestone text (`FindHexRun`, `ExtractPageId`). With no such run, the run
  stops (`SkippedNoPageId`).
- The page's child blocks are filtered to `to_do` and `bulleted_list_item`
  blocks with a non-empty rich-text list. This builds the id-to-text map and
  the spec list of the prompt, one `- [ID: <id>] <text>` line per kept block
  (`ScanBlocks` against `Checklist`, `IndexItems` and `RenderSpecList`). With
  no kept block, the run stops (`SkippedNoSpecs`).
- The oracle's ids are walked in order (`ApplyMatches` against
  `PlannedUpdates`). An id is dropped when it is not in the map, or when its
  text contains `(PR #<n>)`. Every other id yields one update and one
  increment of the count. The update is a `to_do` payload with
  `checked = true` and two text runs: the original text, then ` [PR #<n>]`
  linked to the pull request URL and styled as blue code.
- `Run` composes these steps. The fetched blocks and the oracle's ids are
  inputs. The page id that would be fetched, the oracle's input and the
  updates that would be sent are recorded in the returned `RunOutcome`.

The skip marker and the written label differ: the check looks for
`(PR #n)` in parentheses, while the run appends ` [PR #n]` in brackets. A
block the run annotated is therefore selected again by a later run on the
same pull request (`LabelNotRecognised`, `SelectedAgainAfterUpdate`). The
model keeps this behaviour as written and states no re-run idempotence.

Three behaviours of the code worth noting:

- A block is kept when its rich-text list is non-empty, even if every run's
  plain text is empty. It is not required that the concatenated text be
  non-empty.
- Every update is a `to_do` payload with `checked = true`, whatever the
  block's own type. A bulleted item gets no different treatment.
- The oracle's answer is read from the key `implemented_ids`.

**Puzzle-game rules** (`tetris.dfy`, module `Tetris`). The game object
`TetrisGame` holds a 20-row board of 10-cell integer rows in an array, a
score and a game-over flag.

- `CheckLines` collects the full rows top to bottom (`FullLines`). It then
  deletes each full row and inserts a blank row on top, shifting the rows
  above it down in place (`ClearRows`, `DeleteRowInsertTop`). It adds 100
  points per cleared row.
- The result is specified by `Cleared`: one blank row per full row, then the
  non-full rows in their original order.
- `CheckGameOver` reports whether row 0 has a non-empty cell, and in that
  case sets the flag.

`test/tetris.py:39` reads `return Falsei`. `Falsei` is a valid Python name,
so the file parses, but the name is undefined. Any call of
`check_game_over` whose row 0 is empty raises a `NameError` instead of
returning `False`. The model keeps that behaviour in
`CheckGameOverAsWritten`. The game object's `CheckGameOver` returns `false`,
as evidently intended (see Findings).

## Model

| member | source | states |
|---|---|---|
| `SpecMirror.TruncateDiff` | spec_mirror.py:36 | the diff is the content's prefix of length min(length, 500000); it is the whole content when that is no longer than the budget |
| `SpecMirror.FindHexRun` | spec_mirror.py:42 | the result is the first position at or after the start where 32 hex digits begin; `None` means no position has such a run |
| `SpecMirror.ExtractPageId` | spec_mirror.py:42-46 | no id iff the text has no 32-digit `[a-f0-9]` run; an id has length 32, is all lowercase hex, and is the leftmost such window of the text |
| `SpecMirror.JoinPlainTextAppend` | spec_mirror.py:61 | joining rich text concatenates the runs' plain texts in run order |
| `SpecMirror.ChecklistAppend` | spec_mirror.py:57-63 | the spec items of two stretches of blocks are those of the first followed by those of the second, so items keep block order |
| `SpecMirror.ChecklistMembers` | spec_mirror.py:57-63 | every item is the id and joined text of a to-do or bulleted block with non-empty rich text; every such block yields an item; there are no items iff no block qualifies |
| `SpecMirror.BlockMapKeys` | spec_mirror.py:57-63 | an id is a key of the block map iff some qualifying block has that id |
| `SpecMirror.BlockMapValue` | spec_mirror.py:59-63 | a mapped id carries the joined text of the last qualifying block with that id |
| `SpecMirror.IndexItemsSpec` | spec_mirror.py:63 | the map's keys are the items' ids; an id maps to the text of its last item |
| `SpecMirror.RenderSpecListAppend` | spec_mirror.py:64 | the spec list of two stretches of items is the list of the first followed by that of the second, so lines follow item order |
| `SpecMirror.RenderSpecListEmpty` | spec_mirror.py:64-68 | the spec list is empty iff there are no items |
| `SpecMirror.ScanBlocks` | spec_mirror.py:54-68 | the loop builds exactly the map and spec list of the qualifying blocks, and the spec list is empty iff no block qualifies |
| `SpecMirror.PlannedUpdatesAppend` | spec_mirror.py:119-143 | the updates for two stretches of oracle ids are those of the first followed by those of the second, so updates follow the oracle's order |
| `SpecMirror.IgnoredIdNoUpdate` | spec_mirror.py:120-124 | an unknown id, or a known id whose text holds `(PR #n)`, adds no update wherever it stands in the oracle's list |
| `SpecMirror.PlannedUpdatesShape` | spec_mirror.py:126-139 | each update targets a known unmarked block, sets it checked, keeps its text as the first run and appends the ` [PR #n]` run linked to the PR URL with code/blue styling |
| `SpecMirror.PlannedUpdatesCount` | spec_mirror.py:119-143 | the number of updates aimed at an id equals its number of occurrences in the oracle's list when it is known and unmarked, and zero otherwise |
| `SpecMirror.ApplyMatches` | spec_mirror.py:119-143 | the loop issues exactly the planned updates, in order, and `updated_cnt` equals their number |
| `SpecMirror.LabelNotRecognised` | spec_mirror.py:123-134 | for a decimal PR number, a text without the skip marker `(PR #n)` still lacks it after the run appends ` [PR #n]`, wherever the marker might start: in the text, in the label or across the seam |
| `SpecMirror.SelectedAgainAfterUpdate` | spec_mirror.py:120-139 | for a decimal PR number, a block selected once is selected again after its text gains the written label |
| `SpecMirror.Run` | spec_mirror.py:34-143 | the run is skipped with no fetch iff no page id is found; it is skipped before the oracle iff no block qualifies; otherwise it records the page id, the truncated diff, the spec list, the planned updates and their count |
| `SpecMirror.SingleMatchScenario` | spec_mirror.py:57-143 | for any PR number and URL, a page holding one `to_do` block `X1` with text "Add retry logic", passed through the block filter, and the oracle reporting `X1`, yields exactly one update, against `X1` with that text |
| `Tetris.TetrisGame.constructor` | test/tetris.py:4-10 | a new game has 20 rows of 10 zeros, score 0 and no game over |
| `Tetris.NewPiece` | test/tetris.py:12-15 | a new piece is one of `I J L O S T Z` |
| `Tetris.TetrisGame.FullLines` | test/tetris.py:19-22 | the collected indices are the full rows of the board, in increasing order |
| `Tetris.FullRowsIndex` | test/tetris.py:19-22 | the collected indices are strictly increasing, each names a full row, every full row is listed, and their number is the full-row count |
| `Tetris.TetrisGame.DeleteRowInsertTop` | test/tetris.py:27-28 | deleting row y and inserting a blank row at the top leaves a blank row, then the rows above y, then the rows below y |
| `Tetris.TetrisGame.ClearRows` | test/tetris.py:26-28 | deleting the listed full rows one by one leaves the cleared board |
| `Tetris.TetrisGame.CheckLines` | test/tetris.py:17-31 | the board becomes the cleared board, the score rises by 100 per full row, the board stays valid and the game-over flag is unchanged |
| `Tetris.KeptCount` | test/tetris.py:20-28 | the number of surviving rows plus the number of full rows is the number of rows |
| `Tetris.KeptRows` | test/tetris.py:20-28 | every surviving row is a non-full row of the board, and every non-full row of the board survives |
| `Tetris.KeptAppend` | test/tetris.py:26-28 | survivors and the full-row count are computed row by row, so surviving rows keep their relative order |
| `Tetris.ClearedShape` | test/tetris.py:26-28 | clearing keeps the number of rows and, when all rows are 10 wide, the width of every row |
| `Tetris.ClearedNoFullRow` | test/tetris.py:20-28 | no row of the cleared board is full |
| `Tetris.ClearedUnchangedIff` | test/tetris.py:24-30 | clearing leaves the board unchanged iff no row is full |
| `Tetris.ClearedIdempotent` | test/tetris.py:17-30 | a second clear finds no full row, so it awards no points and changes no row |
| `Tetris.ClearedTopRowEmpty` | test/tetris.py:26-35 | after a clear that removed a row, row 0 is empty, so the game-over check does not fire |
| `Tetris.CheckGameOverAsWritten` | test/tetris.py:33-39 | as written, the check returns true iff row 0 is occupied and otherwise raises a `NameError` for `Falsei` |
| `Tetris.AsWrittenRaisesOnEmptyTop` | test/tetris.py:39 | as written, the check raises on an empty top row |
| `Tetris.TetrisGame.CheckGameOver` | test/tetris.py:33-39 | returns true iff some cell of row 0 is non-zero; the flag becomes set in that case and is otherwise unchanged; board and score are unchanged |

## Findings

| source | as written | input that shows it | evidently intended | confidence | as-written member | corrected member |
|---|---|---|---|---|---|---|
| test/tetris.py:39 | `return Falsei` names an undefined variable, so the call raises `NameError` | a board whose row 0 is all zeros, such as a new game | `return False` | high; not executed | `Tetris.CheckGameOverAsWritten`, `Tetris.AsWrittenRaisesOnEmptyTop` | `Tetris.TetrisGame.CheckGameOver` |

## Left out

- Reading the environment variables and the early return when one is missing (spec_mirror.py:14-20, 27-29): these are process configuration, and the PR number, PR URL and milestone text are parameters of `Run`.
- Reading the diff file and the missing-file branch (spec_mirror.py:34-39): file I/O. Only the truncation of the content is modelled.
- The workspace client and its calls (spec_mirror.py:22, 49-52, 126-139): these are foreign HTTP calls. The fetched blocks are an input, a failed fetch is not modelled, and the updates are returned as records rather than sent. A failure partway through the update loop, which would abort the remaining updates, is not modelled.
- A block whose type-specific object is missing (the `KeyError` of spec_mirror.py:59) is not modelled; a missing `rich_text` key is modelled as an empty rich-text list.
- The oracle call, its prompt text, response schema and JSON parsing (spec_mirror.py:24, 73-116): this is an opaque external model. Its ids are an arbitrary input sequence of strings. Non-string ids and parse failures are not modelled. The prompt is represented by the spec list and diff it embeds.
- All console output, including the 20-character excerpt printed per update (spec_mirror.py:140), and the broad exception handlers: these are logging.
- `Tetris.NewPiece`: the random choice of `new_piece` becomes a draw index parameter. Only membership in the shape list is stated, not the distribution.
- The board's `width` and `height` attributes are module constants (`Width`, `Height`), because no code changes them. The board's row list is an array of 20 row values, because line clearing keeps its length.
- `SpecMirror.LabelNotRecognised`, `SpecMirror.SelectedAgainAfterUpdate`: stated for PR numbers made of decimal digits, the form a pull-request number takes; numbers with other characters are not covered.
