# pushfour, modelled in Dafny

pushfour is a connect-four engine where pieces are pushed onto the board. This project
models its core and proves properties of the model:

- **Single-colour bitboard.** `Overlay` (src/overlay.rs) keeps one colour's stones as
  `u64` words in four layouts: rows (`main`), columns (`invert`), forward diagonals
  (`diag`) and diagonals of the board turned a quarter turn clockwise (`diag_rot`).
  The model is a class with four `array<U64>` fields. A word is the set of its set bit
  positions (`U64 = set<nat>` with elements below 64). The main invariant, `Consistent`,
  says that all four layouts record the same occupied cells. `Set` and `Clear` preserve
  it, and `Cells()` changes by exactly the one cell.
- **Run scoring.** `score_row` computes a word's longest run of set bits, capped at 4.
  `score` and `is_win_state` combine all the words.
- **Diagonal lookup tables.** `DiagLookup::new` appears twice, verbatim, in
  src/overlay.rs and src/diag_lookup.rs. One loop (`DiagLookup.New`) models both copies.
  It is proved equal to a closed-form reference table (`Table`), and that table is proved
  to be a bijection onto the diagonal layouts. `lookup` and its per-size `TABLES` cache
  are the functions `Lookup` and `Cache`.
- **Bit and geometry helpers** of src/util.rs: `leading_zero_idx`, `trailing_zero_idx`,
  `rotate_cw`, `Player::to_piece`, `vec_to_set` and `set_to_vec`. The second copy of
  `rotate_cw`, in src/overlay.rs, is the same function.
- **Generic alpha-beta search** (`Minimax::min_max` and `best_move`) over an abstract
  `Game` record of four functions. The method `MinMax` is proved equal to a functional
  description of the same search (`AlphaBeta`). That search is proved sound against
  plain depth-limited minimax (`Value`). With the full `i32` window the root value is
  exactly the minimax value, and `best_move` returns the first maximising move.
- **Smaller pieces:**
  - the `Vec`-of-`Vec` board of src/board.rs;
  - the toy race-to-30 game of src/pushfour_game.rs;
  - the Python serialiser `warmer_to_aromatt` of web/convert_board.py and
    web/get_board.py. It writes a board as the ASCII lines `+ 0 1 …` and `i c c …`. The
    model proves its line layout, that it decodes back to the board, how it fails on
    unknown cell codes, and that the blue output is the red output with `r` and `b`
    swapped.

The unit tests of src/board.rs and src/overlay.rs are also written out as methods with
assertions: `Board.BoardTests` and `Overlay.GetSetExample`. Those of util.rs and the
`score_row`/`is_row_win` tests are lemmas: `Util.ZeroIdxExamples`,
`Overlay.WinningRowExamples` and `Overlay.ShortRowExamples`.

Python's `sep.join`, `s.split(c)`, `str(n)` and `int(s)` are modelled in module `Text`.
`Option` and `Result` are in module `Wrappers`.

## Model

| member | source | states |
|---|---|---|
| Util.Ctlz | src/util.rs:46-50 | the count n of leading zero bits: bits 63 down to 64-n are clear and, when n < 64, bit 63-n is set |
| Util.Cttz | src/util.rs:51-54 | the count n of trailing zero bits: bits 0..n-1 are clear and, when n < 64, bit n is set |
| Util.LeadingZeroIdx | src/util.rs:58-63 | None exactly when bit 63 is set; otherwise Some(i) with i < 64, bits 63 down to 63-i all clear, and bit 62-i set when i < 63 |
| Util.TrailingZeroIdx | src/util.rs:67-72 | None exactly when bit 0 is set; otherwise Some(i) with bits 0..i all clear, and bit i+1 set when i < 63 |
| Util.ZeroIdxExamples | src/util.rs:143-158 | the unit-test values: 0 gives Some(63) both ways, 1 gives Some(62) and None, all ones gives None, 0x6000… gives Some(0), 2 gives Some(0) |
| Util.VecToSet | src/util.rs:75-79 | the drained set is exactly the set of the vector's elements, and the vector is left empty |
| Util.SetToVec | src/util.rs:82-86 | the vector holds every set element exactly once (equal multisets), and the set is left empty |
| Util.RotateCw | src/util.rs:92-94 | a cell on the board turns into a cell on the board |
| Util.RotateCwFourTimes | src/util.rs:92-94 | four quarter turns give back the original cell |
| Util.RotateCwInjective | src/overlay.rs:29-31 | distinct cells turn into distinct cells, so `rot` is written at distinct keys |
| Util.ToPiece | src/util.rs:121-128 | never Rock; Red exactly for the red player and Blue exactly for the blue player |
| DiagLookup.Table | src/diag_lookup.rs:15-25 | the reference tables for one size: main(r,c) = (r+c, position along the diagonal), rot at the turned key equals main, and off-board entries are (0,0) |
| DiagLookup.New | src/diag_lookup.rs:35-76 | the loop builds exactly `Table(size)` for every size 0 and 2..BOARD_SIZE |
| DiagLookup.Advance | src/diag_lookup.rs:50-69 | the three cursor branches move the traversal to the next cell in diagonal order and keep the reset counters in step |
| DiagLookup.AdvanceFromTopRow | src/diag_lookup.rs:50-56 | leaving the end of a diagonal of the upper triangle starts the next diagonal at its lower-left cell |
| DiagLookup.AdvanceFromRightColumn | src/diag_lookup.rs:57-63 | leaving the end of a diagonal of the lower triangle starts the next diagonal at its lower-left cell |
| DiagLookup.AdvanceAlong | src/diag_lookup.rs:65-69 | stepping up and right along a diagonal reaches the cell of the next visit index |
| DiagLookup.WriteCell | src/diag_lookup.rs:46-48 | the two writes of one step, `main` at the key and `rot` at the turned key, extend the written part of both tables by the current cell |
| DiagLookup.WriteStep | src/diag_lookup.rs:45-70 | the cells visited after step `total` are those visited before it plus the current cursor cell, and no other |
| DiagLookup.AllVisited | src/diag_lookup.rs:45 | after size·size steps every on-board cell has been written |
| DiagLookup.TotalCells | src/diag_lookup.rs:45 | the 2·size-1 diagonals hold size·size cells, the loop's bound |
| DiagLookup.VisitIndexRange | src/diag_lookup.rs:45-71 | each cell is visited at a step below size·size |
| DiagLookup.VisitIndexInjective | src/diag_lookup.rs:45-71 | no two cells are visited at the same step, so each cell is written once |
| DiagLookup.Cache | src/diag_lookup.rs:79-89 | entry i of the cache is the table for size i+2, for sizes 2..BOARD_SIZE |
| DiagLookup.Lookup | src/diag_lookup.rs:91-93 | for an on-board cell, the forward-diagonal address (r+c, position) and the turned address; (0,0) twice off the board |
| DiagLookup.EntryBounds | src/diag_lookup.rs:45-70 | the diagonal index is below 2·size-1 ≤ BOARD_DIAG_SIZE and the position is below that diagonal's length ≤ size, in both tables |
| DiagLookup.MainCellOfEntry | src/diag_lookup.rs:15-19 | the layout cell at a cell's main address is that cell |
| DiagLookup.EntryOfMainCell | src/diag_lookup.rs:15-19 | every occupied position of the forward-diagonal layout is the main address of its cell |
| DiagLookup.EntriesInjective | src/diag_lookup.rs:45-71 | distinct cells have distinct main addresses and distinct rot addresses |
| DiagLookup.RotCellOfEntry | src/diag_lookup.rs:47-48 | the turned layout cell at a cell's rot address is the turned cell |
| DiagLookup.EntryOfRotCell | src/diag_lookup.rs:47-48 | every occupied position of the turned layout is the rot address of its cell |
| DiagLookup.DocumentedTables | src/diag_lookup.rs:15-25 | for size 3 the tables are the documented ones: main 00 11 22 / 10 21 31 / 20 30 40 and rot 20 10 00 / 30 21 11 / 40 31 22 |
| Overlay.RunScore | src/overlay.rs:10-19 | the score n ≤ 4 of a word is a run length it has, and it has no run one longer when n < 4 |
| Overlay.RunScoreZero | src/overlay.rs:11 | the score is 0 exactly for the empty word |
| Overlay.RunScoreIs | src/overlay.rs:10-19 | a word with a run of n (1 ≤ n ≤ 4) and none of n+1 scores n |
| Overlay.RunScoreIsLongestRun | src/overlay.rs:10-19 | a run of n (1 ≤ n ≤ 4) exists exactly when n is at most the score: the score is the longest run, capped at 4 |
| Overlay.HasRunMonotone | src/overlay.rs:10-19 | a word with a run of n has one of every shorter length |
| Overlay.AndShr1 | src/overlay.rs:14 | definition of one `row & (row >> 1)` round: bit p survives when bits p and p+1 are both set; its meaning over k rounds is stated by ShrinkRuns |
| Overlay.ShrinkRuns | src/overlay.rs:13-17 | after k AND-with-shift steps, bit p is set exactly when bits p..p+k of the original word are all set |
| Overlay.ShrinkEmpty | src/overlay.rs:13-17 | the word becomes zero after k steps exactly when there is no run of k+1 |
| Overlay.ScoreRow | src/overlay.rs:10-19 | the loop returns the run score of the word |
| Overlay.IsRowWin | src/overlay.rs:21-24 | true exactly when the word has four consecutive set bits |
| Overlay.WinningRowExamples | src/overlay.rs:185-198 | the unit-test winning words (0b1111, 0b11110, 0xF000…, 0x1E00…, 0xAA02F20011002345) score 4 |
| Overlay.ShortRowExamples | src/overlay.rs:200-213 | the unit-test scores 0, 1, 2, 3 of 0, 1, 3, 7, and 3 for 0xE000… and 2 for 0xAA55000011002345 |
| Overlay.Put | src/overlay.rs:133-151 | setting or clearing bit b changes exactly that bit of the word |
| Overlay.OccupiedAfterPut | src/overlay.rs:133-151 | after the update, a cell reads occupied exactly when it is the updated cell and the bit was set, or it is another cell that was occupied |
| Overlay.AddressesOfCell | src/overlay.rs:135-136 | a layout position holds a given cell exactly when it is that cell's address from the lookup |
| Overlay.AddressBounds | src/overlay.rs:135-140 | every address from the lookup fits the BOARD_DIAG_SIZE × BOARD_SIZE layouts |
| Overlay.PutInvertAgrees | src/overlay.rs:134-138 | updating bit c of row r and bit r of column c keeps rows and columns in agreement |
| Overlay.PutDiagAgrees | src/overlay.rs:135-139 | updating the cell and its forward-diagonal address keeps the two layouts in agreement |
| Overlay.PutRotAgrees | src/overlay.rs:135-140 | updating the cell and its turned address keeps the two layouts in agreement |
| Overlay.PutAgrees | src/overlay.rs:133-151 | one set or clear on all four layouts keeps them in agreement, and adds or removes exactly that cell |
| Overlay.PutCells | src/overlay.rs:133-151 | the occupied cells change by exactly the updated cell |
| Overlay.EmptyAgree | src/overlay.rs:122-131 | all-zero layouts agree and hold no cell |
| Overlay.MaxRun | src/overlay.rs:157-164 | the largest run score over the words: at least each word's score, and attained by one of them |
| Overlay.MaxRunStep | src/overlay.rs:160-162 | one more word raises the running maximum to that word's score if larger |
| Overlay.MaxRunAppend | src/overlay.rs:158-162 | the maximum over two lists of words is the larger of their maxima |
| Overlay.MaxRunOfWords | src/overlay.rs:158-162 | the maximum over the four layouts is the maximum of the four layout maxima |
| Overlay.Boost | src/overlay.rs:163 | `score \| ((score & 4) << 1)` turns 4 into 12 and leaves 0..3 alone |
| Overlay.BoostedMaxIsWin | src/overlay.rs:157-172 | the boosted maximum is 12 exactly when some word has four in a row, and it is one of 0, 1, 2, 3, 12 |
| Overlay.EmptyWords | src/overlay.rs:122-131 | all-zero words have maximum 0 and no win |
| Overlay.Overlay.constructor | src/overlay.rs:122-131 | all four layouts start zero and consistent, with no occupied cell |
| Overlay.Overlay.Set | src/overlay.rs:133-141 | bit col of main[row], bit row of invert[col] and the two looked-up diagonal bits become set, nothing else changes; on the board, consistency is kept and the cell is added |
| Overlay.Overlay.Clear | src/overlay.rs:143-151 | the same four bits become clear, nothing else changes; on the board, consistency is kept and the cell is removed |
| Overlay.Overlay.Get | src/overlay.rs:153-155 | in a consistent overlay, reading main says whether the cell is occupied |
| Overlay.Overlay.Score | src/overlay.rs:157-164 | the boosted maximum run score over all four layouts, one of 0, 1, 2, 3, 12 |
| Overlay.Overlay.IsWinState | src/overlay.rs:166-172 | true exactly when some word of some layout has four in a row |
| Overlay.OrBit | src/overlay.rs:137-140 | `words[i] \|= 1 << b` sets bit b of word i and changes nothing else |
| Overlay.AndNotBit | src/overlay.rs:147-150 | `words[i] &= !0 ^ (1 << b)` clears bit b of word i and changes nothing else |
| Overlay.MaxScoreRow | src/overlay.rs:158-162 | the running maximum of one layout's scores, starting from the previous layouts' maximum |
| Overlay.AnyRowWin | src/overlay.rs:166-172 | true exactly when one of the layout's words has four in a row (early return) |
| Overlay.WinInParts | src/overlay.rs:166-172 | a win in the four layouts together is a win in one of them |
| Overlay.GetSetExample | src/overlay.rs:175-183 | the unit test as assertions: on a fresh 4 x 4 overlay a cell reads empty, and after `set(0, 0)` that cell reads occupied while (1, 0) still reads empty |
| Overlay.FreshOverlayScoresZero | src/overlay.rs:122-131 | a fresh overlay scores 0 and is not a win |
| Overlay.ScoreTwelveIffWin | src/overlay.rs:157-172 | `score() == 12` exactly when `is_win_state()` |
| Minimax.FoldBounds | src/minimax.rs:72-91 | the max (min) fold is on the right side of every element and of the start value, and equals one of them |
| Minimax.ChildValues | src/minimax.rs:58-60 | one minimax value per move, each for the child state one ply down with the role flipped |
| Minimax.ChildValueAt | src/minimax.rs:58-60 | element k is the minimax value of the child reached by move k |
| Minimax.ValueBounded | src/minimax.rs:28-103 | every minimax value is an i32, since values are only copied from evaluations |
| Minimax.IsLeaf | src/minimax.rs:38-54 | definition of the three base cases, depth 0, game over and no moves; AlphaBeta's contract states what is returned there |
| Minimax.AlphaBeta | src/minimax.rs:28-103 | leaves score `(None, eval(root, do_min))`; otherwise the move is Some and one of `get_moves(root)`; the score is an i32 |
| Minimax.Scan | src/minimax.rs:58-96 | the move loop ends with a move once it has seen one, taken from the best so far or the remaining moves |
| Minimax.MinMax | src/minimax.rs:28-103 | the recursive search with its mutable loop computes `AlphaBeta`, and within any window a < b its score agrees with the minimax value up to clamping to the window |
| Minimax.AlphaBetaSound | src/minimax.rs:28-103 | with a < b, clamping the pruned score and the minimax value to (a, b) gives the same number |
| Minimax.ScanSound | src/minimax.rs:58-96 | the loop's score agrees, up to the clamp, with the fold of the children's minimax values |
| Minimax.MaxPlySound | src/minimax.rs:72-81 | on a maximising ply the remaining loop agrees with the max fold |
| Minimax.MinPlySound | src/minimax.rs:82-91 | on a minimising ply the remaining loop agrees with the min fold |
| Minimax.FirstChildStep | src/minimax.rs:65-69 | the first child, accepted without touching a or b, establishes the loop invariant |
| Minimax.MaxPlyStep | src/minimax.rs:72-81 | a maximising step keeps the invariant and a cut-off only happens when the true value is at least b |
| Minimax.MinPlyStep | src/minimax.rs:82-91 | a minimising step keeps the invariant and a cut-off only happens when the true value is at most a |
| Minimax.FullWindowExact | src/minimax.rs:1-5 | with the window (i32::MIN, i32::MAX) the pruned score is exactly the minimax value |
| Minimax.ScanChildScore | src/minimax.rs:58-96 | the loop's best score is always the score the search returned for the best move's child, under a window inside the original one |
| Minimax.ChosenMoveScore | src/minimax.rs:56-102 | off the leaves the result is a move of the state and the score returned for that move's child, searched with the roles swapped and a window inside (a, b) |
| Minimax.FirstMaxStep | src/minimax.rs:73-76 | the strict `>` keeps the earliest of equal maxima |
| Minimax.RootScan | src/minimax.rs:58-96 | on the full window at a maximising root, the loop returns the first child of maximal value |
| Minimax.RootStep | src/minimax.rs:72-81 | one maximising step on the full window advances the first-maximum index |
| Minimax.RootCompare | src/minimax.rs:73 | on a window (a, i32::MAX), a child beats the best value exactly when its true value does, and then the two are equal |
| Minimax.FirstBestMove | src/minimax.rs:19-26 | at the root the search picks the first move whose child has the maximal minimax value, and that value is the root's |
| Minimax.BestMove | src/minimax.rs:19-26 | None exactly where the source panics (depth 0, game over, no moves); otherwise the first maximising move |
| Minimax.FirstChildNoCutoff | src/minimax.rs:65-69 | with window (0, 1), a first child scoring 5 does not stop the loop; the better second child is returned |
| Board.Board.constructor | src/board.rs:21-34 | a size × size grid with every space Empty |
| Board.BoardTests | src/board.rs:52-72 | the three unit tests as assertions: a set is read back, a second set overwrites the first, and an off-board get is None on a written and on a fresh board |
| Board.NewRow | src/board.rs:25-27 | the inner push loop builds a row of `size` Empty spaces |
| Board.Board.Set | src/board.rs:36-41 | returns true exactly when p is on the board; then only `spaces[p.x][p.y]` changes and `get(p)` is the new value; otherwise nothing changes |
| Board.Board.Get | src/board.rs:44-49 | Some exactly when p is on the board, holding the stored space |
| PushfourGame.Legal | src/pushfour_game.rs:8-15 | the steps with no overshoot of 30, in their order |
| PushfourGame.LegalSteps | src/pushfour_game.rs:8-15 | over [1, 2, 3, 5] they are the guards s < 30, s < 29, s < 28, s < 26 in order |
| PushfourGame.GetMoves | src/pushfour_game.rs:8-15 | the guarded pushes give exactly the legal steps |
| PushfourGame.Eval | src/pushfour_game.rs:17-27 | in -1..1; nonzero exactly at 30, where it is negative exactly on the mover's turn |
| PushfourGame.Apply | src/pushfour_game.rs:29-31 | the total grows by the step; for a move from `get_moves` it strictly increases and stays at most 30 |
| PushfourGame.NoMovesIffDone | src/pushfour_game.rs:8-15 | no move exactly when the total is at least 30 |
| PushfourGame.MovesStayWithinTarget | src/pushfour_game.rs:8-31 | a generated move cannot overflow, it increases the total, and it never passes 30 |
| PushfourGame.EvalZeroSum | src/pushfour_game.rs:17-27 | the two sides' evaluations are opposite |
| PushfourGame.MovesExamples | src/pushfour_game.rs:8-15 | the moves at totals 0, 26, 28, 29, 30 |
| Text.Split | web/convert_board.py:24 | `str.split` always gives at least one piece |
| Text.SplitNone | web/convert_board.py:24 | a string without the separator splits into itself |
| Text.SplitAt | web/convert_board.py:24 | splitting stops at the first separator |
| Text.SplitJoin | web/convert_board.py:24 | split undoes join when no part contains the separator |
| Text.JoinAvoids | web/convert_board.py:21-24 | a joined string holds no character absent from the separator and the parts |
| Text.NatToString | web/convert_board.py:21-23 | `str(n)` is a nonempty string of digits with no leading zero |
| Text.ParseNatToString | web/convert_board.py:21-23 | reading `str(n)` back gives n |
| Text.NatToStringInjective | web/convert_board.py:21-23 | distinct row and column numbers print differently |
| ConvertBoard.CharsFor | web/convert_board.py:15-19 | both tables have keys 0, 1, 2, 4 with `-` for 0 and `#` for 4; "blue" maps 1 to `b` and 2 to `r`, any other colour maps 1 to `r` and 2 to `b` |
| ConvertBoard.Cells | web/convert_board.py:23 | a successful cell mapping has one token per cell |
| ConvertBoard.CellsSucceed | web/convert_board.py:23 | the mapping succeeds exactly when every code is a key, and then token k is the code's character |
| ConvertBoard.CellsFirstMissing | web/convert_board.py:23 | a failure names the first code of the row that is not a key |
| ConvertBoard.Line | web/convert_board.py:23 | a body line starts with `str(i)` followed by one space; LineTokens gives its split into tokens |
| ConvertBoard.ColumnLabels | web/convert_board.py:21 | the labels are `str(0)` to `str(size-1)` |
| ConvertBoard.Header | web/convert_board.py:21 | the header starts with `+ `; HeaderTokens gives its split into the column numbers |
| ConvertBoard.Rows | web/convert_board.py:22-23 | a successful body has one line per row |
| ConvertBoard.RowsSucceed | web/convert_board.py:22-23 | the body succeeds exactly when every row's mapping does |
| ConvertBoard.RowsLineAt | web/convert_board.py:22-23 | body line k is `str(i+k) + " "` then row i+k's tokens joined by spaces |
| ConvertBoard.BodyLines | web/convert_board.py:22-23 | every body line is its row number followed by the row's tokens |
| ConvertBoard.RowsFirstFailure | web/convert_board.py:22-23 | the body fails with the error of the first failing row |
| ConvertBoard.RowsFailure | web/convert_board.py:22-23 | a failing body has a first failing row, whose error it reports |
| ConvertBoard.Render | web/convert_board.py:20-24 | definition of the output: the header and the body lines joined by newlines, or the body's KeyError; its properties are OutputLines, KeyErrorIffUnknownCode and DecodeWarmerToAromatt |
| ConvertBoard.RenderRows | web/convert_board.py:20-24 | building the list of lines row by row and joining it gives the serialised board or the first KeyError |
| ConvertBoard.WarmerToAromatt | web/convert_board.py:13-24 | definition of `warmer_to_aromatt` as Render with the colour's table; OutputLines, KeyErrorIffUnknownCode, FirstUnknownCode, DecodeWarmerToAromatt and BlueIsRedSwapped state what it returns |
| ConvertBoard.TableKeys | web/convert_board.py:15-19 | both colour tables have exactly the keys 0, 1, 2 and 4 |
| ConvertBoard.KeyErrorIffUnknownCode | web/convert_board.py:23 | serialising fails exactly when some cell code is outside 0, 1, 2, 4 |
| ConvertBoard.FirstUnknownCode | web/convert_board.py:22-23 | the KeyError carries the first unknown code in row-major order |
| ConvertBoard.CellsAreTokens | web/convert_board.py:15-23 | each mapped cell is one of the characters `-`, `r`, `b`, `#` |
| ConvertBoard.NonDigitNotInNumber | web/convert_board.py:21-23 | a number prints with digits only |
| ConvertBoard.LineHasNoNewline | web/convert_board.py:23 | a body line holds no newline |
| ConvertBoard.HeaderHasNoNewline | web/convert_board.py:21 | the header holds no newline |
| ConvertBoard.HeaderTokens | web/convert_board.py:21 | the header splits into `+` then the column numbers, and number i reads back as i |
| ConvertBoard.OutputLines | web/convert_board.py:20-24 | the output splits on newlines into the header and then the body lines, len(board)+1 lines in all |
| ConvertBoard.BodyHasNoNewline | web/convert_board.py:22-23 | no body line holds a newline |
| ConvertBoard.SplitFirstAndRest | web/convert_board.py:24 | joining the header and body lines with newlines and splitting again gives them back |
| ConvertBoard.LineTokens | web/convert_board.py:23 | a body line splits on spaces into its number and its tokens (one empty token for an empty row) |
| ConvertBoard.CodeOf | web/convert_board.py:15-19 | a decoded character is the image of its code |
| ConvertBoard.CodeOfChar | web/convert_board.py:15-19 | each colour table is invertible on its keys |
| ConvertBoard.DecodeCellsOfRow | web/convert_board.py:23 | a row's tokens decode back to the row |
| ConvertBoard.DecodeLine | web/convert_board.py:23 | a body line decodes back to its row |
| ConvertBoard.DecodeBody | web/convert_board.py:22-23 | the body lines decode back to the rows |
| ConvertBoard.DecodeWarmerToAromatt | web/convert_board.py:13-24 | the serialised text decodes back to the board |
| ConvertBoard.Swap | web/convert_board.py:15-19 | swapping `r` and `b` character by character |
| ConvertBoard.SwapConcat | web/convert_board.py:15-19 | the swap distributes over concatenation |
| ConvertBoard.SwapDigits | web/convert_board.py:21-23 | numbers are untouched by the swap |
| ConvertBoard.SwapJoin | web/convert_board.py:21-24 | the swap distributes over a join with a swap-fixed separator |
| ConvertBoard.SwapHeader | web/convert_board.py:21 | the header is the same for both colours |
| ConvertBoard.SwapLine | web/convert_board.py:15-23 | a blue body line is the red one swapped |
| ConvertBoard.SwapAll | web/convert_board.py:22-23 | the swap applied to each line |
| ConvertBoard.SwapRows | web/convert_board.py:15-23 | the blue body is the red body with every line swapped |
| ConvertBoard.BlueIsRedSwapped | web/convert_board.py:15-24 | changing the colour to blue changes only `r` into `b` and back; errors are the same |
| ConvertBoard.BlueFailsAlike | web/convert_board.py:15-23 | a row maps under blue exactly when it maps under red, with the same error |
| GetBoard.WarmerToAromatt | web/get_board.py:11-17 | the fixed-table serialiser is the red rendering |
| GetBoard.SameAsRed | web/get_board.py:11-17 | the output equals web/convert_board.py's `warmer_to_aromatt` with colour red |
| GetBoard.OutputLines | web/get_board.py:13-17 | the header line, then one line per row, len(board)+1 lines in all |
| GetBoard.KeyErrorIffUnknownCode | web/get_board.py:16 | it fails exactly when some cell code is outside 0, 1, 2, 4 |

## Left out

- DiagLookup.New: requires `size != 1`. For size 1 the first advance takes the `else` branch and computes `key_row - 1` on a `usize` 0. That panics in a debug build and wraps in a release build. It also requires `size <= BOARD_SIZE`, the size of the fixed tables.
- Overlay.Overlay.constructor: the `&DiagLookup` argument is required to be the table for the overlay's size. That is how the surrounding code uses it, and the lifetime-tied reference is not modelled as aliasing.
- Overlay.Overlay.Set and Overlay.Overlay.Clear: a cell with row or col at least BOARD_SIZE is excluded. The source would index out of the tables and panic.
- Overlay.Overlay.Get: requires `row < BOARD_SIZE` and `col < 64`. A larger row panics on the index of `main`, and a larger col overflows the shift `1 << col`. Neither panic is modelled.
- DiagLookup.Lookup: requires `2 <= size <= BOARD_SIZE` and `row, col < BOARD_SIZE`. Below 2, `size - 2` underflows a `usize`. Above BOARD_SIZE, or off the tables, the `TABLES` index panics. None of these panics is modelled.
- Util.RotateCw: requires `row < size`. Otherwise `size - row - 1` underflows a `usize`, which is not modelled.
- Minimax.MinMax: `depth` is a `nat`. A negative `i32` depth never reaches the `depth == 0` base case, and that case is not modelled.
- Minimax.MinMax: for a narrowed window, the score is related to minimax only up to clamping to the window. Which move is returned then depends on which children were pruned.
- Minimax.BestMove: the `expect("no moves")` panic is the None result.
- Minimax: the `Game` trait's `&self` receiver and generic `GameType` are a record of four functions.
- PushfourGame.Apply: the `i32` addition overflow panic is excluded by its requires. Generated moves are proved never to reach it.
- PushfourGame.Eval: the `f32` results -1.0, 0.0 and 1.0 are the integers -1, 0 and 1.
- PushfourGame: this impl's three-parameter `Game<i32, i32, f32>` trait, with no `gameover`, does not match src/minimax.rs. So it is not plugged into `Minimax`.
- Util.SetToVec: `HashSet` drain order is unspecified, so only the multiset of the result is stated.
- Util.Ctlz and Util.Cttz: the compiler intrinsics are specified by bit meaning, not by a foreign call.
- `lazy_static` initialisation of `TABLES`: the cache is the function `DiagLookup.Cache`.
- Debug and Display implementations.
- The `RED_CHAR`, `BLUE_CHAR` and `ROCK_CHAR` constants of src/util.rs: they are defined but not used in the modelled files.
- The commented-out debug printing in src/minimax.rs and the commented-out inline assembly in src/util.rs.
- src/lib.rs, src/main.rs and src/bin: they delegate to a board type that is not part of this model, or do file and console I/O.
- web/encode_move.py: configuration-file reading, regular expressions and URL encoding.
- web/convert_board.py: `json.load` of the board file, the `os.environ` colour (a parameter here) and `print` are left out.
- web/convert_board.py and web/get_board.py: the `try`/`except` blocks that print and exit. A `KeyError` is the `Failure` result.
- web/get_board.py: the HTTP fetch of the board is left out. The board is a parameter.
