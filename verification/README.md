# Corners engine in Dafny

A model of the game engine of *corners*, a checkers variant on an 8x8 board. Each side
has ten pieces in a triangle at one corner and races them into the opposite corner.
A piece either steps to one of its eight neighbours or jumps, possibly several times in
a row, over any occupied neighbour. The model covers:

- **Board** (`board.dfy`): the flat 64-cell store indexed by `x + y*8`, its accessors,
  the tile colours, the row-major coordinate list, and the `doMove`/`undoMove` pair that
  the search uses.
- **Moves** (`moves.dfy`, `dedup.dfy`): the recursive move search, the deduplication to
  one shortest move per `(from, to)` pair, and the per-tile and all-pieces generators.
  Legality is also stated on its own (`Moves.LegalMove`), and the search is proved to
  return exactly the legal moves.
- **Evaluation** (`evaluation.dfy`): the per-side score (1000 minus the summed Manhattan
  distance to the side's corner; 980 marks a win), the zero-sum evaluation, the
  move-ordering heuristic and the root ordering.
- **Search** (`search.dfy`): fail-hard negamax with alpha-beta pruning, a plain negamax
  reference that it is proved to agree with, and the root driver `findMove`. The driver
  maps the difficulty to a depth and collects the moves tied for the best value.
- **Interactive** (`interactive.dfy`): the page's game logic. This covers the position
  string loader with its guarded piece placement, the human move attempt, the
  application of the AI's reply, and the start-up position.

Modelling choices:

- **Pure functions on an immutable board.** The source mutates one shared board: every
  `doMove` is undone by an `undoMove`. The model threads the board through each search
  call and returns it with the value (`Search.Outcome`). Each call is proved to return
  the board it was given.
- **Abstract game, concrete engine.** The search is written over a `Search.Game`: a move
  generator, a win test and an evaluation, with every generated move reversible and every
  evaluation finite. `Search.Engine()` is the game this code base plays (`AllMoves`,
  score 980, `Evaluate`), and `Search.FindMove` runs the root driver on it.
- **Infinity.** `±Infinity` in the search window becomes `±Search.Inf` (1 000 000). Every
  evaluation lies within ±896 (`Evaluation.MaxEvaluation`).
- **Random choice.** `Math.random` becomes a parameter `roll`. The chosen move is
  `bestMoves[roll % |bestMoves|]`, and `Search.EveryTieReachable` shows every tied move
  is chosen for some roll.
- **Two board classes.** `src/board.ts` is mid-refactor: it has no `doMove`/`undoMove`
  and a zero-argument constructor. The callers use the built class in `dist/worker.js`
  (lines 139-171), so `Board.DoMove`/`Board.UndoMove` follow that class. `DoMove`
  clears `from` before writing `to`. The page's own move (`src/interactiveBoard.ts`
  220-222) writes `to` first and then clears `from`. It is `Interactive.ApplyMove`,
  proved equal to `DoMove` whenever `from != to`.
- **The ordering corner.** `evaluateMove` (`src/ai.ts` 89-90) measures against
  x = (black ? 0 : 7), y = (white ? 7 : 0). That is (0, 0) for black and (7, 7) for
  white, while the score uses (0, 7) and (7, 0). This is modelled as written
  (`Evaluation.OrderingCorner`): `Evaluation.EvaluateMoveFlipsRows` and
  `Evaluation.EvaluateMoveDisagreesWithScore` state the difference. The older build in
  `dist/worker.js` (214-215) uses the score corner. The ordering cannot change which
  moves are tied for best: `Search.Ties` states that set independently of the order.
- **The loader.** `loadFen` splits on `/`. It adds `parseInt` of every character other
  than `P` and `p` to the column, and writes through the page's guarded `setPiece`:
  - the write happens only when the cell at flat index `x + 8y` holds `'none'`;
  - an index past the array or a NaN column reads as `undefined`, so nothing is written.
  `Interactive.Column` carries NaN, which absorbs every later addition.
  `Interactive.FenCell` is an independent reading of a well-formed string, and
  `Interactive.LoadFenIsReference` proves the loader produces it on a fresh board.
- **The start-up position.** The string loaded at start-up (`dist/index.js` 418) is
  `Interactive.StartFen`, written as the join of its eight rows.
  `Interactive.StartPosition` proves it loads the two corner triangles.

## Model

| member | source | states |
|---|---|---|
| Board.NewBoard | src/board.ts:14-15 | a new board has 64 cells and every one is empty |
| Board.IndexBijective | src/board.ts:20-26 | `x + y*8` is one-to-one on the in-bounds cells, and the cell is recovered from its index |
| Board.Cell | src/board.ts:20-22 | every index 0..63 is the flat index of some in-bounds cell, so the store has no unused slot |
| Board.IndexParts | src/board.ts:20-22 | column and row are the index mod 8 and div 8 |
| Board.GetPiece | src/board.ts:20-22 | reads flat index x + y*8; with `Board.IndexBijective` each in-bounds cell has its own slot, and `Board.SetPiece` states get-after-set |
| Board.SetPiece | src/board.ts:24-26 | reading the written cell gives the written piece, and every other cell is unchanged |
| Board.TileColor | src/board.ts:28-30 | the tile palette indexed by (x + y) mod 2; its contract is stated by `Board.TileColorParity` and `Board.TileColorsAlternate` |
| Board.TileColorParity | src/board.ts:28-30 | a tile is white exactly when x + y is even |
| Board.TileColorsAlternate | src/board.ts:28-30 | neighbours along a row or column always differ in colour |
| Board.Coordinates | src/board.ts:32-42 | 64 in-bounds cells in row-major order: entry k is the cell of flat index k |
| Board.DoMove | dist/worker.js:161-165 | the piece on `from` ends on `to`, `from` is emptied when distinct from `to`, and no other cell changes |
| Board.UndoMove | dist/worker.js:166-170 | the piece on `to` ends on `from`, `to` is emptied, and no other cell changes |
| Board.UndoAfterDo | dist/worker.js:161-170 | undo after do restores the board when from != to and `to` was empty |
| Board.DoAfterUndo | dist/worker.js:161-170 | do after undo restores the board when from != to and `from` was empty |
| Board.UndoLosesOccupiedTarget | dist/worker.js:161-170 | with an occupied target, undo after do does not restore the board |
| Dedup.Buckets | src/moves.ts:21-31 | one bucket per key of the input, no key twice, each holding exactly that key's moves in input order |
| Dedup.ShortestIndex | src/moves.ts:35-42 | the position of the first move of least path length, which is the head after a stable sort by path length |
| Dedup.Deduplicate | src/moves.ts:15-45 | output moves come from the input, the key sets are equal, no key repeats, and each kept move is no longer than any input move with its key |
| Moves.Steps | src/moves.ts:102-129 | each step extends the path by one neighbour that is in bounds and empty |
| Moves.LegalMove | src/moves.ts:100-178 | independent specification of a legal move: a step to an empty in-bounds neighbour, or a non-repeating chain of jumps over occupied cells onto empty ones; `Moves.SearchIsExact` ties the search to it |
| Moves.Jumps | src/moves.ts:132-169 | each result extends the path by a non-repeating jump chain and ends at the chain's last cell |
| Moves.UnvisitedShrinks | src/moves.ts:151-163 | a jump landing off the path shrinks the set of unvisited cells, so the recursion ends |
| Moves.Search | src/moves.ts:80-181 | every result is a legal move of the start piece that extends the current path |
| Moves.SearchIsExact | src/moves.ts:80-181 | a move is returned by the search from a cell exactly when it is legal for that cell |
| Moves.ChainFound | src/moves.ts:132-178 | every extension of the current path by legal non-repeating jumps is returned, stopping at its last cell |
| Moves.JumpPrefixesFound | src/moves.ts:171-178 | every prefix of a returned jump chain with at least one jump is itself returned |
| Moves.FromTile | src/moves.ts:47-63 | every move of a tile is legal for it, and no two share a target |
| Moves.FromTileComplete | src/moves.ts:47-63 | every legal target of the tile is reached, by a move no longer than any legal move to it |
| Moves.FromTileShortest | src/moves.ts:37-41 | a kept move is no longer than any legal move with the same target |
| Moves.LegalIsReversible | src/moves.ts:112-157 | a legal move has distinct in-bounds endpoints and an empty target, so undo inverts do |
| Moves.PathLengthBound | src/moves.ts:151-163 | a legal path never repeats a cell, so it has at most 64 cells, and from != to |
| Moves.LonePieceOnlySteps | src/moves.ts:140-157 | with no occupied neighbour a piece can only step |
| Moves.AllMoves | src/moves.ts:65-78 | every move belongs to a piece of the given colour and is legal for that piece |
| Moves.AllMovesExact | src/moves.ts:65-78 | a move is in the aggregate exactly when it is a tile move of a cell holding the colour |
| Moves.AllMovesReversible | src/moves.ts:65-78 | every generated move can be done and undone on the board it came from |
| Evaluation.DistanceSum | src/ai.ts:164-169 | the summed distance over n cells is at most 14n |
| Evaluation.CountPlayerScore | src/ai.ts:158-173 | a score lies between 1000 - 896 and 1000 |
| Evaluation.Evaluate | src/ai.ts:148-156 | the value is the mover's score minus the opponent's and lies within ±896 |
| Evaluation.EvaluateAntisymmetric | src/ai.ts:148-156 | the two sides see opposite values, white's being white's score minus black's |
| Evaluation.Finished | src/ai.ts:114 | the win test: the side's score equals 980; `Search.Choose` and `Search.AlphaBeta` state how it stops the search |
| Evaluation.DistanceSumChange | src/ai.ts:164-169 | changing one cell changes the summed distance by that cell's change alone |
| Evaluation.ScoreAfterMove | src/ai.ts:158-173 | a move raises the mover's score by the distance it gains towards the mover's corner and leaves the opponent's score unchanged |
| Evaluation.OrderingCorner | src/ai.ts:89-90 | the corner the heuristic uses, (0, 0) for black and (7, 7) for white; `Evaluation.EvaluateMoveFlipsRows` relates it to the score corner |
| Evaluation.EvaluateMove | src/ai.ts:87-105 | distance gained towards the ordering corner; stated by `Evaluation.EvaluateMoveFlipsRows` and `Evaluation.EvaluateMoveDisagreesWithScore` |
| Evaluation.EvaluateMoveFlipsRows | src/ai.ts:87-105 | the ordering heuristic matches the score's column progress and negates its row progress |
| Evaluation.EvaluateMoveDisagreesWithScore | src/ai.ts:89-90 | a concrete white step that the heuristic rates +1 but that lowers white's score |
| Evaluation.InsertAscending | src/ai.ts:78-80 | inserting into a sorted list gives a sorted permutation of the list plus the element |
| Evaluation.SortAscending | src/ai.ts:78-80 | the sort is a permutation of its input and ascending in the heuristic |
| Evaluation.Reverse | src/ai.ts:82 | entry i of the result is entry n-1-i of the input |
| Evaluation.OrderMoves | src/ai.ts:75-84 | the ordering is a permutation of the moves and non-increasing in the heuristic |
| Search.AlphaBeta | src/ai.ts:107-139 | the board comes back unchanged; a leaf returns the evaluation; otherwise the value lies in [alpha, beta] and is alpha when there is no move |
| Search.TryMoves | src/ai.ts:121-138 | the loop returns within [alpha, beta], gives alpha for an empty list, and restores the board |
| Search.Reply | src/ai.ts:122-130 | doing, searching and undoing a move gives the board back |
| Search.AlphaBetaIsNegamax | src/ai.ts:107-139 | alpha-beta equals plain negamax at a leaf and negamax clamped to the window elsewhere |
| Search.TryMovesIsBestReply | src/ai.ts:121-138 | the pruned loop equals the clamped best reply over the same moves |
| Search.ReplyIsExact | src/ai.ts:123-129 | a reply searched with the negated window agrees with its exact value once clamped |
| Search.FullWindowIsExact | src/ai.ts:41-47 | with the window (-Inf, Inf) the search returns the exact negamax value |
| Search.Negamax | src/ai.ts:107-139 | independent specification: plain negamax without pruning, bounded by ±Inf; `Search.AlphaBetaIsNegamax` ties the pruned search to it |
| Search.DepthFor | src/ai.ts:14-18 | easy, medium and hard search 0, 1 and 2 plies below the root; `Search.EasyIsGreedy` states the easy case |
| Search.RootValue | src/ai.ts:32-50 | independent specification of a root move's value: the evaluation if the move wins, else the negated negamax value of the reply; `Search.ScoreMove` ties the root loop to it |
| Search.ScoreMove | src/ai.ts:30-52 | a root move's score is its exact value (the evaluation if it wins, else the negated reply value), and the board is restored |
| Search.RootLoop | src/ai.ts:29-60 | the loop's best score is the maximum value seen; its list is the earlier ties when that score never changed, then every move of that value in order |
| Search.RootLoopFindsTie | src/ai.ts:54-59 | starting from -Inf a nonempty move list leaves at least one tied move |
| Search.Ties | src/ai.ts:20-60 | the tie list holds exactly the AI's moves of greatest value, at least one when a move exists, and the board is restored |
| Search.Choose | src/ai.ts:10-68 | no move exactly when the AI has won or has no move; otherwise a generated, reversible move of greatest value |
| Search.EveryTieReachable | src/ai.ts:68 | each move tied for best is chosen for some roll |
| Search.UniqueBestIsChosen | src/ai.ts:54-68 | a strictly best move is chosen whatever the roll |
| Search.FindMove | src/ai.ts:5-69 | the engine's choice: none exactly at a win or with no moves, otherwise a generated move of greatest value for the difficulty's depth, board unchanged |
| Search.EasyIsGreedy | src/ai.ts:14-18 | on easy a move's value is the evaluation of the position it leads to |
| Interactive.Split | src/interactiveBoard.ts:56 | at least one row, no row holding a separator |
| Interactive.JoinSplit | src/interactiveBoard.ts:56 | joining the split rows with the separator gives back the string |
| Interactive.SplitJoin | src/interactiveBoard.ts:56 | splitting the join of separator-free rows gives back the rows |
| Interactive.PlaceGuarded | src/interactiveBoard.ts:92-95 | an occupied cell is never overwritten, only cell x + 8y can change, and an empty one receives the piece |
| Interactive.PlacePiece | src/interactiveBoard.ts:92-95 | the guarded write; its contract is stated by `Interactive.PlaceGuarded` |
| Interactive.LoadRowStep | src/interactiveBoard.ts:60-69 | a piece character places its piece at the column and advances by one; a digit only advances by its value |
| Interactive.LoadRow | src/interactiveBoard.ts:60-70 | one row of the loader; stated by `Interactive.LoadRowStep`, `Interactive.LoadRowCell` and `Interactive.NaNRowPlacesNothing` |
| Interactive.LoadRowCell | src/interactiveBoard.ts:59-70 | a well-formed row written from column x0 onto empty cells puts its reading there cell for cell and touches nothing else |
| Interactive.LoadRowsCell | src/interactiveBoard.ts:56-73 | rows loaded from row y onto empty rows put the reference reading on every cell from row y on and leave the rows above alone |
| Interactive.LoadRows | src/interactiveBoard.ts:59-73 | the rows in order, each from column 0 of the next row; stated by `Interactive.LoadRowsCell` |
| Interactive.LoadFenIsReference | src/interactiveBoard.ts:55-74 | loading a well-formed string onto a fresh board gives, on each cell, the reference reading of the string |
| Interactive.LoadFen | src/interactiveBoard.ts:55-74 | the loader; stated by `Interactive.LoadFenIsReference` and `Interactive.LoadFenKeepsPieces` |
| Interactive.LoadFenKeepsPieces | src/interactiveBoard.ts:55-74 | whatever the string, loading never removes or replaces a piece already on the board |
| Interactive.NaNRowPlacesNothing | src/interactiveBoard.ts:67-69 | once the column is NaN, the rest of the row places nothing |
| Interactive.NewGame | src/interactiveBoard.ts:19-20 | the page starts with an empty board and white to move |
| Interactive.ApplyMove | src/interactiveBoard.ts:220-222 | `from` is emptied, the piece reaches `to` when distinct, and no other cell changes |
| Interactive.ApplyMoveIsDoMove | src/interactiveBoard.ts:220-222 | for from != to the page's move equals the engine's; for from == to the page loses the piece and the engine keeps it |
| Interactive.PageUndoMove | src/interactiveBoard.ts:228-232 | the page's undo as written, through the guarded write; `Interactive.PageUndoDuplicates` states what it does |
| Interactive.PageUndoDuplicates | src/interactiveBoard.ts:228-232 | the page's undo after a generated move leaves the piece on both cells, so it does not restore the board |
| Interactive.DoMoveKeepsPieces | dist/worker.js:161-165 | a reversible move keeps the board's multiset of contents |
| Interactive.FindTarget | src/interactiveBoard.ts:247-249 | returns a listed move ending on the target, and none exactly when no listed move ends there |
| Interactive.TryMove | src/interactiveBoard.ts:234-261 | not the mover's piece and deselect are recognised exactly; a played move is a generated move of the start piece to the target, done on the board, with the turn passed |
| Interactive.TryMoveIsLegal | src/interactiveBoard.ts:234-255 | a move is played exactly when the mover owns the start piece and a legal move reaches the target; otherwise it is rejected; the played move is legal and shortest |
| Interactive.ReceiveAiMove | src/interactiveBoard.ts:209-218 | the turn always passes; the board changes only when a move arrives: then `from` is emptied, no cell but `from` and `to` changes, and for from != to the result is the engine's move |
| Interactive.AiTurn | src/interactiveBoard.ts:205-218 | the board is unchanged exactly when the AI has won or has no move; otherwise one generated move is done; pieces are kept |
| Interactive.RoundKeepsPieces | src/interactiveBoard.ts:257-261 | a human move and the AI's reply keep every piece and hand the turn back |
| Interactive.StartFenRows | dist/index.js:418 | the start-up string splits into its eight rows |
| Interactive.StartPosition | dist/index.js:418 | loading the start-up string gives black's triangle at the top right and white's at the bottom left |

## Findings

| source | as written | input that shows it | evidently intended | confidence | as-written member | corrected member |
|---|---|---|---|---|---|---|
| src/interactiveBoard.ts:228-232 | `undoMove` writes both cells through the guarded `setPiece`, which only writes an empty cell, so `to` is never cleared | any generated move, e.g. a white step from (3, 7) to (4, 7) on the start position: after do and undo both cells hold white | put the piece back on `from` and empty `to`, the inverse of the move | medium, not executed; the page never calls this method | Interactive.PageUndoDuplicates | Board.UndoAfterDo |

## Left out

- DOM rendering, tile and piece elements, CSS, `renderBoard`, click-to-tile conversion, selection highlighting, animation, `setTimeout` and audio: user interface only.
- The worker message transport and the glue files: `Search.FindMove` takes the message's (pieces, colour, difficulty) as its inputs, and `Interactive.AiTurn` composes it with `Interactive.ReceiveAiMove`.
- `Date.now`, `console.log` and the `TIMES_TO_EVAL` counter: no effect on results.
- `Math.random`: replaced by the `roll` parameter.
- `findMove2` and the rest of `dist/worker.js` beyond `doMove`/`undoMove`: an older build that duplicates `src/` (fixed depth 2, no tie list).
- `dist/index.js` beyond the start-up string, including the `localStorage` difficulty setting.
- The board class constructor's `console.log` call.
- Interactive.PlacePiece: the page's `setPiece` also updates the piece element at (x, y) (src/interactiveBoard.ts:106-110). It throws when no element sits there, as for a NaN column or a row past the eighth, and that aborts the rest of `loadFen`. The model writes nothing and carries on loading. The board writes made before the throw are the same in both, and a well-formed string on a fresh board never throws.
- Interactive.TryMove: requires an in-bounds start cell. The page takes it from a click, whose conversion can yield column or row 8 at the board's far edge.
- Interactive.ReceiveAiMove: requires an arriving move to have in-bounds endpoints, which every move the engine generates has.
- Board.GetPiece: requires an in-bounds cell, while the class reads any index (an index past the array reads as `undefined`).
- Search.AlphaBeta: `±Infinity` is the sentinel `±Search.Inf`, which lies beyond every evaluation.
- Evaluation.Finished: the win test is the score equal to 980, as in the source. That 980 is reached only with the ten pieces in the target triangle is not proved.
- Interactive.StartFenRows: the start-up string is stated as the join of its eight rows rather than as a string literal.
- `InteractiveBoard.undoMove`: the page never calls it. It appears only as the finding above.
