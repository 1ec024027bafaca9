# Sliding-block puzzle: movement engine and level parser

This project is a Dafny model of the core of a browser sliding-block puzzle
(a "Klotski" style game). The large red block, of type `d`, must reach the
exit gap in the bottom wall. The model covers two parts of the game.

The first part is the rules engine of `game.js`:
- the shipped level: a 7 x 6 board with walls on the border and the exit on
  row 6 at columns 2 and 3;
- the occupancy rule `canOccupy`;
- the one-cell move rule `isValidMove`;
- move recording (`recordMove`, `movePiece`);
- the victory latch `checkVictory`;
- the board logic of the undo and replay buttons;
- the drag handlers, without their pixel arithmetic.

The second part is the level parser of `test-parser.js`, `parseLevel` and
`detectPiece`. It scans a character grid in row-major order and keeps a set
of claimed cells. It returns:
- the dimensions of the grid;
- the bounding span of the exit cells `f`;
- the pieces `v` (1 x 2), `h` (2 x 1), `d` (2 x 2) and `a` (1 x 1), with
  deterministic ids.

The game state is an immutable record: the level, a map from id to piece,
the history of moves, the undone list, the victory flag and the active drag.
Every handler is a function from state to state.

Modules:
- `Board`: pieces, footprints, exits.
- `Decimal`: the counter digits in piece ids.
- `LevelParser`: the parser.
- `Engine`: the level, occupancy, moves and victory.
- `Safety`: the board invariant that occupancy protects.
- `ClassicLevel`: facts about the shipped level.
- `History`: undo and replay.
- `Drag`: the pointer handlers.
- `Scenarios`: concrete games on the shipped level.

Conventions:
- A JavaScript `Map` iterates in insertion order. The board map is filled in
  the order of the level's piece list, and no handler adds keys later. So the
  "first goal-type piece" that `checkVictory` looks for is taken in the level's
  order (`Engine.GoalPiece`).
- Level reload (`initGame`, `loadLevel`) always installs the shipped level.
  It is modelled as `Engine.InitGame`, whatever level the state held before.
- The parser reads `grid[0].length` and fails on an empty grid. This is the
  `EmptyGrid` result. A row shorter than the first row reads as `undefined`
  past its end. `LevelParser.At` returns `None` there, and such a cell
  matches nothing.
- The two files use different piece letters: the level uses `b` and `c`, the
  parser `h` and `v`. The type is kept as a character. The goal type is `d`
  in both.

## Model

| member | source | states |
|---|---|---|
| Engine.CanOccupy | game.js:243-285 | negative target coordinates and footprints past the board are refused; an exit cell admits only type `d`; a border cell that is not an exit is refused to everyone; a cell covered by a piece with another id is refused; the result is true exactly when the footprint is on the board and every cell passes every check |
| Engine.FootprintClear | game.js:251-282 | the nested cell loop from a given cell on accepts exactly when every remaining footprint cell in row-major order passes the cell checks |
| Engine.IsValidMove | game.js:288-307 | a diagonal step or any step whose row and column distances do not add up to 1 is refused; otherwise the move is valid exactly when the target passes `canOccupy` |
| Engine.RecordMove | game.js:309-321 | only the history and undone list change; exactly one record is appended, after the old history, holding the piece id, the given origin and the piece's current cell; undone is emptied |
| Engine.MovePiece | game.js:337-357 | level, drag and the set of ids are kept; the moved piece alone changes, and only in row and column; one record with old and new cell is appended; undone is emptied; victory is set exactly when it was set before or the goal stands on the exit after the move |
| Engine.CheckVictory | game.js:397-428 | only the victory flag can change; a set flag is left alone; without a `d` piece nothing changes; otherwise the flag becomes set exactly when the goal's bottom row is the exit row and its columns lie within the exit's columns |
| Engine.FirstGoal | game.js:402 | the piece found is of type `d`, is on the board, and no earlier id in the order holds a `d` piece; none is found exactly when no listed piece is of type `d` |
| Engine.PlaceAll | game.js:207-224 | the last piece placed is filed under its id |
| Engine.PlaceAllKeys | game.js:207-224 | placing the level's pieces adds exactly their ids as keys to the board map |
| Engine.PlaceAllLast | game.js:207-224 | the entry under each placed id is the last piece carrying that id |
| Engine.PlaceAllKeeps | game.js:207-224 | entries whose key no placed piece carries are kept as they were |
| Engine.PlaceAllKeysMatch | game.js:207-224 | placing keeps every entry filed under its own id |
| Engine.Fresh | game.js:109-122 | a reload empties history and undone, clears the victory flag and ends any drag |
| Engine.InitGame | game.js:670-695 | start and reload (`loadLevel`, game.js:500-521) install the shipped level with empty history and undone list, no victory and no drag |
| Safety.LegalMeansDisjoint | game.js:268-281 | on a board where every piece passes `canOccupy` where it stands, no two pieces share a cell |
| Safety.CanOccupyIgnoresPosition | game.js:251-252 | the check depends on the piece's size, id and type only, never on where the piece now stands |
| Safety.CanOccupyIgnoresOwnEntry | game.js:268-271 | the piece's own board entry never blocks it, because pieces with its id are skipped |
| Safety.OtherStaysLegal | game.js:268-281 | after one piece is placed where `canOccupy` allows, every other piece still passes the check where it stands |
| Safety.RelocateKeepsLegal | game.js:243-285 | moving one piece of a legal board to a cell `canOccupy` accepts keeps the board legal |
| Safety.MovePieceKeepsLegal | game.js:337-357 | a move that `isValidMove` accepts keeps the board legal |
| ClassicLevel.InitGamePieces | game.js:2-24 | after start or reload the board holds the ten pieces of the level, each under its id |
| ClassicLevel.InitGameIsStart | game.js:670-695 | start and reload give the level's pieces, empty history, no victory and no drag |
| ClassicLevel.StartIsLegal | game.js:2-24 | the level's start layout passes `canOccupy` for every piece |
| ClassicLevel.GoalWinsOnlyAt | game.js:405-408 | on the shipped level the 2 x 2 goal is on the exit exactly when its top-left is (5, 2) |
| ClassicLevel.GoalMayReachExit | game.js:253-266 | the goal may stand at (5, 2), half on the exit, whenever no other piece covers those four cells |
| ClassicLevel.OnlyGoalOnExit | game.js:259-262 | a piece that is not of type `d` is refused any footprint touching an exit cell |
| ClassicLevel.ClassicGoal | game.js:402 | on the shipped level the goal the win check looks at is the piece filed under `d` |
| ClassicLevel.NotWonAbove | game.js:405-408 | a goal whose top row is above row 5 has not won |
| ClassicLevel.OtherMoveDoesNotWin | game.js:337-357 | moving another piece while the goal is at its start cell does not win |
| History.ApplyMoves | game.js:637-652 | applying records never adds or removes a piece |
| History.KnownMoves | game.js:637-652 | the records kept all name a piece on the board, and a history naming only such pieces is kept whole |
| History.LastMoveOf | game.js:637-652 | the record found names the piece and no later record does; none is found exactly when no record names the piece |
| History.ApplyMovesPosition | game.js:637-652 | after a history is applied, every piece stands at the target of the last record naming it, or where it was if none does |
| History.ApplyMovesKeepsKeys | game.js:638-642 | applying records keeps every piece filed under its own id |
| History.ApplyKnownMoves | game.js:638-639 | dropping the records that name no piece does not change the board the history produces |
| History.MovePieceAppliesItsRecord | game.js:337-350 | the record a move appends, applied to the board before the move, gives the board after it |
| History.HandleReplay | game.js:615-667 | an empty history is a no-op; otherwise the result is the shipped level with empty undone list and no drag, the snapshot's victory flag, the level's pieces, and as history the snapshot's records that name a piece |
| History.ReplayLoop | game.js:637-652 | the loop over the snapshot ends with the board the snapshot's records produce from the reloaded board, and with the snapshot's known records as history |
| History.Replay | game.js:615-667 | the step-by-step handler gives the same state as the fold |
| History.ReplayPositions | game.js:637-652 | after replay each piece is at the target of its last record in the snapshot, or at its level position if no record names it |
| History.ReplayKeepsHistory | game.js:646 | a snapshot whose records all name pieces of the level comes back from replay unchanged |
| History.ReplayIdempotent | game.js:615-667 | replaying a replayed game changes nothing |
| History.StartKeysMatch | game.js:207-224 | the reloaded board files every piece under its own id |
| History.MovePieceKeepsConsistent | game.js:337-357 | a move keeps the board equal to what its history produces from the start layout, and keeps every record naming a piece of the level |
| History.MovePieceFollowsHistory | game.js:337-350 | from any start board filed by id, a move keeps the board equal to what the history produces and keeps every record naming a piece of that board |
| History.AppendFollowsHistory | game.js:309-321 | a change that leaves board and history alone, or appends one record of a piece on the board and applies it, keeps the board equal to what the history produces |
| History.ReplayReproduces | game.js:615-667 | on a state whose board its history produces from the start layout, replay rebuilds the same board, history and victory flag; only the undone list and the drag are reset |
| History.HandleUndo | game.js:560-593 | once won, or with an empty history, undo does nothing; otherwise the result is the freshly started game |
| History.ReplayRemaining | game.js:571-584 | the remaining records are applied to the reloaded board and kept as history; victory is set exactly when the last record names a piece and the goal then stands on the exit |
| History.UndoForgetsEveryMove | game.js:563-571 | with two or more moves undo leaves no record at all, not all but the last, and puts every piece back at its start cell |
| History.UndoIntended | game.js:569-589 | the corrected undo leaves all records but the last as history and the board they produce from the start layout; it is won exactly when at least one record remains, the last remaining one names a piece of the level, and the goal then stands on the exit |
| History.UndoIntendedTakesBackMove | game.js:560-593 | on a state that is not won and whose board its history produces from the start layout, the corrected undo of a move that does not win gives back the state before the move |
| Drag.PointerDown | game.js:430-454 | once won, or on a missing piece, pointer down does nothing; otherwise a drag starts on that piece with its current cell as the reference cell |
| Drag.PointerMove | game.js:359-395 | only the board and the drag can change; without a drag nothing happens; the held piece steps to the target exactly when `isValidMove` accepts the step from its current cell, and the target then becomes the drag's reference cell; otherwise nothing changes |
| Drag.PointerUp | game.js:456-494 | the drag always ends and the board is kept; if the piece is away from the reference cell, exactly one record from the reference cell to the piece's cell is appended, undone is emptied and victory is checked; otherwise nothing else changes |
| Drag.DragSteps | game.js:359-395 | a run of pointer moves never touches the history, the undone list, the victory flag, the level or the set of ids |
| Drag.DragStepsKeepSynced | game.js:388-392 | during a drag the reference cell always equals the held piece's cell |
| Drag.DragStepsMovesHeld | game.js:381-393 | pointer moves change only the held piece, and only its cell |
| Drag.DragStepsKeepLegal | game.js:382-385 | pointer moves keep a legal board legal |
| Drag.DragNeverRecorded | game.js:467-476 | press, any pointer moves and release only move the held piece and end the drag: the release neither records a move nor checks for victory, so history and victory flag are as before |
| Drag.PlayNeverRecords | game.js:430-494 | no session of gestures (press, pointer moves, release) changes the history, the undone list or the victory flag |
| Drag.PlayKeepsLegal | game.js:430-494 | a session of gestures keeps a legal board legal |
| Drag.AsWrittenAlwaysLegal | game.js:243-285 | from the start, whatever is dragged, every piece still passes `canOccupy` where it stands: no overlap, no wall, and only the goal on the exit |
| Drag.AsWrittenNeverWon | game.js:467-476 | from the start, whatever is dragged, the history stays empty and victory is never set, so undo (game.js:561) and replay (game.js:616) always return at their guards |
| Drag.PointerMoveFixed | game.js:381-393 | the corrected pointer move keeps the drag and its reference cell; the piece steps exactly when `isValidMove` accepts the step |
| Drag.DragStepsFixed | game.js:359-395 | corrected pointer moves keep the drag, history, level, victory flag and the set of ids |
| Drag.DragStepsFixedKeepLegal | game.js:382-385 | corrected drag steps keep a legal board legal |
| Drag.DragStepsFixedIds | game.js:384-385 | corrected drag steps keep every piece filed under its own id |
| Drag.DragStepsFixedMovesHeld | game.js:381-393 | corrected drag steps change only the held piece, and only its cell |
| Drag.DragFixedAppliesItsRecord | game.js:467-476 | with the reference cell kept, the release either leaves board and history alone or appends one record of the held piece whose application to the board before the press gives the board after |
| Drag.DragFixedKeepsConsistent | game.js:456-494 | with the reference cell kept, a drag keeps the board equal to what its history produces from the start layout |
| Drag.DragFixedWinsOnExit | game.js:467-473 | with the reference cell kept, the release of a drag that moved the piece sets victory exactly when the goal stands on the exit, and one that did not move it leaves victory unset |
| Drag.DragFixedRecordsOneMove | game.js:467-476 | with the reference cell kept, a drag ending away from its start records exactly one move from the start cell to the end cell, and a drag ending where it began records nothing |
| Drag.PointerMoveKeepsLegal | game.js:382-385 | one pointer move, as written or corrected, keeps a legal board legal |
| Scenarios.FirstMoveValid | game.js:288-307 | from the start layout, moving `c1` one cell down is valid |
| Scenarios.SecondMoveValid | game.js:288-307 | after that, moving `c2` one cell down is valid |
| Scenarios.FirstMoveReached | game.js:337-357 | moving `c1` down from the start gives the one-move game |
| Scenarios.SecondMoveReached | game.js:337-357 | moving `c2` down next gives the two-move game |
| Scenarios.TwoMovesPlayed | game.js:337-357 | the two-move game used by the undo scenarios is what the two moves produce from the start |
| Scenarios.TwoMovesReachable | game.js:337-357 | the state after those two moves is the one the two records produce from the start |
| Scenarios.UndoAfterTwoMoves | game.js:560-571 | undo after those two moves returns the freshly started game with no record |
| Scenarios.UndoIntendedAfterTwoMoves | game.js:569-589 | the corrected undo keeps the first record and leaves `c1` one cell down |
| Scenarios.DragOfOneCell | game.js:382-392 | dragging `c1` one cell down moves it but records nothing; with the reference cell kept, the same drag is recorded |
| Scenarios.GoalStepValid | game.js:288-307 | with only the goal on the board, at (4, 2), stepping it down to (5, 2) is valid |
| Scenarios.GoalDragToExitAsWritten | game.js:456-494 | dragging that goal onto its winning cell moves it there, yet the release records nothing and does not set victory |
| Scenarios.GoalDragToExitFixed | game.js:456-494 | with the reference cell kept, the same drag is recorded as one move and sets victory |
| LevelParser.ParseLevel | test-parser.js:16-70 | an empty grid is the error case. Otherwise: id, name and grid are passed through; rows is the number of rows and cols the length of the first row; the exit is absent exactly when no `f` cell is scanned, and is otherwise the greatest row and least and greatest column of the `f` cells; every piece passes its shape check; ids are `d` for the goal and letter plus 1-based rank otherwise; pieces come in strictly row-major order of their top-left cells, and none starts on a cell an earlier one covers; every cell where a shape check passes is covered by some piece |
| LevelParser.ParseLevelScans | test-parser.js:26-59 | the parser's pieces and exit are those of the row-major scan from the first cell |
| LevelParser.ScanFrom | test-parser.js:26-59 | the scan from a cursor keeps the counters ready, only adds claimed cells, only appends pieces, and leaves the exit alone when no `f` cell lies at or after the cursor |
| LevelParser.Visit | test-parser.js:27-57 | a claimed cell is skipped; claimed cells are only added; an unclaimed `f` cell widens the exit span and is claimed, and no other cell touches the exit; at most one piece is appended, with its top-left at the cell, of the cell's piece letter, and the cell then claimed |
| LevelParser.ScanFromKeepsInv | test-parser.js:26-59 | the scan keeps its invariant: counters match the pieces found, claimed cells are justified, the exit span and completeness hold up to the cursor |
| LevelParser.VisitKeepsInv | test-parser.js:27-57 | one cell of the scan advances the invariant by one cell |
| LevelParser.DetectPiece | test-parser.js:72-127 | a piece found has no id yet, the given letter, its top-left at the given cell and its letter's shape; inside the grid every other cell of it holds the letter; `a` and any other character always give a 1 x 1 piece |
| LevelParser.DetectedShape | test-parser.js:79-118 | a piece the shape check accepts has its letter's fixed shape, lies inside the grid, and holds its letter in every cell |
| LevelParser.DetectPieceComplete | test-parser.js:79-118 | a footprint of its letter's shape, inside the grid and holding the letter in every cell, passes the shape check |
| LevelParser.ParsedPieceShape | test-parser.js:50-56 | every parsed piece is of a piece letter and of its shape, lies inside rows x cols, and each of its cells holds its letter |
| LevelParser.ParsedIdsUnique | test-parser.js:52-54 | two parsed pieces share an id only when both are goal pieces |
| LevelParser.OverlappingGoalBlocks | test-parser.js:50-51 | the grid `.dd / ddd / dd.` parses to two goal blocks, both called `d`, which share cell (1, 1) |
| Decimal.StringToNatOfNatToString | test-parser.js:54 | the decimal rendering of a counter reads back as the counter |
| Decimal.NatToStringInjective | test-parser.js:54 | distinct counters render to distinct strings |

## Left out

- DOM work is not modelled. This covers board and piece elements, the
  move-history list, overlays, button enabling and the move counter. It is
  presentation only.
- The pixel arithmetic of `getMetrics`, `updatePiecePosition` and the rounding
  of the pointer offset in `handlePointerMove` is not modelled. The target
  cell of a pointer move is a parameter instead.
- The timer, the elapsed-time display, and the `setTimeout`/`await` pacing of
  undo and replay are not modelled. Replay and the corrected undo are plain
  folds over the records.
- No other events interleave with replay in the model. Replay is taken to
  run to completion before any other event.
- `handleRestart` and `handleReset` are not separate members. Their effect on
  the state is the reload `Engine.InitGame`. The `confirm` dialog is browser
  input.
- Event-listener wiring and pointer capture are not modelled. They have no
  effect on the game state.
- The parser's file reading, its JSON decoding and its console output in
  `test-parser.js` are not modelled.
- `detectPiece` is only ever called with a piece letter. For any other
  character it would return a 1 x 1 piece without claiming it. The model
  returns that piece but claims its cell, a difference no input can reach.
- `movePiece` is modelled even though no handler of the game calls it.
- The model has no strings beyond character sequences and no floating point.

## Findings

| source | as written | input that shows it | evidently intended | confidence | as-written member | corrected member |
|---|---|---|---|---|---|---|
| game.js:560-571 | undo pops the last record, then reinitialises the game, which empties the history; the copy of the remaining records it then replays is always empty | moves `c1` (1,1)->(2,1) and `c2` (1,4)->(2,4) from the start, then undo: no record is left and both pieces are back at the start; in the game as written such a history cannot arise, because only `movePiece`, which nothing calls, and a recorded drag append records | the remaining records are kept and replayed, leaving `c1` at (2,1) and one record | not executed | History.UndoForgetsEveryMove | History.UndoIntendedTakesBackMove |
| game.js:382-392 | each successful drag step overwrites the drag's reference cell with the new cell, so at release the piece never differs from it and the drag is never recorded | press on `c1`, move the pointer one cell down, release: `c1` is at (2,1) and the history is empty | the reference cell stays where the drag began, so the release records one move from there to the end cell | not executed | Drag.DragNeverRecorded | Drag.DragFixedRecordsOneMove |
| game.js:456-476 | the release records a move and checks for victory only when the piece is away from the drag's reference cell, which the drag keeps equal to the piece's cell; so no gesture records or checks anything, the history stays empty, victory is never set, and undo and replay always return at their guards: the game cannot be won | only the goal on the board, at (4,2): press on it, move the pointer one cell down, release: the goal stands on the exit at (5,2) and victory is not set | the release records the drag and sets victory once the goal stands on the exit | not executed | Drag.AsWrittenNeverWon | Drag.DragFixedWinsOnExit |
