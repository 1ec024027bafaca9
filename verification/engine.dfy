/** The movement engine of game.js: the level, the board state, the
    occupancy rule, one-cell moves, the move record and the win check. */
module Engine {
  import opened Board

  datatype Level = Level(id: string, name: string, rows: int, cols: int, exit: Exit, pieces: seq<Piece>)

  /** One recorded displacement of one piece. */
  datatype Move = Move(pieceId: string, fromRow: int, fromCol: int, toRow: int, toCol: int)

  /** An active drag: the piece held and the reference cell the release
      compares its position with. */
  datatype Held = Held(pieceId: string, originRow: int, originCol: int)

  datatype GameState = GameState(
    level: Level,
    pieces: map<string, Piece>,
    history: seq<Move>,
    undone: seq<Move>,
    victory: bool,
    drag: Option<Held>)

  /** The one level the game ships with: 7 rows by 6 columns, walls on the
      border, the exit on the bottom row at columns 2 and 3. */
  const Classic: Level := Level("classic", "Classic Escape", 7, 6, Exit(6, 2, 3), [
    Piece("d", 'd', 1, 2, 2, 2),
    Piece("b1", 'b', 3, 2, 2, 1),
    Piece("c1", 'c', 1, 1, 1, 2),
    Piece("c2", 'c', 1, 4, 1, 2),
    Piece("c3", 'c', 4, 1, 1, 2),
    Piece("c4", 'c', 4, 4, 1, 2),
    Piece("a1", 'a', 4, 2, 1, 1),
    Piece("a2", 'a', 4, 3, 1, 1),
    Piece("a3", 'a', 5, 2, 1, 1),
    Piece("a4", 'a', 5, 3, 1, 1)])

  function IdsOf(ps: seq<Piece>): (ids: seq<string>)
    ensures |ids| == |ps|
    ensures forall i :: 0 <= i < |ps| ==> ids[i] == ps[i].id
  {
    if |ps| == 0 then [] else [ps[0].id] + IdsOf(ps[1..])
  }

  /** Every entry of the piece map is filed under its own id. */
  ghost predicate KeysMatch(pieces: map<string, Piece>) {
    forall k :: k in pieces ==> pieces[k].id == k
  }

  /** Puts the pieces on the board in order, each under its id; a later
      piece with the same id replaces an earlier one. */
  function PlaceAll(m: map<string, Piece>, ps: seq<Piece>): (r: map<string, Piece>)
    ensures |ps| > 0 ==> ps[|ps| - 1].id in r && r[ps[|ps| - 1].id] == ps[|ps| - 1]
    decreases |ps|
  {
    if |ps| == 0 then m else PlaceAll(m[ps[0].id := ps[0]], ps[1..])
  }

  /** What placing the pieces yields: the ids of the pieces are added as
      keys, each filed under its id holds the last piece with that id, the
      other entries are kept, and no entry is filed under a foreign id. */
  lemma PlaceAllFacts(m: map<string, Piece>, ps: seq<Piece>)
    ensures forall k :: k in PlaceAll(m, ps) <==> k in m || exists i :: 0 <= i < |ps| && ps[i].id == k
    ensures forall i :: 0 <= i < |ps| && (forall j :: i < j < |ps| ==> ps[j].id != ps[i].id) ==>
      PlaceAll(m, ps)[ps[i].id] == ps[i]
    ensures forall k :: k in m && (forall i :: 0 <= i < |ps| ==> ps[i].id != k) ==> PlaceAll(m, ps)[k] == m[k]
    ensures KeysMatch(m) ==> KeysMatch(PlaceAll(m, ps))
  {
    PlaceAllKeys(m, ps);
    PlaceAllLast(m, ps);
    PlaceAllKeeps(m, ps);
    PlaceAllKeysMatch(m, ps);
  }

  lemma {:induction false} PlaceAllKeys(m: map<string, Piece>, ps: seq<Piece>)
    ensures forall k :: k in PlaceAll(m, ps) <==> k in m || exists i :: 0 <= i < |ps| && ps[i].id == k
    decreases |ps|
  {
    if |ps| > 0 {
      PlaceAllKeys(m[ps[0].id := ps[0]], ps[1..]);
      assert forall i :: 1 <= i < |ps| ==> ps[1..][i - 1] == ps[i];
    }
  }

  lemma {:induction false} PlaceAllLast(m: map<string, Piece>, ps: seq<Piece>)
    ensures forall i :: 0 <= i < |ps| && (forall j :: i < j < |ps| ==> ps[j].id != ps[i].id) ==>
      ps[i].id in PlaceAll(m, ps) && PlaceAll(m, ps)[ps[i].id] == ps[i]
    decreases |ps|
  {
    if |ps| > 0 {
      PlaceAllKeys(m[ps[0].id := ps[0]], ps[1..]);
      PlaceAllLast(m[ps[0].id := ps[0]], ps[1..]);
      PlaceAllKeeps(m[ps[0].id := ps[0]], ps[1..]);
      assert forall i :: 1 <= i < |ps| ==> ps[1..][i - 1] == ps[i];
    }
  }

  lemma {:induction false} PlaceAllKeeps(m: map<string, Piece>, ps: seq<Piece>)
    ensures forall k :: k in m && (forall i :: 0 <= i < |ps| ==> ps[i].id != k) ==>
      k in PlaceAll(m, ps) && PlaceAll(m, ps)[k] == m[k]
    decreases |ps|
  {
    if |ps| > 0 {
      PlaceAllKeys(m[ps[0].id := ps[0]], ps[1..]);
      PlaceAllKeeps(m[ps[0].id := ps[0]], ps[1..]);
      assert forall i :: 1 <= i < |ps| ==> ps[1..][i - 1] == ps[i];
    }
  }

  lemma {:induction false} PlaceAllKeysMatch(m: map<string, Piece>, ps: seq<Piece>)
    ensures KeysMatch(m) ==> KeysMatch(PlaceAll(m, ps))
    decreases |ps|
  {
    if |ps| > 0 {
      PlaceAllKeysMatch(m[ps[0].id := ps[0]], ps[1..]);
    }
  }

  /** The state a (re)load produces: the level's pieces in place, empty
      history, no victory, no drag. */
  function Fresh(level: Level): (st: GameState)
    ensures st.level == level && st.history == [] && st.undone == [] && !st.victory && st.drag == None
  {
    GameState(level, PlaceAll(map[], level.pieces), [], [], false, None)
  }

  /** Game start and level reload both set up the shipped level. */
  function InitGame(): (st: GameState)
    ensures st.level == Classic && st.history == [] && st.undone == [] && !st.victory && st.drag == None
  {
    Fresh(Classic)
  }

  // ---------------------------------------------------------------------
  // Occupancy

  predicate IsBorder(level: Level, r: int, c: int) {
    r == 0 || c == 0 || r == level.rows - 1 || c == level.cols - 1
  }

  predicate IsExitCell(level: Level, r: int, c: int) {
    InExit(level.exit, r, c)
  }

  /** No piece other than the one called `id` covers (r, c). */
  predicate NotBlocked(pieces: map<string, Piece>, id: string, r: int, c: int) {
    forall k :: k in pieces && pieces[k].id != id ==> !Covers(pieces[k], r, c)
  }

  /** The checks one footprint cell must pass. */
  predicate CellAllowed(level: Level, pieces: map<string, Piece>, piece: Piece, r: int, c: int) {
    && !(IsExitCell(level, r, c) && piece.kind != GoalKind)
    && !(IsBorder(level, r, c) && !IsExitCell(level, r, c))
    && NotBlocked(pieces, piece.id, r, c)
  }

  predicate WithinBoard(level: Level, piece: Piece, row: int, col: int) {
    0 <= row && 0 <= col && row + piece.height <= level.rows && col + piece.width <= level.cols
  }

  /** The cell-by-cell loop over the footprint of `piece` at (row, col),
      from cell (r, c) on in row-major order. */
  function FootprintClear(level: Level, pieces: map<string, Piece>, piece: Piece, row: int, col: int, r: int, c: int): (ok: bool)
    requires row <= r && col <= c
    ensures ok <==> forall rr, cc :: InFootprint(piece, row, col, rr, cc) && (rr > r || (rr == r && cc >= c)) ==>
      CellAllowed(level, pieces, piece, rr, cc)
    decreases row + piece.height - r, col + piece.width - c
  {
    if r >= row + piece.height then true
    else if c >= col + piece.width then FootprintClear(level, pieces, piece, row, col, r + 1, col)
    else CellAllowed(level, pieces, piece, r, c) && FootprintClear(level, pieces, piece, row, col, r, c + 1)
  }

  /** Whether `piece` may stand with its top-left at (row, col): the
      footprint lies on the board, no footprint cell is a non-exit border
      cell, only the goal type enters exit cells, and no footprint cell is
      covered by a piece with another id. */
  function CanOccupy(level: Level, pieces: map<string, Piece>, piece: Piece, row: int, col: int): (ok: bool)
    ensures row < 0 || col < 0 ==> !ok
    ensures row + piece.height > level.rows || col + piece.width > level.cols ==> !ok
    ensures ok ==> forall r, c :: InFootprint(piece, row, col, r, c) && IsExitCell(level, r, c) ==> piece.kind == GoalKind
    ensures ok ==> forall r, c :: InFootprint(piece, row, col, r, c) && IsBorder(level, r, c) ==> IsExitCell(level, r, c)
    ensures ok ==> forall r, c, k :: InFootprint(piece, row, col, r, c) && k in pieces && pieces[k].id != piece.id ==>
      !Covers(pieces[k], r, c)
    ensures ok <==> (WithinBoard(level, piece, row, col) &&
      forall r, c :: InFootprint(piece, row, col, r, c) ==> CellAllowed(level, pieces, piece, r, c))
  {
    if row < 0 || col < 0 then false
    else if row + piece.height > level.rows || col + piece.width > level.cols then false
    else FootprintClear(level, pieces, piece, row, col, row, col)
  }

  function Abs(x: int): nat {
    if x < 0 then -x else x
  }

  /** The four cells one orthogonal step away from (fromRow, fromCol). */
  predicate IsUnitStep(fromRow: int, fromCol: int, toRow: int, toCol: int) {
    || (toRow == fromRow + 1 && toCol == fromCol)
    || (toRow == fromRow - 1 && toCol == fromCol)
    || (toRow == fromRow && toCol == fromCol + 1)
    || (toRow == fromRow && toCol == fromCol - 1)
  }

  /** A move is one orthogonal step onto a footprint the piece may occupy. */
  function IsValidMove(level: Level, pieces: map<string, Piece>, piece: Piece,
                       fromRow: int, fromCol: int, toRow: int, toCol: int): (ok: bool)
    ensures toRow != fromRow && toCol != fromCol ==> !ok
    ensures Abs(toRow - fromRow) + Abs(toCol - fromCol) != 1 ==> !ok
    ensures ok <==> IsUnitStep(fromRow, fromCol, toRow, toCol) && CanOccupy(level, pieces, piece, toRow, toCol)
  {
    var deltaRow := toRow - fromRow;
    var deltaCol := toCol - fromCol;
    if deltaRow != 0 && deltaCol != 0 then false
    else if Abs(deltaRow) + Abs(deltaCol) != 1 then false
    else CanOccupy(level, pieces, piece, toRow, toCol)
  }

  // ---------------------------------------------------------------------
  // Moves and victory

  /** Logs the move of `piece` from (fromRow, fromCol) to where it now is,
      and forgets any undone moves. */
  function RecordMove(st: GameState, piece: Piece, fromRow: int, fromCol: int): (st': GameState)
    ensures st' == st.(history := st'.history, undone := [])
    ensures |st'.history| == |st.history| + 1 && st'.history[..|st.history|] == st.history
    ensures st'.history[|st.history|] == Move(piece.id, fromRow, fromCol, piece.row, piece.col)
  {
    st.(history := st.history + [Move(piece.id, fromRow, fromCol, piece.row, piece.col)], undone := [])
  }

  /** The first goal-type piece in the board's iteration order `ids`. */
  function FirstGoal(pieces: map<string, Piece>, ids: seq<string>): (g: Option<Piece>)
    ensures g.Some? ==> g.value.kind == GoalKind && exists i :: 0 <= i < |ids| && ids[i] in pieces && pieces[ids[i]] == g.value
    ensures g.Some? ==> exists i :: (0 <= i < |ids| && ids[i] in pieces && pieces[ids[i]] == g.value &&
      forall j :: 0 <= j < i && ids[j] in pieces ==> pieces[ids[j]].kind != GoalKind)
    ensures g.None? <==> forall i :: 0 <= i < |ids| && ids[i] in pieces ==> pieces[ids[i]].kind != GoalKind
    decreases |ids|
  {
    if |ids| == 0 then None
    else if ids[0] in pieces && pieces[ids[0]].kind == GoalKind then Some(pieces[ids[0]])
    else
      var g := FirstGoal(pieces, ids[1..]);
      assert forall i :: 1 <= i < |ids| ==> ids[1..][i - 1] == ids[i];
      g
  }

  /** The goal piece: the first goal-type piece in the order the level
      placed the pieces, which is the order of the board's map. */
  function GoalPiece(st: GameState): Option<Piece> {
    FirstGoal(st.pieces, IdsOf(st.level.pieces))
  }

  /** The goal's bottom row is the exit row and its columns lie within the
      exit's columns. */
  predicate OnExit(g: Piece, exit: Exit) {
    g.row + g.height - 1 == exit.row && g.col >= exit.lo && g.col + g.width - 1 <= exit.hi
  }

  predicate GoalOnExit(st: GameState) {
    GoalPiece(st).Some? && OnExit(GoalPiece(st).value, st.level.exit)
  }

  /** Latches the victory flag once the goal stands on the exit; nothing
      else changes, and a flag already set stays set. */
  function CheckVictory(st: GameState): (st': GameState)
    ensures st' == st.(victory := st'.victory)
    ensures st.victory ==> st' == st
    ensures GoalPiece(st).None? ==> st' == st
    ensures st'.victory <==> st.victory || GoalOnExit(st)
  {
    if st.victory then st
    else match GoalPiece(st)
      case None => st
      case Some(g) =>
        if OnExit(g, st.level.exit) then st.(victory := true) else st
  }

  /** Moves the piece filed under `id` to (row, col), records the move and
      checks for victory. It does not validate the move. */
  function MovePiece(st: GameState, id: string, row: int, col: int): (st': GameState)
    requires id in st.pieces
    ensures st'.level == st.level && st'.drag == st.drag
    ensures st'.pieces.Keys == st.pieces.Keys
    ensures st'.pieces[id] == MoveTo(st.pieces[id], row, col)
    ensures forall k :: k in st.pieces && k != id ==> st'.pieces[k] == st.pieces[k]
    ensures |st'.history| == |st.history| + 1 && st'.history[..|st.history|] == st.history
    ensures st'.history[|st.history|] == Move(st.pieces[id].id, st.pieces[id].row, st.pieces[id].col, row, col)
    ensures st'.undone == []
    ensures st'.victory <==> st.victory || GoalOnExit(st.(pieces := st'.pieces))
  {
    var piece := st.pieces[id];
    var moved := MoveTo(piece, row, col);
    var st1 := st.(pieces := st.pieces[id := moved]);
    CheckVictory(RecordMove(st1, moved, piece.row, piece.col))
  }
}
