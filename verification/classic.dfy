/** Facts about the level the game ships with. */
module ClassicLevel {
  import opened Board
  import opened Engine
  import opened Safety

  const Goal: Piece := Classic.pieces[0]

  /** The board right after start or reload, piece by piece. */
  const StartPieces: map<string, Piece> := map[
    "d" := Classic.pieces[0], "b1" := Classic.pieces[1], "c1" := Classic.pieces[2],
    "c2" := Classic.pieces[3], "c3" := Classic.pieces[4], "c4" := Classic.pieces[5],
    "a1" := Classic.pieces[6], "a2" := Classic.pieces[7], "a3" := Classic.pieces[8],
    "a4" := Classic.pieces[9]]

  /** Every piece of the level lands under its own id. */
  lemma InitGamePieces()
    ensures InitGame().pieces == StartPieces
  {
  }

  /** The game right after start or reload. */
  const Start: GameState := GameState(Classic, StartPieces, [], [], false, None)

  lemma InitGameIsStart()
    ensures InitGame() == Start
  {
    InitGamePieces();
  }

  /** The start layout satisfies the board invariant. */
  lemma StartIsLegal()
    ensures Legal(Classic, InitGame().pieces)
  {
    InitGamePieces();
    forall k | k in StartPieces
      ensures CanOccupy(Classic, StartPieces, StartPieces[k], StartPieces[k].row, StartPieces[k].col)
    {
      var p := StartPieces[k];
      forall r, c | InFootprint(p, p.row, p.col, r, c)
        ensures CellAllowed(Classic, StartPieces, p, r, c)
      {
        assert 1 <= r <= 5 && 1 <= c <= 4;
      }
    }
  }

  /** On this level the 2 x 2 goal is on the exit exactly at (5, 2). */
  lemma GoalWinsOnlyAt(row: int, col: int)
    ensures OnExit(MoveTo(Goal, row, col), Classic.exit) <==> row == 5 && col == 2
  {
  }

  /** The goal may stand at (5, 2), half of it on the exit, whenever no
      other piece is in the way. */
  lemma GoalMayReachExit(pieces: map<string, Piece>)
    requires forall k :: k in pieces && pieces[k].id != Goal.id ==>
      !Covers(pieces[k], 5, 2) && !Covers(pieces[k], 5, 3) && !Covers(pieces[k], 6, 2) && !Covers(pieces[k], 6, 3)
    ensures CanOccupy(Classic, pieces, Goal, 5, 2)
  {
    forall r, c | InFootprint(Goal, 5, 2, r, c)
      ensures CellAllowed(Classic, pieces, Goal, r, c)
    {
      assert (r == 5 || r == 6) && (c == 2 || c == 3);
    }
  }

  /** No piece but the goal can ever be placed on an exit cell. */
  lemma OnlyGoalOnExit(pieces: map<string, Piece>, p: Piece, row: int, col: int, r: int, c: int)
    requires p.kind != GoalKind
    requires InFootprint(p, row, col, r, c) && IsExitCell(Classic, r, c)
    ensures !CanOccupy(Classic, pieces, p, row, col)
  {
  }

  /** On this level the goal piece the win check looks at is the piece
      filed under "d", the first one the level places. */
  lemma ClassicGoal(st: GameState)
    requires st.level == Classic && "d" in st.pieces && st.pieces["d"].kind == GoalKind
    ensures GoalPiece(st) == Some(st.pieces["d"])
  {
    var ids := IdsOf(Classic.pieces);
    assert ids[0] == "d";
  }

  /** The goal can win only from its bottom-exit row, so a goal above it
      has not won. */
  lemma NotWonAbove(st: GameState)
    requires st.level == Classic && "d" in st.pieces
    requires st.pieces["d"].kind == GoalKind && st.pieces["d"].height == 2 && st.pieces["d"].row < 5
    ensures !GoalOnExit(st)
  {
    ClassicGoal(st);
  }

  /** Moving any other piece while the goal stays at its start cell does
      not win the game. */
  lemma OtherMoveDoesNotWin(st: GameState, id: string, row: int, col: int)
    requires st.level == Classic && !st.victory && id in st.pieces && id != "d"
    requires "d" in st.pieces && st.pieces["d"] == Goal
    ensures !MovePiece(st, id, row, col).victory
  {
    NotWonAbove(st.(pieces := MovePiece(st, id, row, col).pieces));
  }
}
