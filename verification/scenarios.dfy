/** Two short games on the shipped level that show the undo and drag
    behaviour on concrete moves. */
module Scenarios {
  import opened Board
  import opened Engine
  import opened ClassicLevel
  import History
  import Drag

  /** Moving the left column piece c1 down one cell from the start layout
      is a valid move: the cell below it is free. */
  lemma FirstMoveValid()
    ensures IsValidMove(Classic, StartPieces, StartPieces["c1"], 1, 1, 2, 1)
  {
    var p := StartPieces["c1"];
    forall r, c | InFootprint(p, 2, 1, r, c)
      ensures CellAllowed(Classic, StartPieces, p, r, c)
    {
      assert (r == 2 || r == 3) && c == 1;
    }
  }

  /** The board after c1 has moved one cell down. */
  const AfterFirst: map<string, Piece> := StartPieces["c1" := MoveTo(StartPieces["c1"], 2, 1)]

  /** The second move: c2, in the right column, down one cell. */
  lemma SecondMoveValid()
    ensures IsValidMove(Classic, AfterFirst, AfterFirst["c2"], 1, 4, 2, 4)
  {
    var p := AfterFirst["c2"];
    forall r, c | InFootprint(p, 2, 4, r, c)
      ensures CellAllowed(Classic, AfterFirst, p, r, c)
    {
      assert (r == 2 || r == 3) && c == 4;
    }
  }

  /** The board after c2 has also moved one cell down. */
  const AfterSecond: map<string, Piece> := AfterFirst["c2" := MoveTo(AfterFirst["c2"], 2, 4)]

  /** The game after c1 and then c2 have each moved one cell down. */
  const TwoMoves: GameState :=
    GameState(Classic, AfterSecond, [Move("c1", 1, 1, 2, 1), Move("c2", 1, 4, 2, 4)], [], false, None)

  /** The game after the first move alone. */
  const OneMove: GameState := GameState(Classic, AfterFirst, [Move("c1", 1, 1, 2, 1)], [], false, None)

  /** A move that does not win changes exactly the moved piece, appends its
      record and empties the undone list. */
  lemma MoveWithoutWin(st: GameState, id: string, row: int, col: int)
    requires id in st.pieces && !MovePiece(st, id, row, col).victory
    ensures MovePiece(st, id, row, col) == st.(
      pieces := st.pieces[id := MoveTo(st.pieces[id], row, col)],
      history := st.history + [Move(st.pieces[id].id, st.pieces[id].row, st.pieces[id].col, row, col)],
      undone := [], victory := false)
  {
  }

  /** Moving c1 down from the start gives that game. */
  lemma FirstMoveReached()
    ensures MovePiece(Start, "c1", 2, 1) == OneMove
  {
    StartLookups();
    OtherMoveDoesNotWin(Start, "c1", 2, 1);
    MoveWithoutWin(Start, "c1", 2, 1);
  }

  lemma StartLookups()
    ensures "d" in StartPieces && StartPieces["d"] == Goal
    ensures "c1" in StartPieces && StartPieces["c1"] == Piece("c1", 'c', 1, 1, 1, 2)
  {
  }

  /** Moving c2 down next gives the two-move game. */
  lemma SecondMoveReached()
    ensures MovePiece(OneMove, "c2", 2, 4) == TwoMoves
  {
    AfterFirstLookups();
    OtherMoveDoesNotWin(OneMove, "c2", 2, 4);
    MoveWithoutWin(OneMove, "c2", 2, 4);
    var st' := MovePiece(OneMove, "c2", 2, 4);
    assert st'.pieces == AfterSecond;
    assert st'.history == OneMove.history + [Move("c2", 1, 4, 2, 4)];
    TwoRecords();
  }

  lemma TwoRecords()
    ensures OneMove.history + [Move("c2", 1, 4, 2, 4)] == TwoMoves.history
  {
  }

  lemma AfterFirstLookups()
    ensures "d" in AfterFirst && AfterFirst["d"] == Goal
    ensures "c2" in AfterFirst && AfterFirst["c2"] == Piece("c2", 'c', 1, 4, 1, 2)
  {
  }

  /** The two-move game is what the two moves produce from the start. */
  lemma TwoMovesPlayed()
    ensures MovePiece(MovePiece(Start, "c1", 2, 1), "c2", 2, 4) == TwoMoves
  {
    FirstMoveReached();
    SecondMoveReached();
  }

  /** That game is the one the two records produce from the start. */
  lemma TwoMovesReachable()
    ensures History.Consistent(TwoMoves)
  {
    InitGameIsStart();
    var h := TwoMoves.history;
    assert h[..1] == [h[0]] && h[..1][..0] == [];
    assert History.ApplyMoves(StartPieces, h[..1]) == AfterFirst;
  }

  /** After those two moves, undo as written goes back to the start with
      no record left. */
  lemma UndoAfterTwoMoves()
    ensures History.HandleUndo(TwoMoves) == Start
  {
    InitGameIsStart();
  }

  /** The intended undo keeps the first record and leaves c1 one cell
      down, with c2 back at the top. */
  lemma UndoIntendedAfterTwoMoves()
    ensures History.UndoIntended(TwoMoves).history == [Move("c1", 1, 1, 2, 1)]
    ensures History.UndoIntended(TwoMoves).pieces == AfterFirst
  {
    InitGameIsStart();
    var rest := [Move("c1", 1, 1, 2, 1)];
    assert TwoMoves.history[..1] == rest;
    assert History.ApplyMoves(StartPieces, rest) == AfterFirst;
  }

  /** Dragging c1 one cell down moves it, yet the release leaves the
      history empty; with the reference cell kept, the same drag is
      recorded. */
  lemma DragOfOneCell()
    ensures var held := Drag.PointerMove(Drag.PointerDown(Start, "c1"), 2, 1);
      && held.pieces == AfterFirst
      && Drag.PointerUp(held).history == []
    ensures var held := Drag.PointerMoveFixed(Drag.PointerDown(Start, "c1"), 2, 1);
      && held.pieces == AfterFirst
      && Drag.PointerUp(held).history == [Move("c1", 1, 1, 2, 1)]
  {
    FirstMoveValid();
  }

  /** A board holding only the goal, one row above its winning cell. */
  const GoalAbove: GameState :=
    GameState(Classic, map["d" := Piece("d", GoalKind, 4, 2, 2, 2)], [], [], false, None)

  /** Stepping the goal down onto the exit is valid. */
  lemma GoalStepValid()
    ensures Drag.StepAllowed(Drag.PointerDown(GoalAbove, "d"), 5, 2)
  {
    var p := GoalAbove.pieces["d"];
    forall r, c | InFootprint(p, 5, 2, r, c)
      ensures CellAllowed(Classic, GoalAbove.pieces, p, r, c)
    {
      assert (r == 5 || r == 6) && (c == 2 || c == 3);
    }
  }

  /** Dragging the goal onto the exit as written: the goal reaches its
      winning cell, yet the release neither records the move nor sets
      victory. */
  lemma GoalDragToExitAsWritten()
    ensures var held := Drag.PointerMove(Drag.PointerDown(GoalAbove, "d"), 5, 2);
      && held.pieces["d"].row == 5 && held.pieces["d"].col == 2
      && Drag.PointerUp(held).history == [] && !Drag.PointerUp(held).victory
  {
    GoalStepValid();
    Drag.DragNeverRecorded(GoalAbove, "d", [(5, 2)]);
  }

  /** With the reference cell kept, the same drag is recorded and wins. */
  lemma GoalDragToExitFixed()
    ensures var held := Drag.PointerMoveFixed(Drag.PointerDown(GoalAbove, "d"), 5, 2);
      && Drag.PointerUp(held).history == [Move("d", 4, 2, 5, 2)] && Drag.PointerUp(held).victory
  {
    GoalStepValid();
    var down := Drag.PointerDown(GoalAbove, "d");
    var held := Drag.PointerMoveFixed(down, 5, 2);
    assert held.pieces == map["d" := Piece("d", GoalKind, 5, 2, 2, 2)];
    ClassicGoal(held);
    assert GoalOnExit(held);
  }
}
