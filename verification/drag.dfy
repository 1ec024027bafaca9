/** The drag handlers of game.js: pressing on a piece starts a drag, each
    pointer move offers the piece a target cell, and the release records
    the drag as one move if the piece ended up away from the drag's
    reference cell. The target cell is the pointer's offset rounded to
    whole cells; that pixel arithmetic is not part of this model, so the
    cell comes in as a parameter. */
module Drag {
  import opened Board
  import opened Engine
  import opened Safety
  import History
  import ClassicLevel

  /** Pointer down on the piece filed under `id`: ignored once the game is
      won or when no such piece exists; otherwise the drag starts with the
      piece's current cell as reference. */
  function PointerDown(st: GameState, id: string): (st': GameState)
    ensures st.victory || id !in st.pieces ==> st' == st
    ensures !st.victory && id in st.pieces ==>
      st' == st.(drag := Some(Held(id, st.pieces[id].row, st.pieces[id].col)))
  {
    if st.victory || id !in st.pieces then st
    else st.(drag := Some(Held(id, st.pieces[id].row, st.pieces[id].col)))
  }

  /** The piece a drag holds, if any. */
  predicate Holding(st: GameState) {
    st.drag.Some? && st.drag.value.pieceId in st.pieces
  }

  /** Whether the held piece may step from its current cell to (row, col). */
  predicate StepAllowed(st: GameState, row: int, col: int)
    requires Holding(st)
  {
    var p := st.pieces[st.drag.value.pieceId];
    IsValidMove(st.level, st.pieces, p, p.row, p.col, row, col)
  }

  /** Pointer move as game.js has it: without a drag, or when the target is
      the piece's cell, nothing happens; a valid one-cell step moves the
      piece and also makes the target the drag's new reference cell;
      anything else leaves the piece where it is. */
  function PointerMove(st: GameState, row: int, col: int): (st': GameState)
    ensures st'.level == st.level && st'.history == st.history && st'.undone == st.undone
    ensures st'.victory == st.victory && st'.pieces.Keys == st.pieces.Keys
    ensures !Holding(st) ==> st' == st
    ensures Holding(st) && !StepAllowed(st, row, col) ==> st' == st
    ensures Holding(st) && StepAllowed(st, row, col) ==>
      var id := st.drag.value.pieceId;
      && st'.pieces == st.pieces[id := MoveTo(st.pieces[id], row, col)]
      && st'.drag == Some(Held(id, row, col))
  {
    if !Holding(st) then st
    else
      var id := st.drag.value.pieceId;
      var piece := st.pieces[id];
      if row == piece.row && col == piece.col then st
      else if IsValidMove(st.level, st.pieces, piece, piece.row, piece.col, row, col) then
        st.(pieces := st.pieces[id := MoveTo(piece, row, col)], drag := Some(Held(id, row, col)))
      else st
  }

  /** The held piece is away from the drag's reference cell. */
  predicate Moved(st: GameState) {
    && Holding(st)
    && (st.pieces[st.drag.value.pieceId].row != st.drag.value.originRow ||
        st.pieces[st.drag.value.pieceId].col != st.drag.value.originCol)
  }

  /** Pointer up: if the held piece is away from the drag's reference cell
      the drag is recorded as one move from that cell and victory is
      checked; in every case the drag ends. */
  function PointerUp(st: GameState): (st': GameState)
    ensures st.drag.None? ==> st' == st
    ensures st'.drag == None && st'.level == st.level && st'.pieces == st.pieces
    ensures Moved(st) ==>
      var p := st.pieces[st.drag.value.pieceId];
      && st'.history == st.history + [Move(p.id, st.drag.value.originRow, st.drag.value.originCol, p.row, p.col)]
      && st'.undone == []
      && (st'.victory <==> st.victory || GoalOnExit(st))
    ensures !Moved(st) ==> st' == st.(drag := None)
  {
    match st.drag
    case None => st
    case Some(d) =>
      if d.pieceId !in st.pieces then st.(drag := None)
      else
        var piece := st.pieces[d.pieceId];
        var st1 := if piece.row != d.originRow || piece.col != d.originCol
          then CheckVictory(RecordMove(st, piece, d.originRow, d.originCol))
          else st;
        st1.(drag := None)
  }

  /** A sequence of pointer moves to the given target cells. */
  function DragSteps(st: GameState, targets: seq<(int, int)>): (st': GameState)
    ensures st'.level == st.level && st'.history == st.history && st'.pieces.Keys == st.pieces.Keys
    ensures st'.undone == st.undone && st'.victory == st.victory
    ensures st'.drag.Some? <==> st.drag.Some?
    decreases |targets|
  {
    if |targets| == 0 then st
    else DragSteps(PointerMove(st, targets[0].0, targets[0].1), targets[1..])
  }

  /** The drag's reference cell is the held piece's cell. */
  predicate Synced(st: GameState) {
    Holding(st) ==> !Moved(st)
  }

  /** Every step of the drag moves the reference cell along with the piece,
      so the two never differ. */
  lemma {:induction false} DragStepsKeepSynced(st: GameState, targets: seq<(int, int)>)
    requires Synced(st)
    ensures Synced(DragSteps(st, targets))
    decreases |targets|
  {
    if |targets| > 0 {
      DragStepsKeepSynced(PointerMove(st, targets[0].0, targets[0].1), targets[1..]);
    }
  }

  /** Drag steps change only the held piece, and only its cell. */
  lemma {:induction false} DragStepsMovesHeld(st: GameState, targets: seq<(int, int)>)
    requires Holding(st)
    ensures var id := st.drag.value.pieceId;
      var held := DragSteps(st, targets);
      held.pieces == st.pieces[id := MoveTo(st.pieces[id], held.pieces[id].row, held.pieces[id].col)]
    decreases |targets|
  {
    if |targets| > 0 {
      DragStepsMovesHeld(PointerMove(st, targets[0].0, targets[0].1), targets[1..]);
    }
  }

  /** However far a piece is dragged, the release records nothing and does
      not check for victory: press, steps and release only move the piece
      and end the drag, and the history and victory flag are as before. */
  lemma DragNeverRecorded(st: GameState, id: string, targets: seq<(int, int)>)
    requires Synced(st)
    ensures var held := DragSteps(PointerDown(st, id), targets);
      PointerUp(held) == held.(drag := None)
    ensures PointerUp(DragSteps(PointerDown(st, id), targets)).history == st.history
    ensures PointerUp(DragSteps(PointerDown(st, id), targets)).victory == st.victory
    ensures !st.victory && id in st.pieces ==>
      var q := PointerUp(DragSteps(PointerDown(st, id), targets)).pieces[id];
      PointerUp(DragSteps(PointerDown(st, id), targets)).pieces == st.pieces[id := MoveTo(st.pieces[id], q.row, q.col)]
  {
    DragStepsKeepSynced(PointerDown(st, id), targets);
    if !st.victory && id in st.pieces {
      DragStepsMovesHeld(PointerDown(st, id), targets);
    }
  }

  /** Drag steps keep a legal board legal. */
  lemma {:induction false} DragStepsKeepLegal(st: GameState, targets: seq<(int, int)>)
    requires Legal(st.level, st.pieces)
    ensures Legal(st.level, DragSteps(st, targets).pieces)
    decreases |targets|
  {
    if |targets| > 0 {
      PointerMoveKeepsLegal(st, targets[0].0, targets[0].1);
      DragStepsKeepLegal(PointerMove(st, targets[0].0, targets[0].1), targets[1..]);
    }
  }

  /** One gesture of the player: press on the piece filed under `pieceId`,
      move the pointer over the target cells, release. */
  datatype Gesture = Gesture(pieceId: string, targets: seq<(int, int)>)

  function Perform(st: GameState, g: Gesture): (st': GameState)
    ensures st'.drag == None && st'.level == st.level
  {
    PointerUp(DragSteps(PointerDown(st, g.pieceId), g.targets))
  }

  /** A session of gestures, one after another. */
  function Play(st: GameState, gs: seq<Gesture>): (st': GameState)
    ensures st'.level == st.level
    decreases |gs|
  {
    if |gs| == 0 then st else Play(Perform(st, gs[0]), gs[1..])
  }

  /** No session of gestures ever records a move, empties the undone list or
      sets the victory flag. */
  lemma {:induction false} PlayNeverRecords(st: GameState, gs: seq<Gesture>)
    requires Synced(st)
    ensures Play(st, gs).history == st.history && Play(st, gs).undone == st.undone
    ensures Play(st, gs).victory == st.victory
    decreases |gs|
  {
    if |gs| > 0 {
      DragNeverRecorded(st, gs[0].pieceId, gs[0].targets);
      PlayNeverRecords(Perform(st, gs[0]), gs[1..]);
    }
  }

  /** A session of gestures keeps a legal board legal. */
  lemma {:induction false} PlayKeepsLegal(st: GameState, gs: seq<Gesture>)
    requires Legal(st.level, st.pieces)
    ensures Legal(st.level, Play(st, gs).pieces)
    decreases |gs|
  {
    if |gs| > 0 {
      DragStepsKeepLegal(PointerDown(st, gs[0].pieceId), gs[0].targets);
      PlayKeepsLegal(Perform(st, gs[0]), gs[1..]);
    }
  }

  /** Whatever the player drags from the start, no two pieces overlap, no
      piece stands on a wall, and only the goal enters the exit. */
  lemma AsWrittenAlwaysLegal(gs: seq<Gesture>)
    ensures Legal(Classic, Play(InitGame(), gs).pieces)
  {
    ClassicLevel.StartIsLegal();
    PlayKeepsLegal(InitGame(), gs);
  }

  /** As written the game cannot be won: from the start, whatever the player
      drags, the history stays empty, victory is never set, and undo and
      replay do nothing. */
  lemma AsWrittenNeverWon(gs: seq<Gesture>)
    ensures var st := Play(InitGame(), gs);
      && !st.victory && st.history == []
      && History.HandleUndo(st) == st && History.HandleReplay(st) == st
  {
    PlayNeverRecords(InitGame(), gs);
  }

  // ---------------------------------------------------------------------
  // Drag as it was meant to work

  /** Pointer move with the drag's reference cell left at the cell where
      the drag began; the step rule is the same. */
  function PointerMoveFixed(st: GameState, row: int, col: int): (st': GameState)
    ensures st'.level == st.level && st'.history == st.history && st'.undone == st.undone
    ensures st'.victory == st.victory && st'.drag == st.drag && st'.pieces.Keys == st.pieces.Keys
    ensures !Holding(st) || !StepAllowed(st, row, col) ==> st' == st
    ensures Holding(st) && StepAllowed(st, row, col) ==>
      st'.pieces == st.pieces[st.drag.value.pieceId := MoveTo(st.pieces[st.drag.value.pieceId], row, col)]
  {
    if !Holding(st) then st
    else
      var id := st.drag.value.pieceId;
      var piece := st.pieces[id];
      if row == piece.row && col == piece.col then st
      else if IsValidMove(st.level, st.pieces, piece, piece.row, piece.col, row, col) then
        st.(pieces := st.pieces[id := MoveTo(piece, row, col)])
      else st
  }

  function DragStepsFixed(st: GameState, targets: seq<(int, int)>): (st': GameState)
    ensures st'.drag == st.drag && st'.history == st.history && st'.level == st.level
    ensures st'.victory == st.victory && st'.pieces.Keys == st.pieces.Keys
    decreases |targets|
  {
    if |targets| == 0 then st
    else DragStepsFixed(PointerMoveFixed(st, targets[0].0, targets[0].1), targets[1..])
  }

  /** Fixed drag steps keep a legal board legal. */
  lemma {:induction false} DragStepsFixedKeepLegal(st: GameState, targets: seq<(int, int)>)
    requires Legal(st.level, st.pieces)
    ensures Legal(st.level, DragStepsFixed(st, targets).pieces)
    decreases |targets|
  {
    if |targets| > 0 {
      var st1 := PointerMoveFixed(st, targets[0].0, targets[0].1);
      if Holding(st) && StepAllowed(st, targets[0].0, targets[0].1) {
        var id := st.drag.value.pieceId;
        RelocateKeepsLegal(st.level, st.pieces, id, targets[0].0, targets[0].1);
      }
      DragStepsFixedKeepLegal(st1, targets[1..]);
    }
  }

  /** With the reference cell kept, a drag that ends away from where it
      began is recorded as exactly one move from the start cell to the end
      cell, and one that ends where it began records nothing. */
  lemma DragFixedRecordsOneMove(st: GameState, id: string, targets: seq<(int, int)>)
    requires KeysMatch(st.pieces) && id in st.pieces && !st.victory
    ensures var p := st.pieces[id];
      var held := DragStepsFixed(PointerDown(st, id), targets);
      var q := held.pieces[id];
      var st' := PointerUp(held);
      && (q.row != p.row || q.col != p.col ==> st'.history == st.history + [Move(id, p.row, p.col, q.row, q.col)])
      && (q.row == p.row && q.col == p.col ==> st'.history == st.history)
  {
    var down := PointerDown(st, id);
    DragStepsFixedIds(down, targets);
  }

  /** Fixed drag steps keep every piece filed under its own id. */
  lemma {:induction false} DragStepsFixedIds(st: GameState, targets: seq<(int, int)>)
    requires KeysMatch(st.pieces)
    ensures KeysMatch(DragStepsFixed(st, targets).pieces)
    decreases |targets|
  {
    if |targets| > 0 {
      DragStepsFixedIds(PointerMoveFixed(st, targets[0].0, targets[0].1), targets[1..]);
    }
  }

  /** Fixed drag steps change only the held piece, and only its cell. */
  lemma {:induction false} DragStepsFixedMovesHeld(st: GameState, targets: seq<(int, int)>)
    requires Holding(st)
    ensures var id := st.drag.value.pieceId;
      var held := DragStepsFixed(st, targets);
      held.pieces == st.pieces[id := MoveTo(st.pieces[id], held.pieces[id].row, held.pieces[id].col)]
    decreases |targets|
  {
    if |targets| > 0 {
      DragStepsFixedMovesHeld(PointerMoveFixed(st, targets[0].0, targets[0].1), targets[1..]);
    }
  }

  /** The release after fixed drag steps records a move the history can
      replay: the board it leaves is the board before the press with the
      record applied. */
  lemma DragFixedAppliesItsRecord(st: GameState, id: string, targets: seq<(int, int)>)
    requires KeysMatch(st.pieces) && id in st.pieces && !st.victory
    ensures var st' := PointerUp(DragStepsFixed(PointerDown(st, id), targets));
      && (|st'.history| == |st.history| ==> st'.history == st.history && st'.pieces == st.pieces)
      && (|st'.history| != |st.history| ==>
            && |st'.history| == |st.history| + 1 && st'.history[..|st.history|] == st.history
            && st'.history[|st.history|].pieceId == id
            && st'.pieces == History.ApplyMove(st.pieces, st'.history[|st.history|]))
  {
    var down := PointerDown(st, id);
    var held := DragStepsFixed(down, targets);
    DragStepsFixedMovesHeld(down, targets);
    DragStepsFixedIds(down, targets);
    var p := st.pieces[id];
    var q := held.pieces[id];
    if q.row == p.row && q.col == p.col {
      assert MoveTo(p, q.row, q.col) == p;
      assert held.pieces == st.pieces;
    }
  }

  /** With the reference cell kept, a drag keeps the board equal to what
      the history produces from the start layout. */
  lemma DragFixedKeepsConsistent(st: GameState, id: string, targets: seq<(int, int)>)
    requires History.Consistent(st) && id in st.pieces && !st.victory
    ensures History.Consistent(PointerUp(DragStepsFixed(PointerDown(st, id), targets)))
  {
    History.StartKeysMatch();
    History.ApplyMovesKeepsKeys(History.StartBoard(), st.history);
    DragFixedAppliesItsRecord(st, id, targets);
    History.AppendFollowsHistory(History.StartBoard(), st, PointerUp(DragStepsFixed(PointerDown(st, id), targets)));
  }

  /** With the reference cell kept, the release of a drag that moved the
      piece sets victory exactly when the goal then stands on the exit. */
  lemma DragFixedWinsOnExit(st: GameState, id: string, targets: seq<(int, int)>)
    requires KeysMatch(st.pieces) && id in st.pieces && !st.victory
    ensures var held := DragStepsFixed(PointerDown(st, id), targets);
      var p := st.pieces[id];
      var q := held.pieces[id];
      && (q.row != p.row || q.col != p.col ==> (PointerUp(held).victory <==> GoalOnExit(held)))
      && (q.row == p.row && q.col == p.col ==> !PointerUp(held).victory)
  {
  }

  /** A step of a drag, fixed or not, keeps a legal board legal. */
  lemma PointerMoveKeepsLegal(st: GameState, row: int, col: int)
    requires Legal(st.level, st.pieces)
    ensures Legal(PointerMove(st, row, col).level, PointerMove(st, row, col).pieces)
    ensures Legal(PointerMoveFixed(st, row, col).level, PointerMoveFixed(st, row, col).pieces)
  {
    if Holding(st) && StepAllowed(st, row, col) {
      RelocateKeepsLegal(st.level, st.pieces, st.drag.value.pieceId, row, col);
    }
  }
}
