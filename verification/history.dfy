/** The history logic of the undo and replay buttons: a move record applied
    to a board, a history applied from the start layout, replay of a
    history snapshot, and undo both as game.js does it and as it was meant
    to work. Timers, animation and button states are not part of this. */
module History {
  import opened Board
  import opened Engine

  /** Puts the piece a record names at the record's target cell; a record
      naming no piece on the board changes nothing. */
  function ApplyMove(pieces: map<string, Piece>, m: Move): (r: map<string, Piece>)
    ensures r.Keys == pieces.Keys
  {
    if m.pieceId in pieces then pieces[m.pieceId := MoveTo(pieces[m.pieceId], m.toRow, m.toCol)] else pieces
  }

  /** Applies the records in order. */
  function ApplyMoves(pieces: map<string, Piece>, ms: seq<Move>): (r: map<string, Piece>)
    ensures r.Keys == pieces.Keys
    decreases |ms|
  {
    if |ms| == 0 then pieces else ApplyMove(ApplyMoves(pieces, ms[..|ms| - 1]), ms[|ms| - 1])
  }

  /** The records that name a piece in `keys`, in order. */
  function KnownMoves(keys: set<string>, ms: seq<Move>): (r: seq<Move>)
    ensures |r| <= |ms|
    ensures forall i :: 0 <= i < |r| ==> r[i].pieceId in keys
    ensures (forall i :: 0 <= i < |ms| ==> ms[i].pieceId in keys) ==> r == ms
    decreases |ms|
  {
    if |ms| == 0 then []
    else
      var rest := KnownMoves(keys, ms[..|ms| - 1]);
      var last := ms[|ms| - 1];
      assert forall i :: 0 <= i < |ms| - 1 ==> ms[..|ms| - 1][i] == ms[i];
      if last.pieceId in keys then rest + [last] else rest
  }

  /** The last record that moved the piece `id`. */
  function LastMoveOf(ms: seq<Move>, id: string): (m: Option<Move>)
    ensures m.None? <==> forall i :: 0 <= i < |ms| ==> ms[i].pieceId != id
    ensures m.Some? ==> exists i :: (0 <= i < |ms| && ms[i] == m.value && ms[i].pieceId == id &&
      forall j :: i < j < |ms| ==> ms[j].pieceId != id)
    decreases |ms|
  {
    if |ms| == 0 then None
    else if ms[|ms| - 1].pieceId == id then Some(ms[|ms| - 1])
    else
      var m := LastMoveOf(ms[..|ms| - 1], id);
      assert forall i :: 0 <= i < |ms| - 1 ==> ms[..|ms| - 1][i] == ms[i];
      m
  }

  /** Where the piece `p` ends up once the records are applied: at the
      target of the last record naming it, or where it was. */
  function FinalPlace(p: Piece, last: Option<Move>): Piece {
    match last
    case None => p
    case Some(m) => MoveTo(p, m.toRow, m.toCol)
  }

  /** After a history is applied, every piece stands at the target of the
      last record that names it, or where it started if none does. */
  lemma {:induction false} ApplyMovesPosition(pieces: map<string, Piece>, ms: seq<Move>, k: string)
    requires k in pieces
    ensures ApplyMoves(pieces, ms)[k] == FinalPlace(pieces[k], LastMoveOf(ms, k))
    decreases |ms|
  {
    if |ms| > 0 {
      ApplyMovesPosition(pieces, ms[..|ms| - 1], k);
    }
  }

  /** Applying a history keeps every piece filed under its own id. */
  lemma {:induction false} ApplyMovesKeepsKeys(pieces: map<string, Piece>, ms: seq<Move>)
    requires KeysMatch(pieces)
    ensures KeysMatch(ApplyMoves(pieces, ms))
    decreases |ms|
  {
    if |ms| > 0 {
      ApplyMovesKeepsKeys(pieces, ms[..|ms| - 1]);
    }
  }

  /** Records naming no piece on the board can be dropped without changing
      what the history does to the board. */
  lemma {:induction false} ApplyKnownMoves(pieces: map<string, Piece>, ms: seq<Move>)
    ensures ApplyMoves(pieces, KnownMoves(pieces.Keys, ms)) == ApplyMoves(pieces, ms)
    decreases |ms|
  {
    if |ms| > 0 {
      var init := ms[..|ms| - 1];
      var last := ms[|ms| - 1];
      var rest := KnownMoves(pieces.Keys, init);
      ApplyKnownMoves(pieces, init);
      if last.pieceId in pieces.Keys {
        assert (rest + [last])[..|rest + [last]| - 1] == rest;
      }
    }
  }

  /** A record set of known ids is kept whole by the filter, so filtering
      twice is filtering once. */
  lemma KnownMovesTwice(keys: set<string>, ms: seq<Move>)
    ensures KnownMoves(keys, KnownMoves(keys, ms)) == KnownMoves(keys, ms)
  {
  }

  /** The move `MovePiece` records, applied to the board before the move,
      gives the board after it. */
  lemma MovePieceAppliesItsRecord(st: GameState, id: string, row: int, col: int)
    requires KeysMatch(st.pieces) && id in st.pieces
    ensures var st' := MovePiece(st, id, row, col);
      st'.pieces == ApplyMove(st.pieces, st'.history[|st.history|])
  {
  }

  // ---------------------------------------------------------------------
  // Replay

  /** The board a reload builds by placing the level's pieces. The history
      lemmas refer to it through this name and never through its literal
      contents, which keeps their proofs generic; `ClassicLevel.InitGamePieces`
      shows it is the ten-piece map `ClassicLevel.StartPieces`. */
  function StartBoard(): map<string, Piece> {
    InitGame().pieces
  }

  /** The replay button: with an empty history nothing happens; otherwise
      the level is reloaded, every record of the snapshot that names a
      piece of the reloaded board is applied and logged again, and the victory
      flag of the snapshot is put back. */
  function HandleReplay(st: GameState): (st': GameState)
    ensures |st.history| == 0 ==> st' == st
    ensures |st.history| > 0 ==>
      && st'.level == Classic && st'.undone == [] && st'.drag == None
      && st'.victory == st.victory
      && st'.pieces.Keys == StartBoard().Keys
      && st'.history == KnownMoves(StartBoard().Keys, st.history)
  {
    if |st.history| == 0 then st
    else
      var reloaded := InitGame();
      reloaded.(pieces := ApplyMoves(reloaded.pieces, st.history),
             history := KnownMoves(reloaded.pieces.Keys, st.history),
             victory := st.victory)
  }

  /** The replay loop over a snapshot: each record naming a piece on the
      board moves that piece to its target cell and is logged again. */
  method ReplayLoop(start: map<string, Piece>, snapshot: seq<Move>) returns (pieces: map<string, Piece>, history: seq<Move>)
    ensures pieces == ApplyMoves(start, snapshot)
    ensures history == KnownMoves(start.Keys, snapshot)
  {
    pieces := start;
    history := [];
    var i := 0;
    while i < |snapshot|
      invariant 0 <= i <= |snapshot|
      invariant pieces == ApplyMoves(start, snapshot[..i])
      invariant history == KnownMoves(start.Keys, snapshot[..i])
    {
      var move := snapshot[i];
      assert snapshot[..i + 1][..i] == snapshot[..i];
      if move.pieceId in pieces {
        pieces := pieces[move.pieceId := MoveTo(pieces[move.pieceId], move.toRow, move.toCol)];
        history := history + [move];
      }
      i := i + 1;
    }
    assert snapshot[..i] == snapshot;
  }

  /** The replay handler run step by step: reload, replay the snapshot,
      restore the victory flag. */
  method Replay(st: GameState) returns (st': GameState)
    ensures st' == HandleReplay(st)
  {
    if |st.history| == 0 {
      return st;
    }
    var reloaded := InitGame();
    var pieces, history := ReplayLoop(reloaded.pieces, st.history);
    st' := reloaded.(pieces := pieces, history := history, victory := st.victory);
  }

  /** Replay leaves every piece at the target of its last record in the
      snapshot, or at its start cell if no record names it. */
  lemma ReplayPositions(st: GameState, k: string)
    requires |st.history| > 0 && k in StartBoard()
    ensures HandleReplay(st).pieces[k] == FinalPlace(StartBoard()[k], LastMoveOf(st.history, k))
  {
    ApplyMovesPosition(StartBoard(), st.history, k);
  }

  /** A snapshot whose every record names a piece of the level comes back
      from replay as it was. */
  lemma ReplayKeepsHistory(st: GameState)
    requires forall i :: 0 <= i < |st.history| ==> st.history[i].pieceId in StartBoard()
    ensures HandleReplay(st).history == st.history
  {
  }

  /** Replaying a replayed game changes nothing. */
  lemma ReplayIdempotent(st: GameState)
    ensures HandleReplay(HandleReplay(st)) == HandleReplay(st)
  {
    if |st.history| > 0 {
      var r := HandleReplay(st);
      if |r.history| > 0 {
        ApplyKnownMoves(StartBoard(), st.history);
        KnownMovesTwice(StartBoard().Keys, st.history);
      }
    }
  }

  /** A state whose board its history produces from the start layout: the
      shipped level, that board, and only records of pieces on it. Moves
      (`MovePiece`) and drags with the reference cell kept keep it; as
      written a drag moves a piece without a record and breaks it. */
  ghost predicate Consistent(st: GameState) {
    && st.level == Classic
    && st.pieces == ApplyMoves(StartBoard(), st.history)
    && forall i :: 0 <= i < |st.history| ==> st.history[i].pieceId in StartBoard()
  }

  lemma StartKeysMatch()
    ensures KeysMatch(StartBoard())
  {
    PlaceAllFacts(map[], Classic.pieces);
  }

  /** A move keeps the board equal to what the history produces from any
      start board whose pieces are filed under their ids, and keeps every
      record naming a piece of that board. */
  lemma MovePieceFollowsHistory(start: map<string, Piece>, st: GameState, id: string, row: int, col: int)
    requires KeysMatch(start) && st.pieces == ApplyMoves(start, st.history) && id in st.pieces
    requires forall i :: 0 <= i < |st.history| ==> st.history[i].pieceId in start
    ensures MovePiece(st, id, row, col).pieces == ApplyMoves(start, MovePiece(st, id, row, col).history)
    ensures forall i :: 0 <= i < |MovePiece(st, id, row, col).history| ==>
      MovePiece(st, id, row, col).history[i].pieceId in start
  {
    ApplyMovesKeepsKeys(start, st.history);
    var st' := MovePiece(st, id, row, col);
    MovePieceAppliesItsRecord(st, id, row, col);
    assert st'.history[..|st'.history| - 1] == st.history;
    assert st'.history[|st.history|].pieceId == id;
  }

  /** A state change that either leaves board and history alone or appends
      one record of a piece on the board and applies it keeps the board
      equal to what the history produces from `start`. */
  lemma AppendFollowsHistory(start: map<string, Piece>, st: GameState, st': GameState)
    requires st.pieces == ApplyMoves(start, st.history)
    requires forall i :: 0 <= i < |st.history| ==> st.history[i].pieceId in start
    requires |st'.history| == |st.history| ==> st'.history == st.history && st'.pieces == st.pieces
    requires |st'.history| != |st.history| ==>
      && |st'.history| == |st.history| + 1 && st'.history[..|st.history|] == st.history
      && st'.history[|st.history|].pieceId in st.pieces
      && st'.pieces == ApplyMove(st.pieces, st'.history[|st.history|])
    ensures st'.pieces == ApplyMoves(start, st'.history)
    ensures forall i :: 0 <= i < |st'.history| ==> st'.history[i].pieceId in start
  {
    if |st'.history| != |st.history| {
      assert st'.history[..|st'.history| - 1] == st.history;
    }
  }

  /** A move keeps the board equal to what its history produces. */
  lemma MovePieceKeepsConsistent(st: GameState, id: string, row: int, col: int)
    requires Consistent(st) && id in st.pieces
    ensures Consistent(MovePiece(st, id, row, col))
  {
    StartKeysMatch();
    MovePieceFollowsHistory(StartBoard(), st, id, row, col);
  }

  /** On a state whose board its history produces, replay rebuilds the
      very board and history it started from and keeps the victory flag. */
  lemma ReplayReproduces(st: GameState)
    requires Consistent(st) && |st.history| > 0
    ensures HandleReplay(st) == st.(undone := [], drag := None)
  {
  }

  // ---------------------------------------------------------------------
  // Undo

  /** The undo button as game.js has it: nothing happens once the game is
      won or when there is no move; otherwise the last record is dropped
      and the game is reinitialised, which also empties the history, so
      the copy of the remaining records it replays is always empty. */
  function HandleUndo(st: GameState): (st': GameState)
    ensures st.victory || |st.history| == 0 ==> st' == st
    ensures !st.victory && |st.history| > 0 ==> st' == InitGame()
  {
    if st.victory || |st.history| == 0 then st
    else InitGame()
  }

  /** Whatever the number of moves, undo forgets all of them: with two or
      more it does not keep the other records. */
  lemma UndoForgetsEveryMove(st: GameState)
    requires !st.victory && |st.history| >= 2
    ensures HandleUndo(st).history == [] && |HandleUndo(st).history| != |st.history| - 1
    ensures HandleUndo(st).pieces == StartBoard()
  {
  }

  /** The replay of the remaining records inside the corrected undo: on the
      reloaded game each record is applied and logged again, and the
      victory check runs after the last one if it names a piece. */
  function ReplayRemaining(reloaded: GameState, rest: seq<Move>): (st': GameState)
    requires !reloaded.victory
    ensures st'.level == reloaded.level && st'.undone == reloaded.undone && st'.drag == reloaded.drag
    ensures st'.history == rest && st'.pieces == ApplyMoves(reloaded.pieces, rest)
    ensures st'.victory <==> |rest| > 0 && rest[|rest| - 1].pieceId in reloaded.pieces && GoalOnExit(st')
  {
    var replayed := reloaded.(pieces := ApplyMoves(reloaded.pieces, rest), history := rest);
    if |rest| > 0 && rest[|rest| - 1].pieceId in replayed.pieces then CheckVictory(replayed) else replayed
  }

  /** Undo as it was meant to work: the last record is dropped, the board
      is rebuilt from the start layout and the remaining records, and the
      victory check runs after the last replayed record. */
  function UndoIntended(st: GameState): (st': GameState)
    ensures st.victory || |st.history| == 0 ==> st' == st
    ensures !st.victory && |st.history| > 0 ==>
      && st'.level == Classic && st'.undone == [] && st'.drag == None
      && st'.history == st.history[..|st.history| - 1]
      && st'.pieces == ApplyMoves(StartBoard(), st.history[..|st.history| - 1])
    ensures !st.victory && |st.history| > 0 ==>
      (st'.victory <==> |st.history| > 1 && st.history[|st.history| - 2].pieceId in StartBoard() && GoalOnExit(st'))
  {
    if st.victory || |st.history| == 0 then st
    else ReplayRemaining(InitGame(), st.history[..|st.history| - 1])
  }

  /** The intended undo takes back a move: from a state that is not won and
      whose board its history produces, undoing a move that does not win
      restores the state. */
  lemma UndoIntendedTakesBackMove(st: GameState, id: string, row: int, col: int)
    requires Consistent(st) && st.undone == [] && st.drag == None
    requires !st.victory && !GoalOnExit(st)
    requires id in st.pieces && !MovePiece(st, id, row, col).victory
    ensures UndoIntended(MovePiece(st, id, row, col)) == st
  {
    var st' := MovePiece(st, id, row, col);
    assert st'.history[..|st'.history| - 1] == st.history;
  }
}
