/** The board invariant the occupancy rule protects: every piece is filed
    under its id and stands where `CanOccupy` would let it stand, so no two
    pieces overlap, nothing leaves the board or sits on a wall, and only the
    goal piece touches the exit. A placement `CanOccupy` accepts keeps it. */
module Safety {
  import opened Board
  import opened Engine

  ghost predicate Legal(level: Level, pieces: map<string, Piece>) {
    && KeysMatch(pieces)
    && forall k :: k in pieces ==> CanOccupy(level, pieces, pieces[k], pieces[k].row, pieces[k].col)
  }

  /** In a legal layout no two distinct pieces share a cell. */
  lemma LegalMeansDisjoint(level: Level, pieces: map<string, Piece>, k1: string, k2: string, r: int, c: int)
    requires Legal(level, pieces)
    requires k1 in pieces && k2 in pieces && k1 != k2
    ensures !(Covers(pieces[k1], r, c) && Covers(pieces[k2], r, c))
  {
    var p := pieces[k1];
    assert CanOccupy(level, pieces, p, p.row, p.col);
    if Covers(p, r, c) {
      assert InFootprint(p, p.row, p.col, r, c);
    }
  }

  /** Where a piece now stands never matters to its own occupancy check. */
  lemma CanOccupyIgnoresPosition(level: Level, pieces: map<string, Piece>, piece: Piece, a: int, b: int, row: int, col: int)
    ensures CanOccupy(level, pieces, MoveTo(piece, a, b), row, col) == CanOccupy(level, pieces, piece, row, col)
  {
    var q := MoveTo(piece, a, b);
    assert forall r, c :: InFootprint(q, row, col, r, c) == InFootprint(piece, row, col, r, c);
    assert forall r, c :: CellAllowed(level, pieces, q, r, c) == CellAllowed(level, pieces, piece, r, c);
  }

  /** Replacing a piece's own entry never changes its occupancy check: the
      check skips the piece's own id. */
  lemma CanOccupyIgnoresOwnEntry(level: Level, pieces: map<string, Piece>, piece: Piece, q: Piece, row: int, col: int)
    requires q.id == piece.id
    requires piece.id in pieces ==> pieces[piece.id].id == piece.id
    ensures CanOccupy(level, pieces[piece.id := q], piece, row, col) == CanOccupy(level, pieces, piece, row, col)
  {
    var pieces' := pieces[piece.id := q];
    forall r, c
      ensures NotBlocked(pieces', piece.id, r, c) == NotBlocked(pieces, piece.id, r, c)
    {
      assert forall k :: k in pieces' && pieces'[k].id != piece.id <==> k in pieces && pieces[k].id != piece.id;
      assert forall k :: k in pieces && pieces[k].id != piece.id ==> pieces'[k] == pieces[k];
    }
    assert forall r, c :: CellAllowed(level, pieces', piece, r, c) == CellAllowed(level, pieces, piece, r, c);
  }

  /** Placing a piece of a legal layout where `CanOccupy` accepts it keeps
      the layout legal. */
  lemma RelocateKeepsLegal(level: Level, pieces: map<string, Piece>, id: string, row: int, col: int)
    requires Legal(level, pieces)
    requires id in pieces
    requires CanOccupy(level, pieces, pieces[id], row, col)
    ensures Legal(level, pieces[id := MoveTo(pieces[id], row, col)])
  {
    var p := pieces[id];
    var p' := MoveTo(p, row, col);
    var pieces' := pieces[id := p'];
    forall k | k in pieces'
      ensures CanOccupy(level, pieces', pieces'[k], pieces'[k].row, pieces'[k].col)
    {
      if k == id {
        CanOccupyIgnoresOwnEntry(level, pieces, p, p', row, col);
        CanOccupyIgnoresPosition(level, pieces', p, row, col, row, col);
      } else {
        OtherStaysLegal(level, pieces, id, row, col, k);
      }
    }
  }

  /** The pieces that did not move stay placeable after one did. */
  lemma OtherStaysLegal(level: Level, pieces: map<string, Piece>, id: string, row: int, col: int, k: string)
    requires Legal(level, pieces)
    requires id in pieces && k in pieces && k != id
    requires CanOccupy(level, pieces, pieces[id], row, col)
    ensures var pieces' := pieces[id := MoveTo(pieces[id], row, col)];
      CanOccupy(level, pieces', pieces[k], pieces[k].row, pieces[k].col)
  {
    var p := pieces[id];
    var p' := MoveTo(p, row, col);
    var pieces' := pieces[id := p'];
    var q := pieces[k];
    assert CanOccupy(level, pieces, q, q.row, q.col);
    forall r, c | InFootprint(q, q.row, q.col, r, c)
      ensures CellAllowed(level, pieces', q, r, c)
    {
      assert CellAllowed(level, pieces, q, r, c);
      forall j | j in pieces' && pieces'[j].id != q.id
        ensures !Covers(pieces'[j], r, c)
      {
        if j == id {
          // the moved piece was checked against q's cells
          assert pieces[k].id != p.id;
          assert Covers(p', r, c) ==> InFootprint(p, row, col, r, c);
        }
      }
    }
  }

  /** A validated move keeps the board legal. */
  lemma MovePieceKeepsLegal(st: GameState, id: string, row: int, col: int)
    requires Legal(st.level, st.pieces)
    requires id in st.pieces
    requires IsValidMove(st.level, st.pieces, st.pieces[id], st.pieces[id].row, st.pieces[id].col, row, col)
    ensures Legal(MovePiece(st, id, row, col).level, MovePiece(st, id, row, col).pieces)
  {
    RelocateKeepsLegal(st.level, st.pieces, id, row, col);
    assert MovePiece(st, id, row, col).pieces == st.pieces[id := MoveTo(st.pieces[id], row, col)];
  }
}
