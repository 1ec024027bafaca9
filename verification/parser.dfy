/** The level parser of test-parser.js: a row-major scan of a character grid
    that claims cells as it goes, collects the bounding span of the exit
    cells `f`, and turns piece letters into pieces of a fixed shape with
    deterministic ids. */
module LevelParser {
  import opened Board
  import Decimal

  /** A level descriptor as read from the level store. */
  datatype LevelData = LevelData(id: string, name: string, grid: seq<string>)

  datatype ParsedLevel = ParsedLevel(
    id: string, name: string, rows: int, cols: int,
    exit: Option<Exit>, pieces: seq<Piece>, grid: seq<string>)

  /** `EmptyGrid` is the case where the source reads the length of a missing
      first row and throws. */
  datatype ParseResult = Parsed(level: ParsedLevel) | EmptyGrid

  function Rows(grid: seq<string>): nat {
    |grid|
  }

  /** The width of the grid is the length of its first row. */
  function Cols(grid: seq<string>): nat {
    if |grid| == 0 then 0 else |grid[0]|
  }

  /** The character at (r, c), or None where the row is too short. */
  function At(grid: seq<string>, r: int, c: int): Option<char> {
    if 0 <= r < |grid| && 0 <= c < |grid[r]| then Some(grid[r][c]) else None
  }

  predicate InGrid(grid: seq<string>, r: int, c: int) {
    0 <= r < Rows(grid) && 0 <= c < Cols(grid)
  }

  predicate IsPieceLetter(ch: char) {
    ch == 'v' || ch == 'h' || ch == 'd' || ch == 'a'
  }

  predicate IsExitMark(grid: seq<string>, r: int, c: int) {
    At(grid, r, c) == Some('f')
  }

  /** (qr, qc) comes strictly before (r, c) in row-major order. */
  predicate Before(qr: int, qc: int, r: int, c: int) {
    qr < r || (qr == r && qc < c)
  }

  /** (qr, qc) is a grid cell the scan has visited when its cursor is at (r, c). */
  predicate Scanned(grid: seq<string>, qr: int, qc: int, r: int, c: int) {
    InGrid(grid, qr, qc) && Before(qr, qc, r, c)
  }

  /** Shape check for a piece letter found at (r, c): the rest of the fixed
      footprint must be inside the grid and hold the same letter. `v` is one
      cell wide and two tall, `h` two wide and one tall, `d` two by two and
      `a` a single cell. The id is assigned by the caller. */
  function DetectPiece(grid: seq<string>, r: int, c: int, kind: char): (res: Option<Piece>)
    ensures res.Some? ==>
      && res.value.id == "" && res.value.kind == kind && res.value.row == r && res.value.col == c
      && HasShapeOf(res.value)
    ensures res.Some? && InGrid(grid, r, c) ==> forall qr, qc ::
      Covers(res.value, qr, qc) && (qr != r || qc != c) ==> InGrid(grid, qr, qc) && At(grid, qr, qc) == Some(kind)
    ensures !IsPieceLetter(kind) || kind == 'a' ==> res == Some(Piece("", kind, r, c, 1, 1))
  {
    if kind == 'v' then
      if r + 1 < Rows(grid) && At(grid, r + 1, c) == Some('v')
      then Some(Piece("", kind, r, c, 1, 2)) else None
    else if kind == 'h' then
      if c + 1 < Cols(grid) && At(grid, r, c + 1) == Some('h')
      then Some(Piece("", kind, r, c, 2, 1)) else None
    else if kind == 'd' then
      if r + 1 < Rows(grid) && c + 1 < Cols(grid)
         && At(grid, r, c + 1) == Some('d') && At(grid, r + 1, c) == Some('d')
         && At(grid, r + 1, c + 1) == Some('d')
      then Some(Piece("", kind, r, c, 2, 2)) else None
    else
      Some(Piece("", kind, r, c, 1, 1))
  }

  /** `p` is what the shape check reports for its own top-left cell, a grid
      cell which holds its letter. */
  predicate Detected(grid: seq<string>, p: Piece) {
    && InGrid(grid, p.row, p.col)
    && IsPieceLetter(p.kind)
    && At(grid, p.row, p.col) == Some(p.kind)
    && DetectPiece(grid, p.row, p.col, p.kind) == Some(p.(id := ""))
  }

  /** The fixed footprint of each piece letter. */
  predicate HasShapeOf(p: Piece) {
    && (p.kind == 'v' ==> p.width == 1 && p.height == 2)
    && (p.kind == 'h' ==> p.width == 2 && p.height == 1)
    && (p.kind == 'd' ==> p.width == 2 && p.height == 2)
    && (p.kind == 'a' ==> p.width == 1 && p.height == 1)
  }

  /** A detected piece has its letter's shape, lies inside the grid, and every
      cell it covers holds its letter. */
  lemma DetectedShape(grid: seq<string>, p: Piece)
    requires Detected(grid, p)
    ensures HasShapeOf(p)
    ensures 0 <= p.row && p.row + p.height <= Rows(grid)
    ensures 0 <= p.col && p.col + p.width <= Cols(grid)
    ensures forall r, c :: Covers(p, r, c) ==> At(grid, r, c) == Some(p.kind)
  {
  }

  /** Conversely, a footprint of its letter's shape lying inside the grid
      with its letter in every cell passes the shape check at its top-left. */
  lemma DetectPieceComplete(grid: seq<string>, p: Piece)
    requires IsPieceLetter(p.kind) && HasShapeOf(p)
    requires forall r, c :: Covers(p, r, c) ==> InGrid(grid, r, c) && At(grid, r, c) == Some(p.kind)
    ensures Detected(grid, p)
  {
    assert Covers(p, p.row, p.col);
    if p.kind != 'a' {
      assert p.kind != 'h' ==> Covers(p, p.row + 1, p.col);
      assert p.kind != 'v' ==> Covers(p, p.row, p.col + 1);
      assert p.kind == 'd' ==> Covers(p, p.row + 1, p.col + 1);
    }
  }

  /** The scan's accumulator: pieces found so far, the exit span so far, the
      claimed cells and the per-letter counters. */
  datatype Scan = Scan(pieces: seq<Piece>, exit: Option<Exit>, claimed: set<(int, int)>, counters: map<char, nat>)

  const StartScan: Scan := Scan([], None, {}, map['v' := 0, 'h' := 0, 'd' := 0, 'a' := 0])

  predicate CountersReady(st: Scan) {
    forall t :: IsPieceLetter(t) ==> t in st.counters
  }

  /** Grows the exit span by cell (r, c). */
  function WidenExit(exit: Option<Exit>, r: int, c: int): Exit {
    match exit
    case None => Exit(r, c, c)
    case Some(e) =>
      Exit(if e.row < r then r else e.row, if c < e.lo then c else e.lo, if e.hi < c then c else e.hi)
  }

  /** The goal piece is always called "d"; any other piece is its letter
      followed by its 1-based rank among the pieces of that letter. */
  function PieceId(kind: char, n: nat): string {
    if kind == 'd' then "d" else [kind] + Decimal.NatToString(n)
  }

  /** One iteration of the scan, at cell (r, c). */
  function Visit(grid: seq<string>, r: int, c: int, st: Scan): (st': Scan)
    requires CountersReady(st)
    ensures CountersReady(st')
    ensures (r, c) in st.claimed ==> st' == st
    ensures st.claimed <= st'.claimed
    ensures At(grid, r, c) != Some('f') ==> st'.exit == st.exit
    ensures At(grid, r, c) == Some('f') && (r, c) !in st.claimed ==>
      st'.exit == Some(WidenExit(st.exit, r, c)) && (r, c) in st'.claimed
    ensures st'.pieces == st.pieces || (
      && |st'.pieces| == |st.pieces| + 1 && st'.pieces[..|st.pieces|] == st.pieces
      && At(grid, r, c) == Some(st'.pieces[|st.pieces|].kind) && IsPieceLetter(st'.pieces[|st.pieces|].kind)
      && st'.pieces[|st.pieces|].row == r && st'.pieces[|st.pieces|].col == c
      && (r, c) in st'.claimed)
  {
    if (r, c) in st.claimed then st
    else match At(grid, r, c)
      case None => st
      case Some(ch) =>
        if ch == 'f' then
          st.(exit := Some(WidenExit(st.exit, r, c)), claimed := st.claimed + {(r, c)})
        else if ch == '.' || ch == ' ' then
          st.(claimed := st.claimed + {(r, c)})
        else if IsPieceLetter(ch) then
          match DetectPiece(grid, r, c, ch)
          case None => st
          case Some(p) =>
            var n := st.counters[ch] + 1;
            var q := p.(id := PieceId(ch, n));
            st.(pieces := st.pieces + [q],
                claimed := st.claimed + Footprint(q),
                counters := st.counters[ch := n])
        else st
  }

  /** The scan from cursor (r, c) to the end of the grid, row by row. */
  function ScanFrom(grid: seq<string>, r: int, c: int, st: Scan): (st': Scan)
    requires 0 <= r && 0 <= c
    requires CountersReady(st)
    ensures CountersReady(st') && st.claimed <= st'.claimed
    ensures |st.pieces| <= |st'.pieces| && st'.pieces[..|st.pieces|] == st.pieces
    ensures (forall qr, qc :: InGrid(grid, qr, qc) && !Before(qr, qc, r, c) ==> !IsExitMark(grid, qr, qc)) ==>
      st'.exit == st.exit
    decreases Rows(grid) - r, Cols(grid) - c
  {
    if r >= Rows(grid) then st
    else if c >= Cols(grid) then ScanFrom(grid, r + 1, 0, st)
    else
      assert InGrid(grid, r, c) && !Before(r, c, r, c);
      ScanFrom(grid, r, c + 1, Visit(grid, r, c, st))
  }

  // ---------------------------------------------------------------------
  // What the scan maintains, for a cursor at (r, c)

  /** Number of pieces of letter `t` in `ps`. */
  function CountKind(ps: seq<Piece>, t: char): nat {
    if |ps| == 0 then 0
    else CountKind(ps[..|ps| - 1], t) + (if ps[|ps| - 1].kind == t then 1 else 0)
  }

  ghost predicate CountersMatch(st: Scan) {
    forall t :: IsPieceLetter(t) ==> t in st.counters && st.counters[t] == CountKind(st.pieces, t)
  }

  ghost predicate AllDetected(grid: seq<string>, ps: seq<Piece>) {
    forall i :: 0 <= i < |ps| ==> Detected(grid, ps[i])
  }

  /** Each piece carries the id its letter and rank give it. */
  ghost predicate IdsAssigned(ps: seq<Piece>) {
    forall i :: 0 <= i < |ps| ==> ps[i].id == PieceId(ps[i].kind, CountKind(ps[..i + 1], ps[i].kind))
  }

  ghost predicate TopLeftsScanned(grid: seq<string>, ps: seq<Piece>, r: int, c: int) {
    forall i :: 0 <= i < |ps| ==> Scanned(grid, ps[i].row, ps[i].col, r, c)
  }

  /** Pieces appear in strictly increasing row-major order of their top-left cells. */
  ghost predicate RowMajor(ps: seq<Piece>) {
    forall i, j :: 0 <= i < j < |ps| ==> Before(ps[i].row, ps[i].col, ps[j].row, ps[j].col)
  }

  /** No piece starts on a cell an earlier piece covers. */
  ghost predicate FreshTopLefts(ps: seq<Piece>) {
    forall i, j :: 0 <= i < j < |ps| ==> !Covers(ps[i], ps[j].row, ps[j].col)
  }

  ghost predicate FootprintsClaimed(ps: seq<Piece>, claimed: set<(int, int)>) {
    forall i, qr, qc :: 0 <= i < |ps| && Covers(ps[i], qr, qc) ==> (qr, qc) in claimed
  }

  ghost predicate CoveredBySome(ps: seq<Piece>, qr: int, qc: int) {
    exists i :: 0 <= i < |ps| && Covers(ps[i], qr, qc)
  }

  /** A claimed cell the cursor has not reached yet belongs to a piece found. */
  ghost predicate ClaimsJustified(grid: seq<string>, st: Scan, r: int, c: int) {
    forall qr, qc :: (qr, qc) in st.claimed && !Scanned(grid, qr, qc, r, c) ==> CoveredBySome(st.pieces, qr, qc)
  }

  /** A piece letter whose shape check succeeds there. */
  predicate Detectable(grid: seq<string>, r: int, c: int) {
    At(grid, r, c).Some? && IsPieceLetter(At(grid, r, c).value)
    && DetectPiece(grid, r, c, At(grid, r, c).value).Some?
  }

  /** Every detectable cell already visited is covered by a piece found. */
  ghost predicate CompleteUpTo(grid: seq<string>, ps: seq<Piece>, r: int, c: int) {
    forall qr, qc :: Scanned(grid, qr, qc, r, c) && Detectable(grid, qr, qc) ==> CoveredBySome(ps, qr, qc)
  }

  /** `exit` is the bounding span of the `f` cells visited: None when there is
      none, otherwise the largest row and the least and greatest column of
      those cells, each attained by one of them. */
  ghost predicate ExitSpan(grid: seq<string>, exit: Option<Exit>, r: int, c: int) {
    && (exit.None? <==> forall qr, qc :: Scanned(grid, qr, qc, r, c) ==> !IsExitMark(grid, qr, qc))
    && (exit.Some? ==>
        && (exists qc :: Scanned(grid, exit.value.row, qc, r, c) && IsExitMark(grid, exit.value.row, qc))
        && (exists qr :: Scanned(grid, qr, exit.value.lo, r, c) && IsExitMark(grid, qr, exit.value.lo))
        && (exists qr :: Scanned(grid, qr, exit.value.hi, r, c) && IsExitMark(grid, qr, exit.value.hi))
        && (forall qr, qc :: Scanned(grid, qr, qc, r, c) && IsExitMark(grid, qr, qc) ==>
              qr <= exit.value.row && exit.value.lo <= qc <= exit.value.hi))
  }

  ghost predicate ScanInv(grid: seq<string>, st: Scan, r: int, c: int) {
    && CountersReady(st)
    && CountersMatch(st)
    && AllDetected(grid, st.pieces)
    && IdsAssigned(st.pieces)
    && TopLeftsScanned(grid, st.pieces, r, c)
    && RowMajor(st.pieces)
    && FreshTopLefts(st.pieces)
    && FootprintsClaimed(st.pieces, st.claimed)
    && ClaimsJustified(grid, st, r, c)
    && CompleteUpTo(grid, st.pieces, r, c)
    && ExitSpan(grid, st.exit, r, c)
  }

  // ---------------------------------------------------------------------
  // The scan keeps its invariant

  lemma ScannedNext(grid: seq<string>, r: int, c: int)
    requires InGrid(grid, r, c)
    ensures forall qr, qc :: Scanned(grid, qr, qc, r, c + 1) <==> Scanned(grid, qr, qc, r, c) || (qr == r && qc == c)
  {
    forall qr, qc
      ensures Scanned(grid, qr, qc, r, c + 1) <==> Scanned(grid, qr, qc, r, c) || (qr == r && qc == c)
    {
    }
  }

  /** A cell covered by a detected piece holds that piece's letter, so it is
      never an exit cell. */
  lemma CoveredIsNotExit(grid: seq<string>, ps: seq<Piece>, qr: int, qc: int)
    requires AllDetected(grid, ps)
    requires CoveredBySome(ps, qr, qc)
    ensures !IsExitMark(grid, qr, qc)
    ensures At(grid, qr, qc).Some? && IsPieceLetter(At(grid, qr, qc).value)
  {
    var i :| 0 <= i < |ps| && Covers(ps[i], qr, qc);
    DetectedShape(grid, ps[i]);
  }

  /** The exit span stays right when the cursor steps past a cell that is not
      an exit cell. */
  lemma ExitSpanSkip(grid: seq<string>, exit: Option<Exit>, r: int, c: int)
    requires InGrid(grid, r, c)
    requires ExitSpan(grid, exit, r, c)
    requires !IsExitMark(grid, r, c)
    ensures ExitSpan(grid, exit, r, c + 1)
  {
    ScannedNext(grid, r, c);
    if exit.Some? {
      var e := exit.value;
      var c1 :| Scanned(grid, e.row, c1, r, c) && IsExitMark(grid, e.row, c1);
      assert Scanned(grid, e.row, c1, r, c + 1);
      var r2 :| Scanned(grid, r2, e.lo, r, c) && IsExitMark(grid, r2, e.lo);
      assert Scanned(grid, r2, e.lo, r, c + 1);
      var r3 :| Scanned(grid, r3, e.hi, r, c) && IsExitMark(grid, r3, e.hi);
      assert Scanned(grid, r3, e.hi, r, c + 1);
    } else {
      forall qr, qc | Scanned(grid, qr, qc, r, c + 1)
        ensures !IsExitMark(grid, qr, qc)
      {
        assert Scanned(grid, qr, qc, r, c) || (qr == r && qc == c);
      }
    }
  }

  /** The exit span after widening it by the exit cell under the cursor. */
  lemma ExitSpanWiden(grid: seq<string>, exit: Option<Exit>, r: int, c: int)
    requires InGrid(grid, r, c)
    requires ExitSpan(grid, exit, r, c)
    requires IsExitMark(grid, r, c)
    ensures ExitSpan(grid, Some(WidenExit(exit, r, c)), r, c + 1)
  {
    ScannedNext(grid, r, c);
    var e' := WidenExit(exit, r, c);
    assert Scanned(grid, r, c, r, c + 1);
    match exit
    case None =>
      forall qr, qc | Scanned(grid, qr, qc, r, c + 1) && IsExitMark(grid, qr, qc)
        ensures qr <= e'.row && e'.lo <= qc <= e'.hi
      {
        assert !Scanned(grid, qr, qc, r, c);
      }
    case Some(e) =>
      var c1 :| Scanned(grid, e.row, c1, r, c) && IsExitMark(grid, e.row, c1);
      assert Scanned(grid, e.row, c1, r, c + 1);
      var r2 :| Scanned(grid, r2, e.lo, r, c) && IsExitMark(grid, r2, e.lo);
      assert Scanned(grid, r2, e.lo, r, c + 1);
      var r3 :| Scanned(grid, r3, e.hi, r, c) && IsExitMark(grid, r3, e.hi);
      assert Scanned(grid, r3, e.hi, r, c + 1);
      forall qr, qc | Scanned(grid, qr, qc, r, c + 1) && IsExitMark(grid, qr, qc)
        ensures qr <= e'.row && e'.lo <= qc <= e'.hi
      {
        assert Scanned(grid, qr, qc, r, c) || (qr == r && qc == c);
      }
  }

  /** Stepping past a cell that yields no piece, where at most that cell is
      claimed. */
  lemma AdvanceWithoutPiece(grid: seq<string>, st: Scan, st': Scan, r: int, c: int)
    requires InGrid(grid, r, c)
    requires ScanInv(grid, st, r, c)
    requires !IsExitMark(grid, r, c)
    requires Detectable(grid, r, c) ==> CoveredBySome(st.pieces, r, c)
    requires st'.pieces == st.pieces && st'.exit == st.exit && st'.counters == st.counters
    requires st.claimed <= st'.claimed <= st.claimed + {(r, c)}
    ensures ScanInv(grid, st', r, c + 1)
  {
    ScannedNext(grid, r, c);
    ExitSpanSkip(grid, st.exit, r, c);
    forall qr, qc | (qr, qc) in st'.claimed && !Scanned(grid, qr, qc, r, c + 1)
      ensures CoveredBySome(st'.pieces, qr, qc)
    {
      assert (qr, qc) in st.claimed && !Scanned(grid, qr, qc, r, c);
    }
    forall qr, qc | Scanned(grid, qr, qc, r, c + 1) && Detectable(grid, qr, qc)
      ensures CoveredBySome(st'.pieces, qr, qc)
    {
      if !(qr == r && qc == c) {
        assert Scanned(grid, qr, qc, r, c);
      }
    }
  }

  lemma CountKindSnoc(ps: seq<Piece>, p: Piece, t: char)
    ensures CountKind(ps + [p], t) == CountKind(ps, t) + (if p.kind == t then 1 else 0)
  {
    assert (ps + [p])[..|ps|] == ps;
  }

  /** Appending the piece found at the cursor keeps ids assigned by rank. */
  lemma AppendKeepsIds(ps: seq<Piece>, q: Piece)
    requires q.id == PieceId(q.kind, CountKind(ps, q.kind) + 1)
    requires IdsAssigned(ps)
    ensures IdsAssigned(ps + [q])
  {
    var ps' := ps + [q];
    forall i | 0 <= i < |ps'|
      ensures ps'[i].id == PieceId(ps'[i].kind, CountKind(ps'[..i + 1], ps'[i].kind))
    {
      if i < |ps| {
        assert ps'[..i + 1] == ps[..i + 1];
      } else {
        assert ps'[..i + 1] == ps';
        CountKindSnoc(ps, q, q.kind);
      }
    }
  }

  /** Appending a piece found at the cursor (r, c), which no earlier piece
      covers, keeps the row-major order and fresh top-left cells. */
  lemma AppendKeepsOrder(grid: seq<string>, ps: seq<Piece>, q: Piece, r: int, c: int)
    requires InGrid(grid, r, c) && q.row == r && q.col == c
    requires forall i :: 0 <= i < |ps| ==> !Covers(ps[i], r, c)
    requires TopLeftsScanned(grid, ps, r, c)
    requires RowMajor(ps) && FreshTopLefts(ps)
    ensures TopLeftsScanned(grid, ps + [q], r, c + 1)
    ensures RowMajor(ps + [q]) && FreshTopLefts(ps + [q])
  {
    var ps' := ps + [q];
    forall i, j | 0 <= i < j < |ps'|
      ensures Before(ps'[i].row, ps'[i].col, ps'[j].row, ps'[j].col)
      ensures !Covers(ps'[i], ps'[j].row, ps'[j].col)
    {
      if j == |ps| {
        assert Scanned(grid, ps[i].row, ps[i].col, r, c);
      } else {
        assert ps'[i] == ps[i] && ps'[j] == ps[j];
      }
    }
    forall i | 0 <= i < |ps'|
      ensures Scanned(grid, ps'[i].row, ps'[i].col, r, c + 1)
    {
      if i < |ps| {
        assert Scanned(grid, ps[i].row, ps[i].col, r, c);
      }
    }
  }

  lemma AppendKeepsDetected(grid: seq<string>, ps: seq<Piece>, q: Piece)
    requires Detected(grid, q)
    requires AllDetected(grid, ps)
    ensures AllDetected(grid, ps + [q])
  {
    assert forall i :: 0 <= i < |ps| ==> (ps + [q])[i] == ps[i];
  }

  /** The claim part of the invariant, after appending piece `q` found at the
      cursor and claiming its footprint. */
  lemma AppendKeepsClaimFacts(grid: seq<string>, st: Scan, q: Piece, r: int, c: int)
    requires InGrid(grid, r, c) && q.row == r && q.col == c
    requires Covers(q, r, c)
    requires FootprintsClaimed(st.pieces, st.claimed)
    requires ClaimsJustified(grid, st, r, c)
    requires CompleteUpTo(grid, st.pieces, r, c)
    ensures FootprintsClaimed(st.pieces + [q], st.claimed + Footprint(q))
    ensures ClaimsJustified(grid, st.(pieces := st.pieces + [q], claimed := st.claimed + Footprint(q)), r, c + 1)
    ensures CompleteUpTo(grid, st.pieces + [q], r, c + 1)
  {
    var ps := st.pieces;
    var ps' := ps + [q];
    var claimed' := st.claimed + Footprint(q);
    ScannedNext(grid, r, c);
    forall i, qr, qc | 0 <= i < |ps'| && Covers(ps'[i], qr, qc)
      ensures (qr, qc) in claimed'
    {
      if i == |ps| {
        assert Covers(q, qr, qc);
      } else {
        assert Covers(ps[i], qr, qc);
      }
    }
    forall qr, qc | (qr, qc) in claimed' && !Scanned(grid, qr, qc, r, c + 1)
      ensures CoveredBySome(ps', qr, qc)
    {
      if (qr, qc) in st.claimed {
        assert !Scanned(grid, qr, qc, r, c);
        var i :| 0 <= i < |ps| && Covers(ps[i], qr, qc);
        assert ps'[i] == ps[i];
      } else {
        assert Covers(ps'[|ps|], qr, qc);
      }
    }
    forall qr, qc | Scanned(grid, qr, qc, r, c + 1) && Detectable(grid, qr, qc)
      ensures CoveredBySome(ps', qr, qc)
    {
      if qr == r && qc == c {
        assert Covers(ps'[|ps|], qr, qc);
      } else {
        assert Scanned(grid, qr, qc, r, c);
        var i :| 0 <= i < |ps| && Covers(ps[i], qr, qc);
        assert ps'[i] == ps[i];
      }
    }
  }

  /** What one visit does where the shape check finds piece `p`. */
  lemma VisitFindsPiece(grid: seq<string>, st: Scan, r: int, c: int, ch: char, p: Piece)
    requires CountersReady(st)
    requires (r, c) !in st.claimed
    requires At(grid, r, c) == Some(ch) && IsPieceLetter(ch)
    requires DetectPiece(grid, r, c, ch) == Some(p)
    ensures Visit(grid, r, c, st) ==
      st.(pieces := st.pieces + [p.(id := PieceId(ch, st.counters[ch] + 1))],
          claimed := st.claimed + Footprint(p.(id := PieceId(ch, st.counters[ch] + 1))),
          counters := st.counters[ch := st.counters[ch] + 1])
  {
  }

  /** Stepping past a cell where the shape check finds piece `p`. */
  lemma AdvanceWithPiece(grid: seq<string>, st: Scan, r: int, c: int, ch: char, p: Piece)
    requires InGrid(grid, r, c)
    requires ScanInv(grid, st, r, c)
    requires (r, c) !in st.claimed
    requires At(grid, r, c) == Some(ch) && IsPieceLetter(ch)
    requires DetectPiece(grid, r, c, ch) == Some(p)
    ensures ScanInv(grid, Visit(grid, r, c, st), r, c + 1)
  {
    var q := p.(id := PieceId(ch, st.counters[ch] + 1));
    VisitFindsPiece(grid, st, r, c, ch, p);
    AppendedInv(grid, st, q, r, c);
  }

  /** The invariant after appending the piece `q` found at the cursor,
      claiming its footprint and counting it. */
  lemma AppendedInv(grid: seq<string>, st: Scan, q: Piece, r: int, c: int)
    requires InGrid(grid, r, c)
    requires ScanInv(grid, st, r, c)
    requires (r, c) !in st.claimed
    requires At(grid, r, c) == Some(q.kind) && IsPieceLetter(q.kind)
    requires DetectPiece(grid, r, c, q.kind) == Some(q.(id := ""))
    requires q.id == PieceId(q.kind, st.counters[q.kind] + 1)
    ensures ScanInv(grid, st.(pieces := st.pieces + [q], claimed := st.claimed + Footprint(q),
      counters := st.counters[q.kind := st.counters[q.kind] + 1]), r, c + 1)
  {
    var st' := st.(pieces := st.pieces + [q], claimed := st.claimed + Footprint(q),
      counters := st.counters[q.kind := st.counters[q.kind] + 1]);
    AppendedPieceFacts(grid, st, st', q, r, c);
    AppendKeepsClaimFacts(grid, st, q, r, c);
  }

  /** The parts of the invariant about the pieces, counters and exit after
      appending the piece `q` found at the cursor. */
  lemma AppendedPieceFacts(grid: seq<string>, st: Scan, st': Scan, q: Piece, r: int, c: int)
    requires InGrid(grid, r, c)
    requires CountersReady(st) && CountersMatch(st) && AllDetected(grid, st.pieces) && IdsAssigned(st.pieces)
    requires TopLeftsScanned(grid, st.pieces, r, c) && RowMajor(st.pieces) && FreshTopLefts(st.pieces)
    requires FootprintsClaimed(st.pieces, st.claimed) && ExitSpan(grid, st.exit, r, c)
    requires (r, c) !in st.claimed
    requires At(grid, r, c) == Some(q.kind) && IsPieceLetter(q.kind)
    requires DetectPiece(grid, r, c, q.kind) == Some(q.(id := ""))
    requires q.id == PieceId(q.kind, st.counters[q.kind] + 1)
    requires st'.pieces == st.pieces + [q] && st'.exit == st.exit
    requires st'.counters == st.counters[q.kind := st.counters[q.kind] + 1]
    ensures CountersReady(st') && CountersMatch(st') && AllDetected(grid, st'.pieces) && IdsAssigned(st'.pieces)
    ensures TopLeftsScanned(grid, st'.pieces, r, c + 1) && RowMajor(st'.pieces) && FreshTopLefts(st'.pieces)
    ensures ExitSpan(grid, st'.exit, r, c + 1)
  {
    assert Detected(grid, q);
    assert !IsExitMark(grid, r, c);
    ExitSpanSkip(grid, st.exit, r, c);
    AppendedCounters(st, q);
    NotCoveredUnclaimed(st.pieces, st.claimed, r, c);
    AppendKeepsIds(st.pieces, q);
    AppendKeepsOrder(grid, st.pieces, q, r, c);
    AppendKeepsDetected(grid, st.pieces, q);
  }

  lemma AppendedCounters(st: Scan, q: Piece)
    requires CountersReady(st) && CountersMatch(st) && IsPieceLetter(q.kind)
    ensures var st' := st.(pieces := st.pieces + [q], counters := st.counters[q.kind := st.counters[q.kind] + 1]);
      CountersReady(st') && CountersMatch(st')
    ensures q.id == PieceId(q.kind, st.counters[q.kind] + 1) ==> q.id == PieceId(q.kind, CountKind(st.pieces, q.kind) + 1)
  {
    var st' := st.(pieces := st.pieces + [q], counters := st.counters[q.kind := st.counters[q.kind] + 1]);
    forall t | IsPieceLetter(t)
      ensures t in st'.counters && st'.counters[t] == CountKind(st'.pieces, t)
    {
      CountKindSnoc(st.pieces, q, t);
    }
  }

  /** An unclaimed cell lies in no footprint found so far. */
  lemma NotCoveredUnclaimed(ps: seq<Piece>, claimed: set<(int, int)>, r: int, c: int)
    requires FootprintsClaimed(ps, claimed) && (r, c) !in claimed
    ensures forall i :: 0 <= i < |ps| ==> !Covers(ps[i], r, c)
  {
    forall i | 0 <= i < |ps|
      ensures !Covers(ps[i], r, c)
    {
      assert Covers(ps[i], r, c) ==> (r, c) in claimed;
    }
  }

  /** One visit moves the invariant from cursor (r, c) to (r, c + 1). */
  lemma VisitKeepsInv(grid: seq<string>, st: Scan, r: int, c: int)
    requires InGrid(grid, r, c)
    requires ScanInv(grid, st, r, c)
    ensures ScanInv(grid, Visit(grid, r, c, st), r, c + 1)
  {
    var st' := Visit(grid, r, c, st);
    if (r, c) in st.claimed {
      assert !Scanned(grid, r, c, r, c);
      CoveredIsNotExit(grid, st.pieces, r, c);
      AdvanceWithoutPiece(grid, st, st', r, c);
    } else {
      match At(grid, r, c)
      case None =>
        AdvanceWithoutPiece(grid, st, st', r, c);
      case Some(ch) =>
        if ch == 'f' {
          ScannedNext(grid, r, c);
          ExitSpanWiden(grid, st.exit, r, c);
          AdvanceClaimOnly(grid, st, st', r, c);
        } else if ch == '.' || ch == ' ' {
          AdvanceWithoutPiece(grid, st, st', r, c);
        } else if IsPieceLetter(ch) {
          match DetectPiece(grid, r, c, ch)
          case None =>
            AdvanceWithoutPiece(grid, st, st', r, c);
          case Some(p) =>
            AdvanceWithPiece(grid, st, r, c, ch, p);
        } else {
          AdvanceWithoutPiece(grid, st, st', r, c);
        }
    }
  }

  /** The part of the invariant that does not involve the exit span, for a
      step that claims the cursor cell and finds no piece. */
  lemma AdvanceClaimOnly(grid: seq<string>, st: Scan, st': Scan, r: int, c: int)
    requires InGrid(grid, r, c)
    requires ScanInv(grid, st, r, c)
    requires !Detectable(grid, r, c)
    requires st'.pieces == st.pieces && st'.counters == st.counters
    requires ExitSpan(grid, st'.exit, r, c + 1)
    requires st'.claimed == st.claimed + {(r, c)}
    ensures ScanInv(grid, st', r, c + 1)
  {
    ScannedNext(grid, r, c);
    forall qr, qc | (qr, qc) in st'.claimed && !Scanned(grid, qr, qc, r, c + 1)
      ensures CoveredBySome(st'.pieces, qr, qc)
    {
      assert (qr, qc) in st.claimed && !Scanned(grid, qr, qc, r, c);
    }
    forall qr, qc | Scanned(grid, qr, qc, r, c + 1) && Detectable(grid, qr, qc)
      ensures CoveredBySome(st'.pieces, qr, qc)
    {
      assert Scanned(grid, qr, qc, r, c);
    }
  }

  /** Moving the cursor from the end of row r to the start of row r + 1
      changes nothing: the cells in between are outside the grid. */
  lemma WrapKeepsInv(grid: seq<string>, st: Scan, r: int, c: int)
    requires c >= Cols(grid)
    requires ScanInv(grid, st, r, c)
    ensures ScanInv(grid, st, r + 1, 0)
  {
    assert forall qr, qc :: Scanned(grid, qr, qc, r, c) <==> Scanned(grid, qr, qc, r + 1, 0);
  }

  /** Past the last row every grid cell has been visited. */
  lemma EndKeepsInv(grid: seq<string>, st: Scan, r: int, c: int)
    requires r >= Rows(grid)
    requires ScanInv(grid, st, r, c)
    ensures ScanInv(grid, st, Rows(grid), 0)
  {
    assert forall qr, qc :: Scanned(grid, qr, qc, r, c) <==> Scanned(grid, qr, qc, Rows(grid), 0);
  }

  /** The invariant holds at the end of the scan. */
  lemma {:induction false} ScanFromKeepsInv(grid: seq<string>, r: int, c: int, st: Scan)
    requires 0 <= r && 0 <= c
    requires ScanInv(grid, st, r, c)
    ensures ScanInv(grid, ScanFrom(grid, r, c, st), Rows(grid), 0)
    decreases Rows(grid) - r, Cols(grid) - c
  {
    if r >= Rows(grid) {
      EndKeepsInv(grid, st, r, c);
    } else if c >= Cols(grid) {
      WrapKeepsInv(grid, st, r, c);
      ScanFromKeepsInv(grid, r + 1, 0, st);
    } else {
      VisitKeepsInv(grid, st, r, c);
      ScanFromKeepsInv(grid, r, c + 1, Visit(grid, r, c, st));
    }
  }

  lemma StartScanInv(grid: seq<string>)
    ensures ScanInv(grid, StartScan, 0, 0)
  {
    assert forall qr, qc :: !Scanned(grid, qr, qc, 0, 0);
  }

  // ---------------------------------------------------------------------
  // The parser

  /** Parses a level descriptor. The dimensions are the number of rows and
      the length of the first row; the exit is the bounding span of the `f`
      cells; the pieces are those the row-major scan finds, in scan order,
      each passing its letter's shape check at a cell no earlier piece
      covers, and together covering every cell where a shape check passes. */
  function ParseLevel(data: LevelData): (res: ParseResult)
    ensures res.EmptyGrid? <==> |data.grid| == 0
    ensures res.Parsed? ==>
      && res.level.id == data.id && res.level.name == data.name && res.level.grid == data.grid
      && res.level.rows == |data.grid| && res.level.cols == |data.grid[0]|
    ensures res.Parsed? ==> ExitSpan(data.grid, res.level.exit, Rows(data.grid), 0)
    ensures res.Parsed? ==> AllDetected(data.grid, res.level.pieces)
    ensures res.Parsed? ==> IdsAssigned(res.level.pieces)
    ensures res.Parsed? ==> RowMajor(res.level.pieces) && FreshTopLefts(res.level.pieces)
    ensures res.Parsed? ==>
      forall r, c :: InGrid(data.grid, r, c) && Detectable(data.grid, r, c) ==> CoveredBySome(res.level.pieces, r, c)
  {
    var grid := data.grid;
    if |grid| == 0 then EmptyGrid
    else
      var st := ScanFrom(grid, 0, 0, StartScan);
      StartScanInv(grid);
      ScanFromKeepsInv(grid, 0, 0, StartScan);
      assert forall r, c :: InGrid(grid, r, c) ==> Scanned(grid, r, c, Rows(grid), 0);
      Parsed(ParsedLevel(data.id, data.name, |grid|, |grid[0]|, st.exit, st.pieces, grid))
  }

  /** Every parsed piece has its letter's fixed shape, lies inside
      [0, rows) x [0, cols), and each of its cells holds its letter; so
      `.`, ` `, `f` and unknown characters never start or belong to a piece. */
  lemma ParsedPieceShape(data: LevelData, i: int)
    requires ParseLevel(data).Parsed?
    requires 0 <= i < |ParseLevel(data).level.pieces|
    ensures var lv := ParseLevel(data).level; var p := lv.pieces[i];
      && IsPieceLetter(p.kind) && HasShapeOf(p)
      && 0 <= p.row && p.row + p.height <= lv.rows
      && 0 <= p.col && p.col + p.width <= lv.cols
      && forall r, c :: Covers(p, r, c) ==> At(data.grid, r, c) == Some(p.kind)
  {
    DetectedShape(data.grid, ParseLevel(data).level.pieces[i]);
  }

  /** The rank of a piece among those of its letter grows along the list. */
  lemma CountKindPrefixGrows(ps: seq<Piece>, i: int, j: int, t: char)
    requires 0 <= i < j < |ps|
    requires ps[j].kind == t
    ensures CountKind(ps[..i + 1], t) < CountKind(ps[..j + 1], t)
  {
    assert ps[..j + 1][..j] == ps[..j];
    CountKindPrefixMonotone(ps, i + 1, j, t);
  }

  lemma {:induction false} CountKindPrefixMonotone(ps: seq<Piece>, a: int, b: int, t: char)
    requires 0 <= a <= b <= |ps|
    ensures CountKind(ps[..a], t) <= CountKind(ps[..b], t)
    decreases b - a
  {
    if a < b {
      CountKindPrefixMonotone(ps, a, b - 1, t);
      assert ps[..b][..b - 1] == ps[..b - 1];
    }
  }

  /** Two parsed pieces share an id only if both are goal pieces, which are
      all called "d". */
  lemma ParsedIdsUnique(data: LevelData, i: int, j: int)
    requires ParseLevel(data).Parsed?
    requires 0 <= i < j < |ParseLevel(data).level.pieces|
    ensures var ps := ParseLevel(data).level.pieces;
      ps[i].id == ps[j].id ==> ps[i].kind == GoalKind && ps[j].kind == GoalKind
  {
    var ps := ParseLevel(data).level.pieces;
    var ki, kj := ps[i].kind, ps[j].kind;
    var ni, nj := CountKind(ps[..i + 1], ki), CountKind(ps[..j + 1], kj);
    assert ps[i].id == PieceId(ki, ni) && ps[j].id == PieceId(kj, nj);
    if !(ki == GoalKind && kj == GoalKind) {
      if ki == GoalKind || kj == GoalKind {
        assert |ps[i].id| != |ps[j].id|;
      } else if ki != kj {
        assert ps[i].id[0] != ps[j].id[0];
      } else {
        CountKindPrefixGrows(ps, i, j, kj);
        assert ps[i].id[1..] == Decimal.NatToString(ni);
        assert ps[j].id[1..] == Decimal.NatToString(nj);
        Decimal.NatToStringInjective(ni, nj);
      }
    }
  }

  /** A non-empty grid parses to the result of the scan from its first cell. */
  lemma ParseLevelScans(data: LevelData)
    requires |data.grid| > 0
    ensures ParseLevel(data).Parsed?
    ensures ParseLevel(data).level.pieces == ScanFrom(data.grid, 0, 0, StartScan).pieces
    ensures ParseLevel(data).level.exit == ScanFrom(data.grid, 0, 0, StartScan).exit
  {
  }

  const OverlapGrid: seq<string> := [".dd", "ddd", "dd."]

  /** The scan of that grid after its first two rows' pieces are found. */
  const OverlapFirst: Piece := Piece("d", 'd', 0, 1, 2, 2)
  const OverlapSecond: Piece := Piece("d", 'd', 1, 0, 2, 2)

  lemma OverlapRowZero()
    ensures ScanFrom(OverlapGrid, 0, 0, StartScan) ==
      ScanFrom(OverlapGrid, 1, 0, Scan([OverlapFirst], None, {(0, 0)} + Footprint(OverlapFirst), StartScan.counters['d' := 1]))
  {
    var g := OverlapGrid;
    var s1 := Visit(g, 0, 0, StartScan);
    assert s1 == StartScan.(claimed := {(0, 0)});
    var s2 := Visit(g, 0, 1, s1);
    assert s2 == Scan([OverlapFirst], None, {(0, 0)} + Footprint(OverlapFirst), StartScan.counters['d' := 1]);
    assert (0, 2) in s2.claimed;
  }

  lemma OverlapRowOne()
    ensures var st := Scan([OverlapFirst], None, {(0, 0)} + Footprint(OverlapFirst), StartScan.counters['d' := 1]);
      ScanFrom(OverlapGrid, 1, 0, st).pieces == [OverlapFirst, OverlapSecond]
  {
    var g := OverlapGrid;
    var st := Scan([OverlapFirst], None, {(0, 0)} + Footprint(OverlapFirst), StartScan.counters['d' := 1]);
    assert (1, 0) !in st.claimed;
    var s1 := Visit(g, 1, 0, st);
    assert s1.pieces == [OverlapFirst, OverlapSecond];
    assert (1, 1) in s1.claimed && (1, 2) in s1.claimed && (2, 0) in s1.claimed && (2, 1) in s1.claimed;
    assert ScanFrom(g, 1, 0, st) == ScanFrom(g, 2, 2, s1);
  }

  /** The shape checks do not look at claimed cells, so two goal blocks
      offset diagonally are both reported: they share the cell (1, 1) and
      the id "d". */
  lemma OverlappingGoalBlocks()
    ensures var res := ParseLevel(LevelData("overlap", "Overlap", OverlapGrid));
      && res.Parsed?
      && res.level.pieces == [OverlapFirst, OverlapSecond]
      && Covers(res.level.pieces[0], 1, 1) && Covers(res.level.pieces[1], 1, 1)
  {
    var g := OverlapGrid;
    ParseLevelScans(LevelData("overlap", "Overlap", g));
    OverlapRowZero();
    OverlapRowOne();
  }
}
