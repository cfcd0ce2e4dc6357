/**
 The falling piece of class `mino` (src/tetris.cpp:73-281): its kind, its
 4x4 mask, its rotation state and the board position of the mask's top-left
 corner, with translation, rotation with wall kicks, and the footprint test.
 */
module Mino {
  import opened Wrappers
  import opened Kinds
  import opened Board
  import opened Shapes
  import opened Kicks

  /** The source keeps the anchor in `size_t` and lets it wrap; for the small
      values that arise, a signed anchor with an explicit range test is the
      same thing. */
  datatype Piece = Piece(kind: Kind, mask: Mask, state: RotState, row: int, col: int)

  /** The shape invariant every piece keeps: its mask sits in the kind's
      rotation frame and has four cells. */
  predicate WellFormed(p: Piece) {
    Confined(p.mask, Frame(p.kind)) && |Cells(p.mask)| == 4
  }

  /**
   Mask `m`, with its top-left corner at board cell (row, col), covers board
   cell (r, c). This is `mino::occupies`; the source's unsigned differences
   `i - M_i < 4` are the two-sided range tests here.
   */
  predicate Covers(m: Mask, row: int, col: int, r: int, c: int) {
    0 <= r - row < 4 && 0 <= c - col < 4 && m[r - row][c - col]
  }

  /** The invariant of an active piece: each of its cells is on the board and free. */
  ghost predicate Legal(g: Grid, p: Piece) {
    forall r, c {:trigger Covers(p.mask, p.row, p.col, r, c)} ::
      Covers(p.mask, p.row, p.col, r, c) ==> Free(g, r, c)
  }

  /** Each cell of the piece is on the board (free or not). */
  ghost predicate OnBoard(p: Piece) {
    forall r, c {:trigger Covers(p.mask, p.row, p.col, r, c)} ::
      Covers(p.mask, p.row, p.col, r, c) ==> !OutOfRange(r, c)
  }

  /** The constructor `mino(char)`: the state-0 mask, anchored at row 0, column 3. */
  function NewPiece(k: Kind): (p: Piece)
    ensures p.kind == k && p.state == 0 && WellFormed(p) && OnBoard(p)
  {
    ShapeWellFormed(k);
    Piece(k, Shape(k), 0, 0, 3)
  }

  /** Frame cell (a, b) comes at or after (i, j) in row-major order. */
  predicate AtOrAfter(a: int, b: int, i: int, j: int) {
    a > i || (a == i && b >= j)
  }

  /**
   The row-major scan over the mask that the source's nested loops perform,
   from frame cell (i, j) on, asking `ok` of the board cell under each set
   mask cell: every one passes. It stops at the first failing cell; the
   source's loops may scan on after it (a `break` leaves only the column
   loop), but the answer is the same.
   */
  function AllCellsFrom(m: Mask, row: int, col: int, ok: (int, int) -> bool, i: int, j: int): (all: bool)
    requires 0 <= i <= 4 && 0 <= j <= 4
    decreases 4 - i, 4 - j
    ensures all <==> forall r, c {:trigger Covers(m, row, col, r, c)} ::
      Covers(m, row, col, r, c) && AtOrAfter(r - row, c - col, i, j) ==> ok(r, c)
  {
    if i == 4 then true
    else if j == 4 then AllCellsFrom(m, row, col, ok, i + 1, 0)
    else
      assert Covers(m, row, col, row + i, col + j) == m[i][j];
      (!m[i][j] || ok(row + i, col + j)) && AllCellsFrom(m, row, col, ok, i, j + 1)
  }

  /** The placement test of `move` and of each kick in `rotate`: mask `m`
      with its top-left corner at (row, col) is scanned for a cell that is
      off the board or occupied. */
  predicate Fits(g: Grid, m: Mask, row: int, col: int) {
    AllCellsFrom(m, row, col, (r, c) => Free(g, r, c), 0, 0)
  }

  /** The scan accepts exactly when every board cell under the mask is free;
      for a piece's own mask and anchor, exactly when the piece is legal. */
  lemma FitsMeans(g: Grid, m: Mask, row: int, col: int)
    ensures Fits(g, m, row, col) <==> forall r, c {:trigger Covers(m, row, col, r, c)} ::
      Covers(m, row, col, r, c) ==> Free(g, r, c)
  {
  }

  /**
   `mino::move`: shifts the piece by (di, dj) when every cell of the shifted
   mask is on the board and free, and reports whether it did. Nothing but
   the anchor ever changes.
   */
  function Move(g: Grid, p: Piece, di: int, dj: int): (res: (bool, Piece))
    ensures res.0 <==> forall r, c {:trigger Covers(p.mask, p.row + di, p.col + dj, r, c)} ::
      Covers(p.mask, p.row + di, p.col + dj, r, c) ==> Free(g, r, c)
    ensures res.0 ==> res.1 == p.(row := p.row + di, col := p.col + dj)
    ensures !res.0 ==> res.1 == p
  {
    FitsMeans(g, p.mask, p.row + di, p.col + dj);
    if Fits(g, p.mask, p.row + di, p.col + dj) then
      (true, p.(row := p.row + di, col := p.col + dj))
    else
      assert !(forall r, c {:trigger Covers(p.mask, p.row + di, p.col + dj, r, c)} ::
        Covers(p.mask, p.row + di, p.col + dj, r, c) ==> Free(g, r, c));
      (false, p)
  }

  /** A move whose target puts one cell of the piece on a blocked square is refused. */
  lemma BlockedCellRefusesMove(g: Grid, p: Piece, di: int, dj: int, r: int, c: int)
    requires Covers(p.mask, p.row + di, p.col + dj, r, c) && !Free(g, r, c)
    ensures !Move(g, p, di, dj).0
  {
  }

  /** A move, successful or not, leaves a legal piece legal. */
  lemma MoveKeepsLegal(g: Grid, p: Piece, di: int, dj: int)
    requires Legal(g, p)
    ensures Legal(g, Move(g, p, di, dj).1)
  {
  }

  /** A successful move of a legal piece can always be taken back. */
  lemma MoveUndo(g: Grid, p: Piece, di: int, dj: int)
    requires Legal(g, p) && Move(g, p, di, dj).0
    ensures Move(g, Move(g, p, di, dj).1, -di, -dj).0
    ensures Move(g, Move(g, p, di, dj).1, -di, -dj).1 == p
  {
    var q := Move(g, p, di, dj).1;
    assert q.mask == p.mask && q.row + -di == p.row && q.col + -dj == p.col;
  }

  /** The state after a quarter turn, wrapped into 0..3 as `(next_state += 4) %= 4` does. */
  function NextState(s: RotState, cw: bool): (n: RotState)
    ensures cw ==> (s < 3 ==> n == s + 1) && (s == 3 ==> n == 0)
    ensures !cw ==> (s > 0 ==> n == s - 1) && (s == 0 ==> n == 3)
  {
    (s + (if cw then 1 else -1) + 4) % 4
  }

  /** Turning one way and then the other returns to the same state. */
  lemma NextStateRoundTrip(s: RotState, cw: bool)
    ensures NextState(NextState(s, cw), !cw) == s
  {
  }

  /** Mask `m`, anchored at (row, col) and shifted by kick `o`, fits. */
  predicate KickFits(g: Grid, m: Mask, row: int, col: int, o: Offset) {
    Fits(g, m, row + RowShift(o), col + ColShift(o))
  }

  /**
   The kick search of `mino::rotate`: the index of the first offset, from
   position n on, at which mask `m` anchored at (row, col) fits, or None when
   it fits at none of them.
   */
  function FirstFit(g: Grid, m: Mask, row: int, col: int, offs: seq<Offset>, n: nat): (found: Option<nat>)
    requires n <= |offs|
    decreases |offs| - n
    ensures found.Some? ==> n <= found.value < |offs| && KickFits(g, m, row, col, offs[found.value])
    ensures found.Some? ==> forall x :: n <= x < found.value ==> !KickFits(g, m, row, col, offs[x])
    ensures found.None? ==> forall x :: n <= x < |offs| ==> !KickFits(g, m, row, col, offs[x])
  {
    if n == |offs| then None
    else if KickFits(g, m, row, col, offs[n]) then Some(n)
    else FirstFit(g, m, row, col, offs, n + 1)
  }

  /**
   The kick resolution of `mino::rotate`: tries the offsets in order and
   commits the turned mask `m`, the new state `s` and the first offset at
   which `m` fits; when none fits, the piece stays exactly as it was.
   */
  function Kick(g: Grid, p: Piece, m: Mask, s: RotState, offs: seq<Offset>): (res: (bool, Piece))
    ensures !res.0 ==> res.1 == p
    ensures !res.0 ==> forall x :: 0 <= x < |offs| ==> !KickFits(g, m, p.row, p.col, offs[x])
    ensures res.0 ==> res.1.kind == p.kind && res.1.mask == m && res.1.state == s
    ensures res.0 ==> Fits(g, m, res.1.row, res.1.col)
    ensures res.0 ==> exists x :: (0 <= x < |offs| && KickFits(g, m, p.row, p.col, offs[x])
      && (forall y :: 0 <= y < x ==> !KickFits(g, m, p.row, p.col, offs[y]))
      && res.1.row == p.row + RowShift(offs[x]) && res.1.col == p.col + ColShift(offs[x]))
  {
    match FirstFit(g, m, p.row, p.col, offs, 0)
    case None => (false, p)
    case Some(x) =>
      (true, Piece(p.kind, m, s, p.row + RowShift(offs[x]), p.col + ColShift(offs[x])))
  }

  /** Every table starts with the offset (0, 0), so a turned mask that fits
      where it is never gets kicked away. */
  lemma KickPrefersNoShift(g: Grid, p: Piece, m: Mask, s: RotState, offs: seq<Offset>)
    requires |offs| > 0 && offs[0] == (0, 0) && Fits(g, m, p.row, p.col)
    ensures Kick(g, p, m, s, offs).0
    ensures Kick(g, p, m, s, offs).1 == Piece(p.kind, m, s, p.row, p.col)
  {
    assert KickFits(g, m, p.row, p.col, offs[0]);
    assert FirstFit(g, m, p.row, p.col, offs, 0) == Some(0);
  }

  /**
   `mino::rotate`: the O piece reports success and stays as it is; any other
   piece turns its mask inside its frame and resolves kicks with its table
   for the current state and direction, aiming at the next state.
   */
  function Rotate(g: Grid, p: Piece, cw: bool): (res: (bool, Piece))
    ensures p.kind == O ==> res == (true, p)
    ensures !res.0 ==> res.1 == p
    ensures p.kind != O && res.0 ==> res.1.kind == p.kind && res.1.state == NextState(p.state, cw)
                                     && res.1.mask == RotateMask(p.mask, Frame(p.kind), cw)
    ensures p.kind != O ==> (res.0 <==> exists x :: 0 <= x < |KickTable(p.kind, cw, p.state)| &&
                                         KickFits(g, RotateMask(p.mask, Frame(p.kind), cw), p.row, p.col,
                                                  KickTable(p.kind, cw, p.state)[x]))
  {
    if p.kind == O then
      (true, p)
    else
      Kick(g, p, RotateMask(p.mask, Frame(p.kind), cw), NextState(p.state, cw), KickTable(p.kind, cw, p.state))
  }

  /** A turn whose turned mask fits where the piece stands lands there: the
      anchor stays, and the piece takes the turned mask and the next state. */
  lemma RotateInPlace(g: Grid, p: Piece, cw: bool)
    requires p.kind != O && Fits(g, RotateMask(p.mask, Frame(p.kind), cw), p.row, p.col)
    ensures Rotate(g, p, cw).0
    ensures Rotate(g, p, cw).1 == Piece(p.kind, RotateMask(p.mask, Frame(p.kind), cw), NextState(p.state, cw), p.row, p.col)
  {
    KickPrefersNoShift(g, p, RotateMask(p.mask, Frame(p.kind), cw), NextState(p.state, cw), KickTable(p.kind, cw, p.state));
  }

  /** A committed kick places the mask where it fits; a refused one leaves
      the piece as it was. Either way a legal piece stays legal. */
  lemma KickKeepsLegal(g: Grid, p: Piece, m: Mask, s: RotState, offs: seq<Offset>)
    requires Legal(g, p)
    ensures Legal(g, Kick(g, p, m, s, offs).1)
  {
    var res := Kick(g, p, m, s, offs);
    if res.0 {
      FitsMeans(g, m, res.1.row, res.1.col);
    }
  }

  /** A rotation, successful or not, leaves a legal piece legal. */
  lemma RotateKeepsLegal(g: Grid, p: Piece, cw: bool)
    requires Legal(g, p)
    ensures Legal(g, Rotate(g, p, cw).1)
  {
    if p.kind != O {
      KickKeepsLegal(g, p, RotateMask(p.mask, Frame(p.kind), cw), NextState(p.state, cw), KickTable(p.kind, cw, p.state));
    }
  }

  /** A rotation keeps the kind and the shape invariant. */
  lemma RotateKeepsShape(g: Grid, p: Piece, cw: bool)
    requires WellFormed(p)
    ensures Rotate(g, p, cw).1.kind == p.kind && WellFormed(Rotate(g, p, cw).1)
  {
    if p.kind != O {
      RotateKeepsCellCount(p.mask, Frame(p.kind), cw);
    }
  }

  /** A rotation, successful or not, keeps the kind, keeps a legal piece
      legal and a well-formed piece well-formed. */
  lemma RotateKeepsInvariant(g: Grid, p: Piece, cw: bool)
    requires Legal(g, p) && WellFormed(p)
    ensures Rotate(g, p, cw).1.kind == p.kind
    ensures Legal(g, Rotate(g, p, cw).1) && WellFormed(Rotate(g, p, cw).1)
  {
    RotateKeepsLegal(g, p, cw);
    RotateKeepsShape(g, p, cw);
  }

  /** `mino::occupies`: whether board cell (r, c) is one of the piece's cells. */
  function Occupies(p: Piece, r: int, c: int): (hit: bool)
    ensures hit <==> exists i, j :: 0 <= i < 4 && 0 <= j < 4 && p.mask[i][j] && p.row + i == r && p.col + j == c
  {
    Covers(p.mask, p.row, p.col, r, c)
  }
}
