/**
 The 4x4 block masks of class `mino` (src/tetris.cpp:75-140) and the
 rotation of a mask inside its working frame (src/tetris.cpp:218-238).
 */
module Shapes {
  import opened Kinds

  type MaskRow = r: seq<bool> | |r| == 4 witness [false, false, false, false]

  /** mask[i][j] is the cell in row i, column j of the piece's 4x4 frame. */
  type Mask = m: seq<MaskRow> | |m| == 4
    witness [[false, false, false, false], [false, false, false, false],
             [false, false, false, false], [false, false, false, false]]

  /** One mask row written with 0/1 digits, as the source writes it. */
  function Bits(a: int, b: int, c: int, d: int): MaskRow {
    [a == 1, b == 1, c == 1, d == 1]
  }

  /** The spawn cells of each kind as (row, column) pairs of its frame. */
  function Footprint(k: Kind): set<(int, int)> {
    match k
    case I => {(1, 0), (1, 1), (1, 2), (1, 3)}
    case J => {(0, 0), (1, 0), (1, 1), (1, 2)}
    case L => {(0, 2), (1, 0), (1, 1), (1, 2)}
    case O => {(0, 1), (0, 2), (1, 1), (1, 2)}
    case S => {(0, 1), (0, 2), (1, 0), (1, 1)}
    case T => {(0, 1), (1, 0), (1, 1), (1, 2)}
    case Z => {(0, 0), (0, 1), (1, 1), (1, 2)}
  }

  /** `mino::M_block_init`: the state-0 mask of each kind, setting exactly
      the cells of its footprint. */
  function Shape(k: Kind): (m: Mask)
    ensures Cells(m) == Footprint(k)
  {
    match k
    case I => [Bits(0, 0, 0, 0), Bits(1, 1, 1, 1), Bits(0, 0, 0, 0), Bits(0, 0, 0, 0)]
    case J => [Bits(1, 0, 0, 0), Bits(1, 1, 1, 0), Bits(0, 0, 0, 0), Bits(0, 0, 0, 0)]
    case L => [Bits(0, 0, 1, 0), Bits(1, 1, 1, 0), Bits(0, 0, 0, 0), Bits(0, 0, 0, 0)]
    case O => [Bits(0, 1, 1, 0), Bits(0, 1, 1, 0), Bits(0, 0, 0, 0), Bits(0, 0, 0, 0)]
    case S => [Bits(0, 1, 1, 0), Bits(1, 1, 0, 0), Bits(0, 0, 0, 0), Bits(0, 0, 0, 0)]
    case T => [Bits(0, 1, 0, 0), Bits(1, 1, 1, 0), Bits(0, 0, 0, 0), Bits(0, 0, 0, 0)]
    case Z => [Bits(1, 1, 0, 0), Bits(0, 1, 1, 0), Bits(0, 0, 0, 0), Bits(0, 0, 0, 0)]
  }

  /** The side of the square a kind rotates in: 4 for I, 3 for every other kind. */
  function Frame(k: Kind): int {
    if k == I then 4 else 3
  }

  /** Every set cell of `m` lies in the top-left f x f square. */
  predicate Confined(m: Mask, f: int) {
    forall i, j :: 0 <= i < 4 && 0 <= j < 4 && m[i][j] ==> i < f && j < f
  }

  /** The set cells of a mask as (row, column) pairs. */
  function Cells(m: Mask): set<(int, int)> {
    set i, j | 0 <= i < 4 && 0 <= j < 4 && m[i][j] :: (i, j)
  }

  /** Where a frame cell goes under a quarter turn in an f x f frame. */
  function RotatePoint(c: (int, int), f: int, cw: bool): (int, int) {
    if cw then (c.1, f - 1 - c.0) else (f - 1 - c.1, c.0)
  }

  /**
   The mask transform of `mino::rotate`: a quarter turn inside the f x f
   frame, built into a fresh all-zero mask, so nothing outside the frame
   survives. Clockwise sends frame cell (i, j) to (j, f-1-i), counter-clockwise
   sends it to (f-1-j, i).
   */
  function RotateMask(m: Mask, f: int, cw: bool): (r: Mask)
    requires 0 < f <= 4
    ensures Confined(r, f)
  {
    seq(4, a requires 0 <= a < 4 =>
      seq(4, b requires 0 <= b < 4 =>
        a < f && b < f && (if cw then m[f - 1 - b][a] else m[b][f - 1 - a])))
  }

  /** The cell movement of `mino::rotate`, stated in the source's direction:
      the value of frame cell (i, j) lands on (j, f-1-i) for a clockwise turn
      and on (f-1-j, i) for a counter-clockwise one. */
  lemma RotateMaskMovesCells(m: Mask, f: int, cw: bool)
    requires 0 < f <= 4
    ensures cw ==> forall i, j :: 0 <= i < f && 0 <= j < f ==> RotateMask(m, f, cw)[j][f - 1 - i] == m[i][j]
    ensures !cw ==> forall i, j :: 0 <= i < f && 0 <= j < f ==> RotateMask(m, f, cw)[f - 1 - j][i] == m[i][j]
  {
  }

  /** Inside its frame, rotation moves every set cell by RotatePoint. */
  lemma RotateImage(m: Mask, f: int, cw: bool)
    requires 0 < f <= 4 && Confined(m, f)
    ensures Cells(RotateMask(m, f, cw)) == set c | c in Cells(m) :: RotatePoint(c, f, cw)
  {
    var r := RotateMask(m, f, cw);
    var image := set c | c in Cells(m) :: RotatePoint(c, f, cw);
    forall c | c in Cells(r)
      ensures c in image
    {
      var src := if cw then (f - 1 - c.1, c.0) else (c.1, f - 1 - c.0);
      assert src in Cells(m) && RotatePoint(src, f, cw) == c;
    }
    forall c | c in image
      ensures c in Cells(r)
    {
      var src :| src in Cells(m) && RotatePoint(src, f, cw) == c;
      RotateMaskMovesCells(m, f, cw);
      assert r[c.0][c.1] == m[src.0][src.1];
    }
  }

  /** RotatePoint is one-to-one, so the image of a set is as large as the set. */
  lemma {:induction false} RotateImageSize(s: set<(int, int)>, f: int, cw: bool)
    ensures |set c | c in s :: RotatePoint(c, f, cw)| == |s|
    decreases |s|
  {
    if s != {} {
      var x :| x in s;
      var rest := s - {x};
      RotateImageSize(rest, f, cw);
      var image := set c | c in s :: RotatePoint(c, f, cw);
      var restImage := set c | c in rest :: RotatePoint(c, f, cw);
      assert image == restImage + {RotatePoint(x, f, cw)};
      assert RotatePoint(x, f, cw) !in restImage;
    }
  }

  /** A rotation keeps the number of cells of a mask confined to its frame. */
  lemma RotateKeepsCellCount(m: Mask, f: int, cw: bool)
    requires 0 < f <= 4 && Confined(m, f)
    ensures |Cells(RotateMask(m, f, cw))| == |Cells(m)|
  {
    RotateImage(m, f, cw);
    RotateImageSize(Cells(m), f, cw);
  }

  /** A quarter turn one way followed by one the other way restores the mask. */
  lemma RotateRoundTrip(m: Mask, f: int, cw: bool)
    requires 0 < f <= 4 && Confined(m, f)
    ensures RotateMask(RotateMask(m, f, cw), f, !cw) == m
  {
    var back := RotateMask(RotateMask(m, f, cw), f, !cw);
    forall i | 0 <= i < 4
      ensures back[i] == m[i]
    {
      forall j | 0 <= j < 4
        ensures back[i][j] == m[i][j]
      {
      }
    }
  }

  /** Every state-0 mask fits its rotation frame and has exactly four cells. */
  lemma ShapeWellFormed(k: Kind)
    ensures Confined(Shape(k), Frame(k))
    ensures |Cells(Shape(k))| == 4
  {
    var m := Shape(k);
    forall i, j | 0 <= i < 4 && 0 <= j < 4 && m[i][j]
      ensures i < Frame(k) && j < Frame(k)
    {
      assert (i, j) in Footprint(k);
    }
  }
}
