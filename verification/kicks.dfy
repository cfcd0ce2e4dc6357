/**
 The wall-kick tables of `mino::M_offset_array` (src/tetris.cpp:142-193):
 the Super Rotation System tables of the Tetris Guideline, one for the I
 piece and one shared by J, L, S, T and Z. Offsets are (x, y) pairs with y
 pointing up, so a kick moves the piece x columns right and y rows up.
 */
module Kicks {
  import opened Kinds

  /** A rotation state; 0 is the spawn orientation, each clockwise turn adds 1. */
  type RotState = s: int | 0 <= s < 4

  /** A kick offset (x, y): x columns to the right, y rows up. */
  type Offset = (int, int)

  /** The row change of a kick: rows grow downwards, so y is negated. */
  function RowShift(o: Offset): int { -o.1 }

  /** The column change of a kick. */
  function ColShift(o: Offset): int { o.0 }

  /** The five offsets tried, in order, when a piece of kind k in state s
      turns clockwise (cw) or counter-clockwise. The O piece never asks. */
  function KickTable(k: Kind, cw: bool, s: RotState): (offs: seq<Offset>)
    ensures |offs| == 5 && offs[0] == (0, 0)
  {
    if k == I then
      if cw then
        if s == 0 then [(0, 0), (-2, 0), (1, 0), (-2, -1), (1, 2)]
        else if s == 1 then [(0, 0), (-1, 0), (2, 0), (-1, 2), (2, -1)]
        else if s == 2 then [(0, 0), (2, 0), (-1, 0), (2, 1), (-1, -2)]
        else [(0, 0), (1, 0), (-2, 0), (1, -2), (-2, 1)]
      else
        if s == 1 then [(0, 0), (2, 0), (-1, 0), (2, 1), (-1, -2)]
        else if s == 2 then [(0, 0), (1, 0), (-2, 0), (1, -2), (-2, 1)]
        else if s == 3 then [(0, 0), (-2, 0), (1, 0), (-2, -1), (1, 2)]
        else [(0, 0), (-1, 0), (2, 0), (-1, 2), (2, -1)]
    else
      if cw then
        if s == 0 then [(0, 0), (-1, 0), (-1, 1), (0, -2), (-1, -2)]
        else if s == 1 then [(0, 0), (1, 0), (1, -1), (0, 2), (1, 2)]
        else if s == 2 then [(0, 0), (1, 0), (1, 1), (0, -2), (1, -2)]
        else [(0, 0), (-1, 0), (-1, -1), (0, 2), (-1, 2)]
      else
        if s == 1 then [(0, 0), (1, 0), (1, -1), (0, 2), (1, 2)]
        else if s == 2 then [(0, 0), (-1, 0), (-1, 1), (0, -2), (-1, -2)]
        else if s == 3 then [(0, 0), (-1, 0), (-1, -1), (0, 2), (-1, 2)]
        else [(0, 0), (1, 0), (1, 1), (0, -2), (1, -2)]
  }

  /** The elementwise negation of a list of offsets. */
  function Negated(offs: seq<Offset>): (neg: seq<Offset>)
    ensures |neg| == |offs|
    ensures forall n :: 0 <= n < |offs| ==> neg[n] == (-offs[n].0, -offs[n].1)
  {
    if |offs| == 0 then [] else [(-offs[0].0, -offs[0].1)] + Negated(offs[1..])
  }

  /**
   The SRS symmetry: undoing a clockwise turn from state s, that is turning
   counter-clockwise from state s+1, tries the same kicks mirrored.
   */
  lemma KickTableSymmetry(k: Kind, s: RotState)
    ensures KickTable(k, false, (s + 1) % 4) == Negated(KickTable(k, true, s))
  {
    var ccw := KickTable(k, false, (s + 1) % 4);
    var neg := Negated(KickTable(k, true, s));
    assert forall n :: 0 <= n < 5 ==> ccw[n] == neg[n];
  }

  /** The I piece has a table of its own: in every state and direction it
      differs from the table the other rotating kinds share. */
  lemma LongPieceHasOwnTable(k: Kind, cw: bool, s: RotState)
    requires k != I
    ensures KickTable(I, cw, s) != KickTable(k, cw, s)
  {
    assert KickTable(I, cw, s)[1] != KickTable(k, cw, s)[1];
  }
}
