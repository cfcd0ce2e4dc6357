/**
 The playing field of class `board` (src/tetris.cpp:20-71): 21 visible rows of
 10 columns, each cell empty or holding the kind of the piece that was locked
 there. The source pads the grid with a 3-cell margin that is never written;
 here the margin is simply "outside the grid", where every cell reads empty.
 */
module Board {
  import opened Kinds

  const Rows: nat := 21
  const Columns: nat := 10

  datatype Cell = Empty | Filled(kind: Kind)

  type Row = r: seq<Cell> | |r| == Columns witness seq(10, _ => Empty)

  const EmptyRow: Row := seq(Columns, _ => Empty)

  /** Row 0 is the top row, row Rows-1 the bottom one. */
  type Grid = g: seq<Row> | |g| == Rows witness seq(21, _ => seq(10, _ => Empty))

  /** The default-constructed `board`, zero everywhere: no cell is occupied. */
  function EmptyGrid(): (g: Grid)
    ensures forall r, c :: !Occupied(g, r, c)
  {
    seq(Rows, _ => EmptyRow)
  }

  /** `board::out_of_range`: the coordinate lies outside the visible grid. */
  predicate OutOfRange(r: int, c: int) {
    !(0 <= r < Rows && 0 <= c < Columns)
  }

  /** Board indices are `size_t` in the source, so a negative index wraps to
      a huge value and fails the unsigned test `i < S_rows && j < S_columns`.
      For every index a 64-bit word can carry, that unsigned test and the
      two-sided test of OutOfRange agree. */
  lemma OutOfRangeIsUnsignedTest(r: int, c: int)
    requires -0x8000_0000_0000_0000 <= r < 0x8000_0000_0000_0000
    requires -0x8000_0000_0000_0000 <= c < 0x8000_0000_0000_0000
    ensures OutOfRange(r, c) <==> !(r % 0x1_0000_0000_0000_0000 < Rows && c % 0x1_0000_0000_0000_0000 < Columns)
  {
  }

  /** The contents of board cell (r, c) of the visible grid. */
  function At(g: Grid, r: int, c: int): Cell
    requires !OutOfRange(r, c)
  {
    g[r][c]
  }

  /** `board::occupied`: a locked block sits at (r, c). Off the grid the
      answer is "no". The source is never asked there: its callers either
      test `out_of_range` first or ask only about cells on the grid. */
  predicate Occupied(g: Grid, r: int, c: int) {
    !OutOfRange(r, c) && At(g, r, c).Filled?
  }

  /** A cell a piece may cover: in range and not occupied. */
  predicate Free(g: Grid, r: int, c: int) {
    !OutOfRange(r, c) && !Occupied(g, r, c)
  }

  /** `board::set`: writes one cell and nothing else. */
  function Set(g: Grid, r: int, c: int, k: Kind): (g': Grid)
    requires !OutOfRange(r, c)
    ensures At(g', r, c) == Filled(k)
    ensures forall r', c' {:trigger At(g', r', c')} ::
      !OutOfRange(r', c') && (r', c') != (r, c) ==> At(g', r', c') == At(g, r', c')
  {
    g[r := g[r][c := Filled(k)]]
  }

  /** Reading back after `board::set`: the written cell is now occupied, and
      every other cell, on the grid or off it, is occupied exactly when it
      was before. */
  lemma OccupiedAfterSet(g: Grid, r: int, c: int, k: Kind, r': int, c': int)
    requires !OutOfRange(r, c)
    ensures Occupied(Set(g, r, c, k), r', c') <==> (r', c') == (r, c) || Occupied(g, r', c')
  {
  }

  /** A row is cleared when all of its visible columns are occupied. */
  predicate Full(row: Row) {
    forall c :: 0 <= c < Columns ==> row[c].Filled?
  }

  /** The number of full rows in `rows`. */
  function CountFull(rows: seq<Row>): nat {
    if |rows| == 0 then 0 else (if Full(rows[0]) then 1 else 0) + CountFull(rows[1..])
  }

  /** The rows of `rows` that are not full, in their original order: the rows
      line clearing keeps. */
  function Kept(rows: seq<Row>): (kept: seq<Row>)
    ensures |kept| + CountFull(rows) == |rows|
    ensures forall x :: x in kept ==> !Full(x)
  {
    if |rows| == 0 then [] else (if Full(rows[0]) then [] else [rows[0]]) + Kept(rows[1..])
  }

  /** Scanning one more row up extends the count and the kept rows by that row. */
  lemma ScanStep(rows: seq<Row>, i: nat)
    requires 0 < i <= |rows|
    ensures CountFull(rows[i - 1..]) == (if Full(rows[i - 1]) then 1 else 0) + CountFull(rows[i..])
    ensures Kept(rows[i - 1..]) == (if Full(rows[i - 1]) then [] else [rows[i - 1]]) + Kept(rows[i..])
  {
    assert rows[i - 1..][1..] == rows[i..];
  }

  /**
   One iteration after another of the loop in `board::erase`. `i` rows remain
   to be scanned (the next is row i-1), `res` full rows were seen so far, and
   `k` is the row of `tmp` that the next kept row is copied into. `tmp` starts
   as a copy of the board and is never cleared.
   */
  function EraseLoop(g: Grid, i: nat, k: int, res: nat, tmp: Grid): (out: (nat, Grid))
    requires i <= Rows && k == i + res - 1
    requires res == CountFull(g[i..]) == Rows - i - |Kept(g[i..])|
    requires tmp[i + res..] == Kept(g[i..])
    requires tmp[..i + res] == g[..i + res]
    decreases i
    ensures out.0 == CountFull(g) == Rows - |Kept(g)|
    ensures out.1[out.0..] == Kept(g)
    ensures out.1[..out.0] == g[..out.0]
  {
    if i == 0 then
      assert g[0..] == g;
      (res, tmp)
    else
      ScanStep(g, i);
      if Full(g[i - 1]) then
        EraseLoop(g, i - 1, k, res + 1, tmp)
      else
        var tmp' := tmp[k := g[i - 1]];
        assert tmp'[k..] == [g[i - 1]] + tmp[k + 1..];
        assert tmp'[..k] == tmp[..k] == g[..k];
        EraseLoop(g, i - 1, k - 1, res, tmp')
  }

  /**
   `board::erase`: returns the number of full rows and the new grid. The full
   rows are judged on the grid as it was before the call; the kept rows are
   packed, in order, at the bottom; the top `count` rows keep their old
   contents, because the source's auxiliary copy is never cleared.
   */
  function Erase(g: Grid): (out: (nat, Grid))
    ensures out.0 == CountFull(g) == Rows - |Kept(g)|
    ensures out.1[out.0..] == Kept(g)
    ensures out.1[..out.0] == g[..out.0]
    ensures forall r :: out.0 <= r < Rows ==> !Full(out.1[r])
  {
    assert g[Rows..] == [];
    var out := EraseLoop(g, Rows, Rows - 1, 0, g);
    assert forall r :: out.0 <= r < Rows ==> out.1[r] == out.1[out.0..][r - out.0];
    out
  }

  lemma {:induction false} CountFullZero(rows: seq<Row>)
    ensures CountFull(rows) == 0 <==> forall r :: 0 <= r < |rows| ==> !Full(rows[r])
  {
    if |rows| > 0 {
      CountFullZero(rows[1..]);
      assert forall r :: 1 <= r < |rows| ==> rows[r] == rows[1..][r - 1];
    }
  }

  lemma {:induction false} KeptAllWhenNoneFull(rows: seq<Row>)
    requires CountFull(rows) == 0
    ensures Kept(rows) == rows
  {
    if |rows| > 0 {
      KeptAllWhenNoneFull(rows[1..]);
    }
  }

  /** Without a full row, `erase` returns 0 and leaves the grid unchanged. */
  lemma EraseWithoutFullRowIsIdentity(g: Grid)
    requires forall r :: 0 <= r < Rows ==> !Full(g[r])
    ensures Erase(g) == (0, g)
  {
    CountFullZero(g);
    KeptAllWhenNoneFull(g);
    assert Erase(g).1 == Erase(g).1[0..];
  }

  lemma {:induction false} CountFullAppend(a: seq<Row>, b: seq<Row>)
    ensures CountFull(a + b) == CountFull(a) + CountFull(b)
  {
    if |a| > 0 {
      assert (a + b)[1..] == a[1..] + b;
      CountFullAppend(a[1..], b);
    } else {
      assert a + b == b;
    }
  }

  lemma {:induction false} KeptAppend(a: seq<Row>, b: seq<Row>)
    ensures Kept(a + b) == Kept(a) + Kept(b)
  {
    if |a| > 0 {
      assert (a + b)[1..] == a[1..] + b;
      KeptAppend(a[1..], b);
    } else {
      assert a + b == b;
    }
  }

  /**
   Every row that is not cleared moves down by exactly the number of full
   rows below it, which preserves the relative order of the kept rows.
   */
  lemma EraseShiftsRow(g: Grid, r: int)
    requires 0 <= r < Rows && !Full(g[r])
    ensures r + CountFull(g[r + 1..]) < Rows
    ensures Erase(g).1[r + CountFull(g[r + 1..])] == g[r]
  {
    assert g == g[..r] + g[r..];
    assert g[r..] == [g[r]] + g[r + 1..];
    CountFullAppend(g[..r], g[r..]);
    KeptAppend(g[..r], g[r..]);
    KeptAppend([g[r]], g[r + 1..]);
    assert Kept([g[r]]) == [g[r]];
    assert CountFull([g[r]]) == 0;
    CountFullAppend([g[r]], g[r + 1..]);
    var out := Erase(g);
    var pos := |Kept(g[..r])|;
    assert Kept(g)[pos] == g[r];
    assert out.1[out.0 + pos] == out.1[out.0..][pos];
  }

  /** The usual Tetris line clear: the kept rows packed at the bottom and the
      vacated top rows empty. */
  function ClearedWithEmptyTop(g: Grid): (out: seq<Row>)
    ensures |out| == Rows
  {
    seq(CountFull(g), _ => EmptyRow) + Kept(g)
  }

  /** `erase` agrees with the usual line clear exactly when the top rows it
      leaves untouched were already empty. */
  lemma EraseMatchesEmptyTopClearIffTopRowsEmpty(g: Grid)
    ensures Erase(g).1 == ClearedWithEmptyTop(g) <==> forall r :: 0 <= r < CountFull(g) ==> g[r] == EmptyRow
  {
    var out := Erase(g);
    var n := CountFull(g);
    var d := ClearedWithEmptyTop(g);
    assert out.1 == out.1[..n] + out.1[n..];
    assert d[..n] == seq(n, _ => EmptyRow) && d[n..] == Kept(g);
    if forall r :: 0 <= r < n ==> g[r] == EmptyRow {
      assert out.1[..n] == g[..n] == d[..n];
      assert out.1 == d;
    }
    if out.1 == d {
      forall r | 0 <= r < n
        ensures g[r] == EmptyRow
      {
        assert g[r] == g[..n][r] == out.1[..n][r] == d[..n][r];
      }
    }
  }
}
