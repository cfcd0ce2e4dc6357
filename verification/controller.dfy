/**
 The round logic of class `game` (src/tetris.cpp:283-517) without its
 terminal I/O: locking a piece, spawning from the bag with the game-over
 test, and the per-key command dispatch of `M_put_mino`, here one pure step
 per key.
 */
module Controller {
  import opened Wrappers
  import opened Kinds
  import opened Board
  import opened Shapes
  import opened Mino
  import opened Randomizer

  /** A legal piece with a cell cannot be below the bottom row. */
  lemma LegalRowBound(g: Grid, p: Piece)
    requires Legal(g, p) && WellFormed(p)
    ensures p.row < Rows
  {
    assert Cells(p.mask) != {};
    var c :| c in Cells(p.mask);
    assert Covers(p.mask, p.row, p.col, p.row + c.0, p.col + c.1);
  }

  /**
   `while (m.move(+1, 0, b)) {}` (src/tetris.cpp:443, and the ghost at 328):
   the piece moves down until a move down fails. Only the row changes, the
   piece stays legal, and it stops at the first row, counting down from
   where it started, at which a move down is refused.
   */
  function Drop(g: Grid, p: Piece): (q: Piece)
    requires Legal(g, p) && WellFormed(p)
    decreases Rows - p.row
    ensures Legal(g, q) && WellFormed(q)
    ensures q == p.(row := q.row) && q.row >= p.row
    ensures !Move(g, q, 1, 0).0
    ensures forall r :: p.row < r <= q.row ==> Fits(g, p.mask, r, p.col)
  {
    LegalRowBound(g, p);
    MoveKeepsLegal(g, p, 1, 0);
    var (moved, p') := Move(g, p, 1, 0);
    if moved then Drop(g, p') else p
  }

  /** Every move down the drop loop made was accepted: from each row between
      the start and the landing row the piece could fall one further, so the
      drop stops at the first row where a move down is refused. */
  lemma DropStopsAtFirstRefusal(g: Grid, p: Piece, r: int)
    requires Legal(g, p) && WellFormed(p)
    ensures p.row <= r < Drop(g, p).row ==> Move(g, p.(row := r), 1, 0).0
  {
  }

  /**
   The check of `M_set_mino` (src/tetris.cpp:379-393): some cell of the piece
   has the cell below it out of range or occupied.
   */
  function Rests(g: Grid, p: Piece): (rests: bool)
    ensures rests <==> exists r, c {:trigger Covers(p.mask, p.row, p.col, r, c)} ::
      Covers(p.mask, p.row, p.col, r, c) && !Free(g, r + 1, c)
  {
    !AllCellsFrom(p.mask, p.row, p.col, (r, c) => Free(g, r + 1, c), 0, 0)
  }

  /** A piece with a blocked cell under it cannot move down. */
  lemma RestsThenCannotFall(g: Grid, p: Piece)
    requires Rests(g, p)
    ensures !Move(g, p, 1, 0).0
  {
    var r, c :| Covers(p.mask, p.row, p.col, r, c) && !Free(g, r + 1, c);
    BlockedCellRefusesMove(g, p, 1, 0, r + 1, c);
  }

  /** A piece that cannot move down has a blocked cell under one of its cells. */
  lemma CannotFallThenRests(g: Grid, p: Piece)
    requires !Move(g, p, 1, 0).0
    ensures Rests(g, p)
  {
    var r, c :| Covers(p.mask, p.row + 1, p.col, r, c) && !Free(g, r, c);
    assert Covers(p.mask, p.row, p.col, r - 1, c);
  }

  /** The resting test of `M_set_mino` holds exactly when `move(+1, 0)`
      would be refused. */
  lemma RestsIffCannotFall(g: Grid, p: Piece)
    ensures Rests(g, p) <==> !Move(g, p, 1, 0).0
  {
    if Rests(g, p) {
      RestsThenCannotFall(g, p);
    }
    if !Move(g, p, 1, 0).0 {
      CannotFallThenRests(g, p);
    }
  }

  /**
   The writing loop of `M_set_mino` (src/tetris.cpp:395-404), from frame cell
   (i, j) on: each set mask cell is written with the piece's kind.
   */
  function PlaceFrom(g: Grid, p: Piece, i: int, j: int): (out: Grid)
    requires 0 <= i <= 4 && 0 <= j <= 4
    requires OnBoard(p)
    decreases 4 - i, 4 - j
    ensures forall r, c {:trigger At(out, r, c)} :: !OutOfRange(r, c) ==>
      At(out, r, c) == if Covers(p.mask, p.row, p.col, r, c) && AtOrAfter(r - p.row, c - p.col, i, j)
                       then Filled(p.kind) else At(g, r, c)
  {
    if i == 4 then g
    else if j == 4 then PlaceFrom(g, p, i + 1, 0)
    else
      assert Covers(p.mask, p.row, p.col, p.row + i, p.col + j) == p.mask[i][j];
      var g' := if p.mask[i][j] then Set(g, p.row + i, p.col + j, p.kind) else g;
      PlaceFrom(g', p, i, j + 1)
  }

  /** Writes the piece into the grid: exactly its cells now hold its kind. */
  function Place(g: Grid, p: Piece): (out: Grid)
    requires Legal(g, p)
    ensures forall r, c {:trigger At(out, r, c)} :: !OutOfRange(r, c) ==>
      At(out, r, c) == if Covers(p.mask, p.row, p.col, r, c) then Filled(p.kind) else At(g, r, c)
  {
    PlaceFrom(g, p, 0, 0)
  }

  /**
   `M_set_mino` (src/tetris.cpp:378-408): a piece that does not rest on
   anything is not written and false is returned. Otherwise its cells are
   written and full rows are erased; the erased-row count is dropped.
   */
  function Lock(g: Grid, p: Piece): (res: (bool, Grid))
    requires Legal(g, p)
    ensures res.0 <==> exists r, c {:trigger Covers(p.mask, p.row, p.col, r, c)} ::
      Covers(p.mask, p.row, p.col, r, c) && !Free(g, r + 1, c)
    ensures !res.0 ==> res.1 == g
    ensures res.0 ==> res.1 == Erase(Place(g, p)).1
  {
    if Rests(g, p) then (true, Erase(Place(g, p)).1) else (false, g)
  }

  /** After the hard-drop loop the resting test always holds, so a hard drop always locks. */
  lemma HardDropAlwaysLocks(g: Grid, p: Piece)
    requires Legal(g, p) && WellFormed(p)
    ensures Lock(g, Drop(g, p)).0
  {
    RestsIffCannotFall(g, Drop(g, p));
  }

  /** The keys `M_put_mino` reacts to (src/tetris.cpp:428-464). */
  datatype Command = SoftDrop | MoveUp | MoveLeft | MoveRight | HardDrop | RotateCw | RotateCcw | Hold | Ignored

  /** The key table: j k h l move down, up, left, right; J hard-drops; f and d
      turn clockwise and counter-clockwise; z holds; every other key is ignored. */
  function CommandOf(key: char): (cmd: Command)
    ensures cmd == Ignored <==> key !in "jkhlJfdz"
  {
    match key
    case 'j' => SoftDrop
    case 'k' => MoveUp
    case 'h' => MoveLeft
    case 'l' => MoveRight
    case 'J' => HardDrop
    case 'f' => RotateCw
    case 'd' => RotateCcw
    case 'z' => Hold
    case _ => Ignored
  }

  /** The key bound to each command. */
  function KeyOf(cmd: Command): char
    requires cmd != Ignored
  {
    match cmd
    case SoftDrop => 'j'
    case MoveUp => 'k'
    case MoveLeft => 'h'
    case MoveRight => 'l'
    case HardDrop => 'J'
    case RotateCw => 'f'
    case RotateCcw => 'd'
    case Hold => 'z'
  }

  /** Each command has exactly one key: the table is a bijection onto the eight keys. */
  lemma CommandKeyRoundTrip(cmd: Command, key: char)
    ensures cmd != Ignored ==> CommandOf(KeyOf(cmd)) == cmd
    ensures CommandOf(key) != Ignored ==> KeyOf(CommandOf(key)) == key
  {
  }

  /** Where a round stands: between pieces, playing a piece, or over. */
  datatype Phase = Spawning | Active(piece: Piece) | GameOver

  /** The round state: the board `b`, the bags, the hold slot `M_hold`
      (0 in the source when empty) and the phase. */
  datatype Game = Game(board: Grid, bag: Bag, hold: Option<Kind>, phase: Phase)

  /** What every reachable round satisfies: the lookahead bag is a shuffle,
      and an active piece is well-formed and legal. */
  ghost predicate Inv(g: Game) {
    && IsShuffle(g.bag.next)
    && (g.phase.Active? ==> WellFormed(g.phase.piece) && Legal(g.board, g.phase.piece))
  }

  /** The start of a round in `play` (src/tetris.cpp:502-504): fresh bags, an
      empty board, an empty hold slot. */
  function NewRound(first: seq<Kind>, second: seq<Kind>): (g: Game)
    requires IsShuffle(first) && IsShuffle(second)
    ensures Inv(g) && g.phase == Spawning && g.hold == None
    ensures forall r, c :: !Occupied(g.board, r, c)
    ensures Upcoming(g.bag) == Reverse(first) + Reverse(second)
  {
    Game(EmptyGrid(), Init(first, second), None, Spawning)
  }

  /** The game-over scan of `M_put_mino` (src/tetris.cpp:418-423): some
      cell of the piece is already occupied. */
  function Blocked(g: Grid, p: Piece): (hit: bool)
    ensures hit <==> exists r, c {:trigger Covers(p.mask, p.row, p.col, r, c)} ::
      Covers(p.mask, p.row, p.col, r, c) && Occupied(g, r, c)
  {
    !AllCellsFrom(p.mask, p.row, p.col, (r, c) => !Occupied(g, r, c), 0, 0)
  }

  /**
   The spawn of `M_put_mino` (src/tetris.cpp:410-423), with the refill of
   `play` before it (src/tetris.cpp:506): the next kind is drawn and a new
   piece of it placed; if that piece covers an occupied cell the round is
   over. The board and hold slot are untouched.
   */
  function Spawn(g: Game, shuffle: seq<Kind>): (g': Game)
    requires Inv(g) && g.phase == Spawning && IsShuffle(shuffle)
    ensures Inv(g')
    ensures g'.board == g.board && g'.hold == g.hold && !g'.phase.Spawning?
    ensures g'.phase.GameOver? <==> Blocked(g.board, NewPiece(Upcoming(g.bag)[0]))
    ensures g'.phase.Active? ==> g'.phase.piece == NewPiece(Upcoming(g.bag)[0])
    ensures Upcoming(g'.bag) == Upcoming(g.bag)[1..] + (if |g.bag.current| == 0 then Reverse(shuffle) else [])
  {
    ShuffleHoldsEachKindOnce(g.bag.next, I);
    var (k, bag) := Draw(g.bag, shuffle);
    var p := NewPiece(k);
    g.(bag := bag, phase := if Blocked(g.board, p) then GameOver else Active(p))
  }

  /** g' differs from g at most in its active piece, which keeps its kind. */
  predicate SteeredFrom(g: Game, g': Game) {
    && g'.board == g.board && g'.bag == g.bag && g'.hold == g.hold
    && g.phase.Active? && g'.phase.Active? && g'.phase.piece.kind == g.phase.piece.kind
  }

  /**
   The `j`, `k`, `h` and `l` cases of `M_put_mino` (src/tetris.cpp:429-440):
   the active piece moves by (di, dj) or, if refused, stays where it was;
   nothing else changes and the piece stays legal.
   */
  function Shift(g: Game, di: int, dj: int): (g': Game)
    requires Inv(g) && g.phase.Active?
    ensures Inv(g') && SteeredFrom(g, g')
    ensures g'.phase.piece == g.phase.piece.(row := g.phase.piece.row + di, col := g.phase.piece.col + dj)
         || g'.phase.piece == g.phase.piece
  {
    MoveKeepsLegal(g.board, g.phase.piece, di, dj);
    g.(phase := Active(Move(g.board, g.phase.piece, di, dj).1))
  }

  /**
   The `f` and `d` cases of `M_put_mino` (src/tetris.cpp:450-455): the active
   piece turns, or stays as it was if no kick fits; nothing else changes, the
   kind is kept and the piece stays legal.
   */
  function Turn(g: Game, cw: bool): (g': Game)
    requires Inv(g) && g.phase.Active?
    ensures Inv(g') && SteeredFrom(g, g')
  {
    RotateKeepsInvariant(g.board, g.phase.piece, cw);
    g.(phase := Active(Rotate(g.board, g.phase.piece, cw).1))
  }

  /**
   The `J` case of `M_put_mino` (src/tetris.cpp:442-448): drop the piece as
   far as it goes and lock it, which always succeeds; the next piece is due.
   */
  function HardDropStep(g: Game): (g': Game)
    requires Inv(g) && g.phase.Active?
    ensures Inv(g') && g'.phase == Spawning && g'.bag == g.bag && g'.hold == g.hold
    ensures Lock(g.board, Drop(g.board, g.phase.piece)).0
    ensures Lock(g.board, Drop(g.board, g.phase.piece)).1 == g'.board
  {
    HardDropAlwaysLocks(g.board, g.phase.piece);
    g.(board := Lock(g.board, Drop(g.board, g.phase.piece)).1, phase := Spawning)
  }

  /**
   The `z` case of `M_put_mino` (src/tetris.cpp:457-463): a held kind goes
   back onto the bag as the very next draw, the active kind takes the slot,
   and the active piece is abandoned.
   */
  function HoldStep(g: Game): (g': Game)
    requires Inv(g) && g.phase.Active?
    ensures Inv(g') && g'.phase == Spawning && g'.board == g.board && g'.hold == Some(g.phase.piece.kind)
    ensures Upcoming(g'.bag) == (if g.hold.Some? then [g.hold.value] else []) + Upcoming(g.bag)
  {
    g.(bag := if g.hold.Some? then PushBack(g.bag, g.hold.value) else g.bag,
       hold := Some(g.phase.piece.kind), phase := Spawning)
  }

  /**
   One command of the loop of `M_put_mino` (src/tetris.cpp:425-470) on an
   active piece: the round invariant survives every command, an ignored key
   changes nothing, and the piece's turn ends exactly on a hard drop or a hold.
   */
  function Step(g: Game, cmd: Command): (g': Game)
    requires Inv(g) && g.phase.Active?
    ensures Inv(g')
    ensures cmd == Ignored ==> g' == g
    ensures g'.phase == Spawning <==> cmd == HardDrop || cmd == Hold
    ensures g'.phase.Active? <==> !(cmd == HardDrop || cmd == Hold)
  {
    match cmd
    case SoftDrop => Shift(g, 1, 0)
    case MoveUp => Shift(g, -1, 0)
    case MoveLeft => Shift(g, 0, -1)
    case MoveRight => Shift(g, 0, 1)
    case HardDrop => HardDropStep(g)
    case RotateCw => Turn(g, true)
    case RotateCcw => Turn(g, false)
    case Hold => HoldStep(g)
    case Ignored => g
  }

  /**
   The key table of `M_put_mino` (src/tetris.cpp:428-464) as the step applies
   it: j, k, h and l try to move the piece down, up, left and right; f and d
   try to turn it clockwise and counter-clockwise; J drops and locks it.
   */
  lemma StepFollowsKeyTable(g: Game, cmd: Command)
    requires Inv(g) && g.phase.Active?
    ensures cmd == SoftDrop ==> Step(g, cmd).phase.piece == Move(g.board, g.phase.piece, 1, 0).1
    ensures cmd == MoveUp ==> Step(g, cmd).phase.piece == Move(g.board, g.phase.piece, -1, 0).1
    ensures cmd == MoveLeft ==> Step(g, cmd).phase.piece == Move(g.board, g.phase.piece, 0, -1).1
    ensures cmd == MoveRight ==> Step(g, cmd).phase.piece == Move(g.board, g.phase.piece, 0, 1).1
    ensures cmd == RotateCw ==> Step(g, cmd).phase.piece == Rotate(g.board, g.phase.piece, true).1
    ensures cmd == RotateCcw ==> Step(g, cmd).phase.piece == Rotate(g.board, g.phase.piece, false).1
    ensures cmd == HardDrop ==> Step(g, cmd).board == Lock(g.board, Drop(g.board, g.phase.piece)).1
  {
  }

  /** Holding with a kind in the slot makes that kind the very next spawn. */
  lemma HeldKindSpawnsNext(g: Game, shuffle: seq<Kind>)
    requires Inv(g) && g.phase.Active? && g.hold.Some?
    requires IsShuffle(shuffle)
    ensures var g' := Spawn(Step(g, Hold), shuffle);
      g'.hold == Some(g.phase.piece.kind) && (g'.phase.Active? ==> g'.phase.piece.kind == g.hold.value)
  {
    assert Step(g, Hold) == HoldStep(g);
  }

  /** Holding with an empty slot spawns the kind the bag would have given next. */
  lemma HoldIntoEmptySlotDrawsFromBag(g: Game, shuffle: seq<Kind>)
    requires Inv(g) && g.phase.Active? && g.hold.None?
    requires IsShuffle(shuffle)
    ensures var g' := Spawn(Step(g, Hold), shuffle);
      g'.hold == Some(g.phase.piece.kind) && (g'.phase.Active? ==> g'.phase.piece.kind == Upcoming(g.bag)[0])
  {
    assert Step(g, Hold) == HoldStep(g);
  }
}
