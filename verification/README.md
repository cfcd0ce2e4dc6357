# Tetris rules engine in Dafny

A model of the rules engine of the terminal Tetris game in `src/tetris.cpp`.
The terminal rendering is not part of it. The model has three parts:

- **the board** (`board`): a 21 × 10 grid with its bounds test, cell reads
  and writes, and the one-pass line clear `erase`;
- **the falling piece** (`mino`): the seven 4 × 4 masks, translation with
  collision testing, and rotation inside the piece's frame followed by
  wall-kick resolution over the Super Rotation System (SRS) kick tables of
  the Tetris Guideline;
- **the round** (`game`): the 7-bag randomizer with its lookahead bag,
  locking (`M_set_mino`), the spawn test that ends a round, and the
  key-by-key command dispatch of `M_put_mino`. Each command is one pure step.

Files, one module each:

| file | module | contents |
|---|---|---|
| wrappers.dfy | Wrappers | `Option` |
| kinds.dfy | Kinds | the seven kinds, the bag template, shuffles |
| board.dfy | Board | grid, `OutOfRange`, `Occupied`, `Set`, `Erase` |
| shapes.dfy | Shapes | masks, rotation frames, the quarter-turn transform |
| kicks.dfy | Kicks | the SRS kick tables |
| mino.dfy | Mino | the piece: `Move`, `Rotate` with kicks, `Occupies` |
| randomizer.dfy | Randomizer | the two bags, draw, refill, hold push-back, preview |
| controller.dfy | Controller | lock, hard drop, spawn, per-command `Step` |

Modelling choices:

- Coordinates are unbounded integers. A cell outside the visible grid is
  "out of range", and nothing is ever occupied there. The source keeps the
  anchor in `size_t` behind a zeroed 3-cell margin; for the small values that
  arise, that behaves the same way.
- A cell is `Empty` or `Filled(kind)`, and masks are 4 × 4 booleans.
- Each random shuffle is a parameter. A shuffle is any permutation of the
  seven kinds.
- The 4 × 4 scans of the source are recursive functions in the same
  row-major order: the fit test of `move` and of each kick, the resting test
  and writing loop of `M_set_mino`, and the spawn test. Their contracts state
  their quantified meaning.
- Line clearing is modelled as the code does it. `erase` packs the kept rows
  into a copy of the board that is never cleared, so the top `count` rows keep
  their old contents instead of becoming empty, as they do in the usual Tetris
  line clear.
  `Board.EraseMatchesEmptyTopClearIffTopRowsEmpty` states exactly when the two agree.
  The rest of the model uses the code's behaviour.

## Model

| member | source | states |
|---|---|---|
| Board.EmptyGrid | src/tetris.cpp:27 | a fresh board has no occupied cell |
| Board.OutOfRangeIsUnsignedTest | src/tetris.cpp:37-39 | for every index a 64-bit word holds, the two-sided range test agrees with the source's unsigned test `i < S_rows && j < S_columns`, where a negative index wraps to a huge one |
| Board.Set | src/tetris.cpp:45-47 | the written cell holds the kind; every other visible cell is unchanged |
| Board.OccupiedAfterSet | src/tetris.cpp:41-47 | after `set` writes a cell, that cell is occupied and every other cell, on the grid or off it, is occupied exactly when it was before |
| Board.Kept | src/tetris.cpp:54-67 | the rows kept are the non-full ones; their number plus the full-row count is the row count |
| Board.EraseLoop | src/tetris.cpp:54-67 | the bottom-up scan with its write index counts the full rows, packs the kept rows in order below them and leaves the rows above untouched |
| Board.Erase | src/tetris.cpp:49-70 | returns the number of full rows of the original board; rows `count..20` are the non-full rows in their original order; rows `0..count-1` keep their old contents; no row from `count` down is full |
| Board.CountFullZero | src/tetris.cpp:54-63 | no full row is counted exactly when no row is full |
| Board.EraseWithoutFullRowIsIdentity | src/tetris.cpp:49-70 | with no full row, `erase` returns 0 and leaves the board unchanged |
| Board.EraseShiftsRow | src/tetris.cpp:62-66 | a kept row moves down by exactly the number of full rows below it |
| Board.EraseMatchesEmptyTopClearIffTopRowsEmpty | src/tetris.cpp:51-52 | `erase` equals a clear that empties the vacated top rows iff those top rows were already empty |
| Shapes.Shape | src/tetris.cpp:96-132 | each kind's spawn mask sets exactly the four frame cells the source writes for it (I across row 1; J, L, S, T, Z, O in rows 0-1) |
| Shapes.ShapeWellFormed | src/tetris.cpp:96-132 | each spawn mask lies in its rotation frame (4 for I, 3 otherwise) and has four cells |
| Shapes.RotateMask | src/tetris.cpp:221-237 | the turned mask, built in a zeroed mask, has nothing outside the frame |
| Shapes.RotateMaskMovesCells | src/tetris.cpp:229-236 | clockwise moves frame cell (i, j) to (j, f-1-i); counter-clockwise moves it to (f-1-j, i) |
| Shapes.RotateImage | src/tetris.cpp:229-236 | the turned mask's cells are the image of the old cells under the quarter turn |
| Shapes.RotateImageSize | src/tetris.cpp:229-236 | the quarter turn is one-to-one on cells |
| Shapes.RotateKeepsCellCount | src/tetris.cpp:229-236 | turning a mask confined to its frame keeps its number of cells |
| Shapes.RotateRoundTrip | src/tetris.cpp:229-236 | a clockwise turn followed by a counter-clockwise one, or the other way round, restores the mask |
| Kicks.KickTable | src/tetris.cpp:142-191 | every table has five offsets and starts with (0, 0) |
| Kicks.KickTableSymmetry | src/tetris.cpp:142-191 | the counter-clockwise table at state s+1 mod 4 is the negated clockwise table at state s, for I and for the other kinds |
| Kicks.LongPieceHasOwnTable | src/tetris.cpp:143-191 | in every state and direction, I's table differs from the table of every other kind |
| Mino.NewPiece | src/tetris.cpp:79-81 | a new piece has the given kind, state 0, and a well-formed mask lying wholly on the board |
| Mino.AllCellsFrom | src/tetris.cpp:206-211 | the row-major scan from a frame cell accepts iff every set mask cell from there on passes the test at its board cell |
| Mino.FitsMeans | src/tetris.cpp:206-211 | the fit test accepts iff every board cell under the mask is in range and free |
| Mino.Move | src/tetris.cpp:201-216 | succeeds iff every shifted cell is in range and unoccupied; on success only the anchor moves, by exactly (di, dj); on failure nothing changes |
| Mino.MoveKeepsLegal | src/tetris.cpp:201-216 | a move, successful or not, keeps every cell of a legal piece in range and free |
| Mino.MoveUndo | src/tetris.cpp:201-216 | a successful move of a legal piece can be taken back by the opposite move |
| Mino.NextState | src/tetris.cpp:240-241 | the state goes one up (3 wraps to 0) clockwise and one down (0 wraps to 3) counter-clockwise |
| Mino.NextStateRoundTrip | src/tetris.cpp:240-241 | turning one way and then the other returns to the same state |
| Mino.FirstFit | src/tetris.cpp:243-265 | returns the first offset index at which the turned mask fits, or none when none fits |
| Mino.Kick | src/tetris.cpp:243-268 | fails and leaves the piece unchanged iff no offset fits; otherwise commits the turned mask and the new state at the first fitting offset, moving `x` columns right and `y` rows up |
| Mino.KickPrefersNoShift | src/tetris.cpp:243-265 | when the turned mask fits in place, the anchor is not moved |
| Mino.Rotate | src/tetris.cpp:218-269 | O returns true and changes nothing; another kind succeeds iff some offset of its table fits, and then has the turned mask and the next state; a failed turn changes nothing |
| Mino.RotateInPlace | src/tetris.cpp:243-264 | a kind other than O whose turned mask fits where it stands turns in place: the anchor stays, and it takes the turned mask and the next state |
| Mino.KickKeepsLegal | src/tetris.cpp:243-268 | kick resolution keeps a legal piece legal |
| Mino.RotateKeepsLegal | src/tetris.cpp:218-269 | a rotation, successful or not, keeps a legal piece legal |
| Mino.RotateKeepsShape | src/tetris.cpp:218-269 | a rotation keeps the kind, the frame confinement and the four cells |
| Mino.RotateKeepsInvariant | src/tetris.cpp:218-269 | a rotation keeps the kind, legality and the shape invariant together |
| Mino.Occupies | src/tetris.cpp:271-274 | a board cell is occupied by the piece iff it is anchor + (i, j) for a set mask cell (i, j) |
| Kinds.ShuffleHoldsEachKindOnce | src/tetris.cpp:285-287 | a shuffle of "ILJOSZT" has seven kinds, each exactly once |
| Randomizer.Upcoming | src/tetris.cpp:292-293 | the spawn order has one entry per bagged kind: the current bag read from its back, then the lookahead bag read from its back |
| Randomizer.ReverseKeepsMultiset | src/tetris.cpp:292-293 | reading a bag from its back draws the same kinds |
| Randomizer.Init | src/tetris.cpp:352-356 | after the start both the first seven and the next seven upcoming kinds are the seven kinds once each |
| Randomizer.Reset | src/tetris.cpp:358-362 | after a refill the lookahead bag comes first, followed by the new shuffle |
| Randomizer.Draw | src/tetris.cpp:411-412 | the drawn kind is the head of the upcoming order; the rest of the order is kept and is extended by the new shuffle exactly when a refill happened |
| Randomizer.PushBack | src/tetris.cpp:459 | the pushed kind becomes the very next draw, ahead of the old order |
| Randomizer.DrawsFollowUpcoming | src/tetris.cpp:291-293 | without holds, consecutive spawns follow the upcoming order, whatever the later shuffles are |
| Randomizer.PreviewShowsNextDraws | src/tetris.cpp:291-297 | the three kinds the preview lists are the next three spawns |
| Randomizer.NextSevenDrawsAreABag | src/tetris.cpp:358-362 | once the current bag is empty, the next seven spawns are each kind exactly once |
| Controller.LegalRowBound | src/tetris.cpp:37-39 | a legal piece's anchor is above the bottom edge |
| Controller.Drop | src/tetris.cpp:443 | the hard-drop loop changes only the row, moves only downwards, stays legal, fits at every row it passes through and ends where a move down is refused |
| Controller.DropStopsAtFirstRefusal | src/tetris.cpp:443 | every move down from a row above the landing row is accepted, so the drop stops at the first row where a move down is refused |
| Controller.Rests | src/tetris.cpp:379-393 | the resting test holds iff some piece cell has its lower neighbour out of range or occupied |
| Controller.RestsThenCannotFall | src/tetris.cpp:379-393 | a resting piece cannot move down |
| Controller.CannotFallThenRests | src/tetris.cpp:379-393 | a piece that cannot move down is resting |
| Controller.RestsIffCannotFall | src/tetris.cpp:379-393 | the resting test holds exactly when a move down is refused |
| Controller.PlaceFrom | src/tetris.cpp:395-404 | the writing loop sets exactly the piece's cells from the given frame cell on to its kind and leaves every other cell |
| Controller.Place | src/tetris.cpp:395-404 | exactly the piece's cells now hold its kind; every other cell is unchanged |
| Controller.Lock | src/tetris.cpp:378-408 | writes nothing and reports false unless the piece rests; otherwise writes the piece and clears lines, and the row count is dropped |
| Controller.HardDropAlwaysLocks | src/tetris.cpp:442-447 | after the drop loop the resting test holds, so a hard drop always locks |
| Controller.CommandOf | src/tetris.cpp:428-464 | exactly the keys j, k, h, l, J, f, d and z have an effect |
| Controller.CommandKeyRoundTrip | src/tetris.cpp:428-464 | the key table is a bijection between the eight commands and their keys |
| Controller.NewRound | src/tetris.cpp:502-504 | a round starts with fresh bags, an empty board and an empty hold slot |
| Controller.Blocked | src/tetris.cpp:418-423 | the spawn test fails iff some cell of the new piece is occupied |
| Controller.Spawn | src/tetris.cpp:410-423 | draws the head of the upcoming order; the round is over iff the new piece covers an occupied cell; otherwise that piece is active and legal |
| Controller.Shift | src/tetris.cpp:429-440 | a move key moves the active piece by its offset or leaves it; nothing else changes |
| Controller.Turn | src/tetris.cpp:450-455 | a turn key keeps the board, bags, hold slot and kind, and keeps the piece legal |
| Controller.HardDropStep | src/tetris.cpp:442-448 | a hard drop always locks the dropped piece and ends the piece's turn; bags and hold are unchanged |
| Controller.HoldStep | src/tetris.cpp:457-463 | hold stores the active kind, puts a held kind back as the next draw and ends the piece's turn |
| Controller.Step | src/tetris.cpp:425-470 | every command keeps the round invariant; an ignored key changes nothing; the piece's turn ends exactly on a hard drop or a hold |
| Controller.StepFollowsKeyTable | src/tetris.cpp:428-456 | j, k, h and l try the moves (+1, 0), (-1, 0), (0, -1) and (0, +1); f and d try clockwise and counter-clockwise turns; J locks the dropped piece |
| Controller.HeldKindSpawnsNext | src/tetris.cpp:457-463 | holding with a kind in the slot makes that kind the next spawn |
| Controller.HoldIntoEmptySlotDrawsFromBag | src/tetris.cpp:457-463 | holding into an empty slot makes the next spawn come from the bag |

## Left out

- Terminal I/O is not modelled because it is presentation only. This covers ncurses set-up and tear-down, `clear`/`refresh`, `M_inspect`, the printing in `M_show_next` and `M_show_hold`, the colours of `S_color`, and `mino::inspect`. The preview's contents are modelled as `Randomizer.Preview`.
- The ghost piece of `M_inspect` is not modelled. It only repeats `move(+1, 0)`, which `Controller.Drop` covers.
- Keyboard input is not modelled: `S_get_op` with its whitespace skipping and EOF handling, and the replay/quit prompt of `play`. Commands are passed in as a decoded datatype.
- The random generator is not modelled: `std::mt19937`, `std::random_device` and `std::shuffle`. Each shuffle is a parameter that must be a permutation of the seven kinds.
- `size_t` wrap-around of the anchor, and the 3-cell zero margin, are not modelled. Both are storage details; within the model's reach, integers with an explicit range test behave the same.
- The default-constructed, uninitialised `mino` is not modelled. Every piece the game uses is built from a kind.
- The `invalid_argument` throw for an unknown kind is not modelled, because `Kind` has exactly the seven kinds.
- The `assert(false)` after the state switches of `M_offset_array` is not modelled. Every kind reaches a `return` for each state 0..3, and `RotState` admits only those four states.
- The mask cells store the piece's type character in the source. They are booleans here, because the source only ever asks whether a mask cell is non-zero.
- src/mino.cpp is not part of this model. It is an earlier, unfinished prototype of the same classes.
- Board.Occupied: has no contract of its own, because its body is already its meaning. Off the grid it answers "no". The source would read past its 3-cell margin there, but it is never asked there. `move`, `rotate` and the resting test check `out_of_range` first; `erase` and the spawn test only ask about cells on the grid. `Board.OccupiedAfterSet` states how it reads back a write.
- Randomizer.Preview: has no contract of its own. `Randomizer.PreviewShowsNextDraws` states what it shows.
- Controller.Step: takes decoded commands rather than raw keys. `Controller.CommandOf` decodes them.
- Controller.Step: is defined only on an active piece. The spawn between pieces is the separate `Controller.Spawn`, as `play` and `M_put_mino` split it.
- The loop structure of `M_put_mino` and `play` (repeat until game over, then replay) is not modelled beyond one spawn and one command at a time.
