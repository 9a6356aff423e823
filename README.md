# Move validation core of a crossword-tile board game

This project models class `Move` of a Scrabble-like game. A `Move` is the
ordered list of board cells (`fields_`) that a player proposes to fill in one
turn. The class decides whether that placement is legal and which words it
forms:

- `add` and `clear` build and reset the list.
- `getDir` classifies the list as one line (`kEast`, `kSouth`) or neither (`kWrong`).
- `contains` tests whether the list holds a cell.
- `consistent` is the contiguity test. It walks the board from an anchor cell
  along the move's axis, counts the visited cells that belong to the move,
  and compares the count with the move's size.
- `adjacent` is the neighbour-count threshold. It rejects placements that
  touch nothing on the board.
- `valid` is the legality pipeline for an ordinary move. `validAsFirst` is the
  one for the opening move, which must cover the board's start cell.
- `getWords` collects every East or South read longer than one letter.

Files:

- `board.dfy` (module `Boards`): cells, directions, tiles, and the board's
  read-only interface. The interface is the tile at a cell, the next cell in a
  direction (the null cell becomes `None`), the word read through a cell, and
  the start cell. The
  board is a value whose fields are functions. The predicate `Finite` says that
  every step lowers a per-direction `reach`, so that walks end. `Path` is the
  walk itself.
- `rules.dfy` (module `MoveRules`): the rules as functions of the cell list:
  `std::find_if`, `std::min_element`, the direction, the anchor, the walk
  count, the neighbour count with its `size_t` threshold, and the word set.
  It also holds the lemmas about them.
- `move.dfy` (module `MoveCore`): class `Move`, with field `fields: seq<Field>`.
  `Add` and `Clear` change it. `GetDir`, `Consistent`, `Adjacent` and
  `GetWords` are loops, each proved against a function of `MoveRules`.
  `Contains`, `Valid` and `ValidAsFirst` are functions over `fields`.
- `scenario.dfy` (module `Scenarios`): a concrete 15 x 15 board built from a map
  of placed letters, with four worked turns: the opening word CAT, the same
  with a gap, an S below the T, and an isolated tile.

Direction convention: in this code `kEast` means that every cell has the
first cell's **x** (src/move.h:21-23, 29), and `consistent` anchors on the
least **y** for `kEast` and the least **x** for `kSouth` (src/move.h:39-45).
The model keeps that convention. `add` (src/move.h:11-13) does not reject a
cell that the move already holds. So the model allows repeated cells, and it
proves that `consistent` rejects any move that repeats a cell.

Cells: the move stores pointers to board cells (src/move.h:12, 120). So it
never copies a tile, and it always sees the tile that the board currently
holds. The model therefore identifies a cell by its position (x, y) and looks
its tile up on the board (`Board.tile`). Every comparison of cells is a
comparison of positions.

## Model

| member | source | states |
|---|---|---|
| `MoveCore.Move.constructor` | src/move.h:120 | A new move holds no cells. |
| `MoveCore.Move.Add` | src/move.h:11-13 | The cell is appended at the end: one more entry, every earlier entry unchanged. |
| `MoveCore.Move.Clear` | src/move.h:94-96 | The move is empty afterwards. |
| `MoveCore.Move.GetDir` | src/move.h:15-30 | Needs a non-empty move. Returns `East` iff every cell has the first cell's x. Returns `South` iff some x differs and every y equals the first cell's. Returns `Wrong` iff both an x and a y differ. The result equals `LineDir`. |
| `MoveRules.LineDirMeaning` | src/move.h:21-29 | The direction does not depend on which cell is first. `East` iff all cells agree pairwise on x; `South` iff they agree on y but not on x; `Wrong` iff they agree on neither. Never North or West. |
| `MoveRules.LineDirSingle` | src/move.h:29 | A one-cell move is classified `East`. |
| `MoveRules.FindIndex` | src/move.h:33-34 | `find_if`: returns the first index holding the cell, or the size when no index does. No earlier index holds it. |
| `MoveCore.Move.Contains` | src/move.h:32-35 | True iff some entry of the move equals the cell. |
| `MoveRules.MinElement` | src/move.h:39-42 | `min_element` with a strict `<`: returns an index whose key is least among all cells. Every earlier index has a strictly larger key. |
| `MoveRules.Anchor` | src/move.h:39-45 | The walk starts at a cell of the move: one of least x for `South`, one of least y otherwise. |
| `Boards.PathReach` | src/move.h:46-49 | Every cell after the first on a walk has strictly less reach left than the first cell. |
| `Boards.PathNoDup` | src/move.h:46-49 | A walk that stops at the null cell never visits a cell twice. |
| `MoveRules.CountInFull` | src/move.h:43-51 | On a walk without repeats, the count of move cells equals the move's size iff the move repeats no cell and every move cell is on the walk. |
| `MoveRules.ConsistentMeaning` | src/move.h:37-52 | The contiguity test passes iff the move repeats no cell and the walk from the anchor reaches every one of its cells. |
| `MoveCore.Move.Consistent` | src/move.h:37-52 | Needs `East` or `South`, a non-empty move and a finite board. The walk loop returns exactly `IsConsistent`, which means: no repeated cell, and every cell reached from the anchor. |
| `MoveRules.NeighbourCountBound` | src/move.h:55-60 | The occupied-neighbour count is at most four per cell. |
| `MoveRules.AdjacentThreshold` | src/move.h:61 | Below 2^63 cells, the test passes iff the move is non-empty and has at least `2k - 1` occupied neighbours. An empty move fails because `2*0 - 2` wraps in `size_t`. |
| `MoveRules.AdjacentSingle` | src/move.h:54-62 | A one-cell move passes iff at least one of its four neighbours holds a tile. |
| `MoveCore.Move.Adjacent` | src/move.h:54-62 | The nested loops return exactly `IsAdjacent`: the count over all cells and all four directions exceeds `(2k - 2) mod 2^64`. A passing move is non-empty. A one-cell move passes iff a neighbour holds a tile. |
| `MoveCore.Move.Valid` | src/move.h:64-75 | False on an empty move. False when the direction is `Wrong`. Otherwise exactly consistent-and-adjacent. Equivalently: non-empty, on one line, no repeated cell, every cell reached by the walk, and the adjacency test passed. |
| `MoveCore.Move.ValidAsFirst` | src/move.h:77-92 | False on an empty move, on `Wrong`, or when the start cell is not in the move. Otherwise exactly the contiguity test. Equivalently: non-empty, on one line, covers the start cell, no repeated cell, every cell reached. Adjacency plays no part. |
| `MoveCore.SingleTileValid` | src/move.h:64-75 | A one-tile move is legal iff one of its four neighbours holds a tile. |
| `MoveCore.SingleTileValidAsFirst` | src/move.h:77-92 | A one-tile opening move is legal iff it is the start cell. |
| `MoveRules.WordsOfMembers` | src/move.h:102-117 | A word is in the set iff it is longer than one letter and is the East or South read of some move cell. So every word is longer than 1, every word is a read, and every long-enough read is in the set. |
| `MoveRules.WordsOfCellsOnly` | src/move.h:105-114 | The word set depends only on which cells the move holds. Order and repetition do not matter, and equal words collapse. |
| `MoveCore.Move.GetWords` | src/move.h:102-117 | The loop returns exactly `WordsOf`. That is the set of East or South reads of the move's cells that are longer than one letter. An empty move yields the empty set. |
| `Scenarios.OpeningCat` | src/move.h:77-92 | On an empty board, C A T along a row through the start cell is a legal first move. Its word set is {"CAT"}. |
| `Scenarios.OpeningWithGap` | src/move.h:37-52 | C and T with an empty cell between them are rejected as a first move, although they cover the start cell. |
| `Scenarios.OpeningOnEmptyStart` | src/move.h:87 | On an empty board, one tile on the start cell is a legal first move. The start-cell test matches by position, although the board shows no tile there. |
| `Scenarios.AppendS` | src/move.h:64-75 | With CAT on the board, one S below the T is legal. Its word set is {"TS"} and does not include "CAT". |
| `Scenarios.IsolatedTile` | src/move.h:54-62 | A lone tile with no occupied neighbour is illegal. |

Repeat calls: `GetWords` has no `modifies` clause, and its result is a
function of the cells and the board. So two calls on the same move and board
return the same set.

## Left out

- `Field::neighbour`, `Field::getWord`, `Field::null()`, `Board::initialField()`
  and a cell's `tile` member are declared in field.h, which is not part of this model. They are fields of
  the `Board` value, and the model assumes about them only what the move code
  relies on. The null cell is `None`, and the null cell is taken to hold no tile.
- `Boards.Finite`: the code's walk in `consistent` ends only on a finite board.
  The model states this as a ranking (`reach`) that each step lowers. It does
  not derive it from board geometry.
- `fields()` (src/move.h:98-100) is left out. It hands out a mutable reference
  to the vector, which is aliasing and carries no logic.
- Pointer identity: `validAsFirst` compares cell addresses (src/move.h:87),
  and `contains` compares cells with `Field::operator==` (src/move.h:34), which
  is declared in field.h. The model assumes that the board holds one cell per
  position and that `operator==` compares positions. Under that assumption both
  comparisons are comparisons of positions, which is how cells are compared here.
- `MoveCore.Move.Adjacent`: the counter `neighbour_count` is a C++ `int`. Its
  overflow is not modelled. It grows by at most four per cell. `size_t` is
  taken to be 64 bits wide.
- `Dictionary::Word`, `Dictionary::WordSet` and `TileBag` are not modelled.
  They become `seq<char>`, `set<seq<char>>` and the `NoTile` tile.
- `MoveCore.Move.GetDir` and `MoveCore.Move.Consistent` require a non-empty
  move, because the code reads `fields_[0]` and dereferences `min_element`.
  `Consistent` also requires `East` or `South`, which is its `assert`. The
  callers `valid` and `validAsFirst` check both before calling.
- No lemma claims that the `> 2k - 2` threshold means "touches a tile that was
  already on the board". That reading depends on neighbour semantics that the
  move code does not show.
- The grid board in `scenario.dfy` illustrates the rules. It is not the
  game's board.
