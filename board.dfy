/** The board collaborator as the move core sees it: cells identified by their
    coordinates, the tiles they hold, four compass directions, and the board's read-only queries (the next cell
    in a direction, the word read through a cell, the start cell). The board's own
    geometry is not modelled; it is given as functions. */
module Boards {

  datatype Option<T> = None | Some(value: T)

  /** The source's direction enum, in declaration order. `Wrong` marks a placement
      that lies on neither a row nor a column. */
  datatype Dir = North | East | South | West | Wrong

  /** The four real directions, in the order `adjacent` scans them
      (from `kNorth` up to, not including, `kWrong`). */
  const Compass: seq<Dir> := [North, East, South, West]

  /** A cell's content: no tile, or a letter tile. */
  datatype Tile = NoTile | Letter(letter: char)

  /** A board cell, identified by its position. The move keeps references to board
      cells, so a cell's tile is never copied into the move: it is looked up on the
      board (`Board.tile`) whenever it is needed. Comparing two cells is comparing
      positions, which on one board is comparing the cells themselves. */
  datatype Field = Field(x: int, y: int)

  type Word = seq<char>

  /** The board's read-only interface.
      - `tile(f)`: the tile the board currently holds at cell `f`.
      - `neighbour(f, d)`: the next cell from `f` in direction `d`, or `None` where the
        board answers with its null cell.
      - `getWord(f, d)`: the word read through `f` along the axis of `d`.
      - `initialField`: the start cell that a first move must cover.
      - `reach(f, d)`: how many steps the board allows from `f` in direction `d`
        at most; it only serves to show that walks end. */
  datatype Board = Board(
    tile: Field -> Tile,
    neighbour: (Field, Dir) -> Option<Field>,
    getWord: (Field, Dir) -> Word,
    initialField: Field,
    reach: (Field, Dir) -> nat)

  /** The board is finite: every step in a direction strictly lowers the
      remaining reach in that direction. */
  ghost predicate Finite(b: Board)
  {
    forall f: Field, d: Dir ::
      b.neighbour(f, d).Some? ==> b.reach(b.neighbour(f, d).value, d) < b.reach(f, d)
  }

  /** The cells visited by following `neighbour(d)` from `start` until the null cell,
      `start` included. */
  function Path(b: Board, start: Option<Field>, d: Dir): (p: seq<Field>)
    requires Finite(b)
    decreases if start.Some? then b.reach(start.value, d) + 1 else 0
  {
    match start
    case None => []
    case Some(f) => [f] + Path(b, b.neighbour(f, d), d)
  }

  predicate NoDup<T(==)>(s: seq<T>)
  {
    forall i, j :: 0 <= i < j < |s| ==> s[i] != s[j]
  }

  /** Every cell of a path has no more reach left than the path's first cell, and
      every cell after the first has strictly less. */
  lemma {:induction false} PathReach(b: Board, start: Option<Field>, d: Dir)
    requires Finite(b)
    ensures forall i :: 0 < i < |Path(b, start, d)| ==>
              b.reach(Path(b, start, d)[i], d) < b.reach(Path(b, start, d)[0], d)
    decreases if start.Some? then b.reach(start.value, d) + 1 else 0
  {
    match start
    case None =>
    case Some(f) =>
      var rest := Path(b, b.neighbour(f, d), d);
      PathReach(b, b.neighbour(f, d), d);
      assert Path(b, start, d) == [f] + rest;
      if |rest| > 0 {
        assert rest[0] == b.neighbour(f, d).value;
        assert b.reach(rest[0], d) < b.reach(f, d);
      }
  }

  /** A walk never visits a cell twice. */
  lemma {:induction false} PathNoDup(b: Board, start: Option<Field>, d: Dir)
    requires Finite(b)
    ensures NoDup(Path(b, start, d))
    decreases if start.Some? then b.reach(start.value, d) + 1 else 0
  {
    match start
    case None =>
    case Some(f) =>
      var p := Path(b, start, d);
      var rest := Path(b, b.neighbour(f, d), d);
      PathNoDup(b, b.neighbour(f, d), d);
      PathReach(b, start, d);
      assert p == [f] + rest;
      forall i, j | 0 <= i < j < |p| ensures p[i] != p[j] {
        if i == 0 {
          assert b.reach(p[j], d) < b.reach(p[0], d);
        } else {
          assert p[i] == rest[i - 1] && p[j] == rest[j - 1];
        }
      }
  }
}
