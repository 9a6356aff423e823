/** A concrete 15 x 15 board, built from a map of placed letters, on which the
    move rules are worked through for a few typical turns. Following the move
    code's convention, `East` keeps x and increases y, `South` increases x.
    The board answers with its null cell past the edge and at every empty cell,
    which is what lets the contiguity walk stop at a gap. */
module Scenarios {
  import opened Boards
  import opened MoveRules
  import opened MoveCore

  type Pos = (int, int)

  const Size: int := 15

  predicate InBounds(p: Pos)
  {
    0 <= p.0 < Size && 0 <= p.1 < Size
  }

  function Step(p: Pos, d: Dir): Pos
  {
    match d
    case North => (p.0 - 1, p.1)
    case East => (p.0, p.1 + 1)
    case South => (p.0 + 1, p.1)
    case West => (p.0, p.1 - 1)
    case Wrong => p
  }

  function Opposite(d: Dir): Dir
  {
    match d
    case North => South
    case East => West
    case South => North
    case West => East
    case Wrong => Wrong
  }

  /** Steps left before the edge when going `d` from `p`. */
  function Reach(p: Pos, d: Dir): nat
  {
    match d
    case North => if p.0 > 0 then p.0 else 0
    case East => if Size - 1 - p.1 > 0 then Size - 1 - p.1 else 0
    case South => if Size - 1 - p.0 > 0 then Size - 1 - p.0 else 0
    case West => if p.1 > 0 then p.1 else 0
    case Wrong => 0
  }

  /** The cell at `p` when it lies on the board and holds a letter. */
  function Cell(t: map<Pos, char>, p: Pos): Option<Field>
  {
    if InBounds(p) && p in t then Some(Field(p.0, p.1)) else None
  }

  /** The tile at a cell: its letter when one is placed there. */
  function GridTile(t: map<Pos, char>, f: Field): Tile
  {
    if (f.x, f.y) in t then Letter(t[(f.x, f.y)]) else NoTile
  }

  function GridNeighbour(t: map<Pos, char>, f: Field, d: Dir): Option<Field>
  {
    if d == Wrong then None else Cell(t, Step((f.x, f.y), d))
  }

  /** The letters from `p` onwards in direction `d`, up to the first empty cell. */
  function ReadRun(t: map<Pos, char>, p: Pos, d: Dir): Word
    requires d != Wrong
    decreases if InBounds(p) then Reach(p, d) + 1 else 0
  {
    if InBounds(p) && p in t then [t[p]] + ReadRun(t, Step(p, d), d) else []
  }

  /** The first cell of the run of letters that reaches `p` going `d`. */
  function RunStart(t: map<Pos, char>, p: Pos, d: Dir): Pos
    requires InBounds(p) && d != Wrong
    decreases Reach(p, Opposite(d))
  {
    var q := Step(p, Opposite(d));
    if Cell(t, q).Some? then RunStart(t, q, d) else p
  }

  /** The word through `f`: East or West read along the row, North or South
      along the column, always forwards. */
  function GridWord(t: map<Pos, char>, f: Field, d: Dir): Word
  {
    var p := (f.x, f.y);
    if !InBounds(p) || d == Wrong then []
    else
      var forward := if d == East || d == West then East else South;
      ReadRun(t, RunStart(t, p, forward), forward)
  }

  function GridBoard(t: map<Pos, char>, start: Pos): Board
  {
    Board(
      (f: Field) => GridTile(t, f),
      (f: Field, d: Dir) => GridNeighbour(t, f, d),
      (f: Field, d: Dir) => GridWord(t, f, d),
      Field(start.0, start.1),
      (f: Field, d: Dir) => Reach((f.x, f.y), d))
  }

  /** Every grid board is finite, so the move rules apply to it. */
  lemma GridFinite(t: map<Pos, char>, start: Pos)
    ensures Finite(GridBoard(t, start))
  {
  }

  // ---------------------------------------------------------------------------
  // Opening move: C A T across the start cell (7, 7).

  const C := Field(7, 6)
  const A := Field(7, 7)
  const T := Field(7, 8)

  function CatTiles(): map<Pos, char>
  {
    map[(7, 6) := 'C', (7, 7) := 'A', (7, 8) := 'T']
  }

  /** Placing C A T along a row through the start cell is a legal first move,
      and it forms the single word "CAT". */
  lemma OpeningCat(m: Move)
    requires m.fields == [C, A, T]
    ensures Finite(GridBoard(CatTiles(), (7, 7)))
    ensures m.ValidAsFirst(GridBoard(CatTiles(), (7, 7)))
    ensures WordsOf(m.fields, GridBoard(CatTiles(), (7, 7))) == {"CAT"}
  {
    var t := CatTiles();
    var b := GridBoard(t, (7, 7));
    GridFinite(t, (7, 7));
    assert LineDir(m.fields) == East;
    assert Anchor(m.fields, East) == C;
    assert b.neighbour(C, East) == Some(A);
    assert b.neighbour(A, East) == Some(T);
    assert b.neighbour(T, East) == None;
    assert Path(b, Some(T), East) == [T];
    assert Path(b, Some(A), East) == [A, T];
    assert AnchorPath(m.fields, East, b) == [C, A, T];
    assert NoDup(m.fields);
    assert b.initialField == A;

    assert RunStart(t, (7, 6), East) == (7, 6);
    assert RunStart(t, (7, 7), East) == (7, 6);
    assert RunStart(t, (7, 8), East) == (7, 6);
    assert ReadRun(t, (7, 9), East) == [];
    assert ReadRun(t, (7, 8), East) == "T";
    assert ReadRun(t, (7, 7), East) == "AT";
    assert ReadRun(t, (7, 6), East) == "CAT";
    assert RunStart(t, (7, 6), South) == (7, 6);
    assert RunStart(t, (7, 7), South) == (7, 7);
    assert RunStart(t, (7, 8), South) == (7, 8);
    assert ReadRun(t, (7, 6), South) == "C";
    assert ReadRun(t, (7, 7), South) == "A";
    assert ReadRun(t, (7, 8), South) == "T";
    assert Reads(b, C) == {"CAT"};
    assert Reads(b, A) == {"CAT"};
    assert Reads(b, T) == {"CAT"};
    assert m.fields[..2] == [C, A] && [C, A][..1] == [C] && [C][..0] == [];
    assert WordsOf([C], b) == {"CAT"};
    assert WordsOf([C, A], b) == {"CAT"};
  }

  /** C and T with the cell between them left empty: the move lies on one row,
      but the walk from C stops at the gap and never reaches T, so the opening
      move is rejected. The start cell is put at C's position (7, 6) here, so
      that the move covers it and only the gap decides the result. */
  lemma OpeningWithGap(m: Move)
    requires m.fields == [C, T]
    ensures Finite(GridBoard(map[(7, 6) := 'C', (7, 8) := 'T'], (7, 6)))
    ensures !m.ValidAsFirst(GridBoard(map[(7, 6) := 'C', (7, 8) := 'T'], (7, 6)))
  {
  }

  /** A one-tile opening move on the start cell (7, 7) of a board that holds no
      tile yet is legal: the move names the board's own cell, so the start-cell
      test matches by position whatever tile the board shows there. */
  lemma OpeningOnEmptyStart(m: Move)
    requires m.fields == [A]
    ensures Finite(GridBoard(map[], (7, 7)))
    ensures GridBoard(map[], (7, 7)).tile(A) == NoTile
    ensures m.ValidAsFirst(GridBoard(map[], (7, 7)))
  {
  }

  // ---------------------------------------------------------------------------
  // Second move: S below the T of CAT.

  const S := Field(8, 8)

  function CatsTiles(): map<Pos, char>
  {
    map[(7, 6) := 'C', (7, 7) := 'A', (7, 8) := 'T', (8, 8) := 'S']
  }

  /** Adding one S directly below the T is legal (its North neighbour holds a
      tile), and the move forms only the down word "TS", not "CAT". */
  lemma AppendS(m: Move)
    requires m.fields == [S]
    ensures Finite(GridBoard(CatsTiles(), (7, 7)))
    ensures m.Valid(GridBoard(CatsTiles(), (7, 7)))
    ensures WordsOf(m.fields, GridBoard(CatsTiles(), (7, 7))) == {"TS"}
  {
    var t := CatsTiles();
    var b := GridBoard(t, (7, 7));
    GridFinite(t, (7, 7));
    SingleTileValid(m, b);
    assert b.neighbour(S, North) == Some(T);
    assert Occupied(b, b.neighbour(S, Compass[0])) == 1;

    assert RunStart(t, (8, 8), East) == (8, 8);
    assert ReadRun(t, (8, 8), East) == "S";
    assert RunStart(t, (7, 8), South) == (7, 8);
    assert RunStart(t, (8, 8), South) == (7, 8);
    assert ReadRun(t, (8, 8), South) == "S";
    assert ReadRun(t, (7, 8), South) == "TS";
    assert Reads(b, S) == {"TS"};
    assert m.fields[..0] == [];
  }

  /** A lone tile with no occupied neighbour is rejected. */
  lemma IsolatedTile(m: Move)
    requires m.fields == [Field(0, 0)]
    ensures Finite(GridBoard(CatsTiles()[(0, 0) := 'Q'], (7, 7)))
    ensures !m.Valid(GridBoard(CatsTiles()[(0, 0) := 'Q'], (7, 7)))
  {
    var t := CatsTiles()[(0, 0) := 'Q'];
    var b := GridBoard(t, (7, 7));
    GridFinite(t, (7, 7));
    SingleTileValid(m, b);
    var q := m.fields[0];
    assert b.neighbour(q, North) == None;
    assert b.neighbour(q, East) == None;
    assert b.neighbour(q, South) == None;
    assert b.neighbour(q, West) == None;
    forall k | 0 <= k < |Compass| ensures Occupied(b, b.neighbour(q, Compass[k])) == 0 {
      assert Compass[k] in {North, East, South, West};
    }
  }
}
