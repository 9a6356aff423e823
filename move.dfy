/** The `Move` class: the ordered list of board cells a player proposes to fill
    this turn, with the queries that decide whether the placement is legal and
    which words it forms. Every query only reads the board. */
module MoveCore {
  import opened Boards
  import opened MoveRules

  class Move {
    /** The proposed cells, in the order they were added. */
    var fields: seq<Field>

    constructor ()
      ensures fields == []
    {
      fields := [];
    }

    /** Appends one cell at the end; earlier cells stay as they were. Only the cell
        is stored, never its tile, so later queries see the board's tile. */
    method Add(f: Field)
      modifies this
      ensures fields == old(fields) + [f]
    {
      fields := fields + [f];
    }

    /** Forgets every proposed cell. */
    method Clear()
      modifies this
      ensures fields == []
    {
      fields := [];
    }

    /** Classifies the move: `East` when every cell has the first cell's x,
        otherwise `South` when every cell has the first cell's y, otherwise
        `Wrong`. It reads the first cell, so the move must not be empty. */
    method GetDir() returns (d: Dir)
      requires |fields| > 0
      ensures d == LineDir(fields)
      ensures d == East <==> forall i :: 0 <= i < |fields| ==> fields[i].x == fields[0].x
      ensures d == South <==>
                (exists i :: 0 <= i < |fields| && fields[i].x != fields[0].x) &&
                (forall i :: 0 <= i < |fields| ==> fields[i].y == fields[0].y)
      ensures d == Wrong <==>
                (exists i :: 0 <= i < |fields| && fields[i].x != fields[0].x) &&
                (exists i :: 0 <= i < |fields| && fields[i].y != fields[0].y)
    {
      var x := fields[0].x;
      var y := fields[0].y;
      var horizontal := true;
      var vertical := true;

      for i := 0 to |fields|
        invariant horizontal <==> forall k :: 0 <= k < i ==> fields[k].x == x
      {
        if fields[i].x != x {
          horizontal := false;
        }
      }

      for i := 0 to |fields|
        invariant vertical <==> forall k :: 0 <= k < i ==> fields[k].y == y
      {
        if fields[i].y != y {
          vertical := false;
        }
      }

      d := if horizontal then East else if vertical then South else Wrong;
    }

    /** Whether the move holds the cell `f` (a `find_if` for an equal cell). */
    function Contains(f: Field): (r: bool)
      reads this
      ensures r <==> exists i :: 0 <= i < |fields| && fields[i] == f
    {
      FindIndex(fields, f) < |fields|
    }

    /** The contiguity test: walk the board from the anchor (the first cell of
        least y for `East`, of least x for `South`) along `d` until the null
        cell, counting the visited cells that belong to the move; the move passes
        when the count equals its size. Equivalently, the move repeats no cell and
        the walk reaches every one of its cells. */
    method Consistent(d: Dir, b: Board) returns (ok: bool)
      requires d == East || d == South
      requires |fields| > 0
      requires Finite(b)
      ensures ok == IsConsistent(fields, d, b)
      ensures ok <==> NoDup(fields) && Covers(fields, AnchorPath(fields, d, b))
    {
      var minX := MinElement(fields, XOf);
      var minY := MinElement(fields, YOf);
      var used := 0;

      var field := Some(if d == South then fields[minX] else fields[minY]);
      ghost var walk := Path(b, field, d);
      while field.Some?
        invariant used + CountIn(Path(b, field, d), fields) == CountIn(walk, fields)
        decreases if field.Some? then b.reach(field.value, d) + 1 else 0
      {
        ghost var rest := Path(b, b.neighbour(field.value, d), d);
        assert Path(b, field, d) == [field.value] + rest;
        assert ([field.value] + rest)[1..] == rest;
        if Contains(field.value) {
          used := used + 1;
        }
        field := b.neighbour(field.value, d);
      }

      ok := |fields| == used;
      ConsistentMeaning(fields, d, b);
    }

    /** The adjacency test: count, over every cell of the move and each of the
        four compass directions, the neighbours that hold a tile, and pass when
        the count exceeds `2 * size - 2` computed in `size_t`. An empty move never
        passes, since that threshold wraps around. */
    method Adjacent(b: Board) returns (ok: bool)
      ensures ok == IsAdjacent(fields, b)
      ensures ok ==> |fields| > 0
      ensures |fields| == 1 ==>
                (ok <==> exists k :: 0 <= k < |Compass| &&
                                     Occupied(b, b.neighbour(fields[0], Compass[k])) == 1)
    {
      var neighbourCount := 0;
      for i := 0 to |fields|
        invariant neighbourCount == NeighbourCount(fields[..i], b)
      {
        for k := 0 to |Compass|
          invariant neighbourCount == NeighbourCount(fields[..i], b) + OccupiedAround(b, fields[i], k)
        {
          neighbourCount := neighbourCount + Occupied(b, b.neighbour(fields[i], Compass[k]));
        }
        assert fields[..i + 1][..i] == fields[..i];
      }
      assert fields[..|fields|] == fields;
      ok := neighbourCount > (2 * |fields| - 2) % SizeModulus;
      if |fields| == 1 {
        assert fields == [fields[0]];
        AdjacentSingle(fields[0], b);
      }
    }

    /** Legality of an ordinary move: not empty, on one line, contiguous along
        that line and touching enough occupied cells. */
    function Valid(b: Board): (ok: bool)
      reads this
      requires Finite(b)
      ensures fields == [] ==> !ok
      ensures fields != [] && LineDir(fields) == Wrong ==> !ok
      ensures fields != [] && LineDir(fields) != Wrong ==>
                (ok <==> IsConsistent(fields, LineDir(fields), b) && IsAdjacent(fields, b))
      ensures ok <==>
                fields != [] && LineDir(fields) != Wrong && NoDup(fields) &&
                Covers(fields, AnchorPath(fields, LineDir(fields), b)) &&
                IsAdjacent(fields, b)
    {
      if |fields| == 0 then false
      else
        var d := LineDir(fields);
        if d == Wrong then false
        else
          ConsistentMeaning(fields, d, b);
          IsConsistent(fields, d, b) && IsAdjacent(fields, b)
    }

    /** Legality of the opening move: not empty, on one line, covering the
        board's start cell (a `find` for that cell) and contiguous. The adjacency
        test plays no part. */
    function ValidAsFirst(b: Board): (ok: bool)
      reads this
      requires Finite(b)
      ensures fields == [] ==> !ok
      ensures fields != [] && LineDir(fields) == Wrong ==> !ok
      ensures b.initialField !in fields ==> !ok
      ensures ok <==>
                fields != [] && LineDir(fields) != Wrong && b.initialField in fields &&
                NoDup(fields) && Covers(fields, AnchorPath(fields, LineDir(fields), b))
    {
      if |fields| == 0 then false
      else
        var d := LineDir(fields);
        if d == Wrong then false
        else if FindIndex(fields, b.initialField) == |fields| then false
        else
          ConsistentMeaning(fields, d, b);
          IsConsistent(fields, d, b)
    }

    /** The words the move forms: for each cell, its East read and its South
        read, each kept when longer than one letter, collected into a set. */
    method GetWords(b: Board) returns (ret: set<Word>)
      ensures ret == WordsOf(fields, b)
      ensures forall w :: w in ret <==> |w| > 1 && IsRead(fields, b, w)
      ensures fields == [] ==> ret == {}
    {
      ret := {};
      for i := 0 to |fields|
        invariant ret == WordsOf(fields[..i], b)
      {
        var horizontal := b.getWord(fields[i], East);
        var vertical := b.getWord(fields[i], South);
        if |horizontal| > 1 {
          ret := ret + {horizontal};
        }
        if |vertical| > 1 {
          ret := ret + {vertical};
        }
        assert fields[..i + 1][..i] == fields[..i];
      }
      assert fields[..|fields|] == fields;
      WordsOfMembers(fields, b);
    }
  }

  /** A one-tile move is legal exactly when one of its four neighbours holds a
      tile: the walk from the tile always reaches it. */
  lemma SingleTileValid(m: Move, b: Board)
    requires Finite(b)
    requires |m.fields| == 1
    ensures m.Valid(b) <==>
              exists k :: 0 <= k < |Compass| && Occupied(b, b.neighbour(m.fields[0], Compass[k])) == 1
  {
    var f := m.fields[0];
    assert m.fields == [f];
    LineDirSingle(f);
    var p := AnchorPath(m.fields, East, b);
    assert p[0] == f;
    assert Covers(m.fields, p);
    assert NoDup(m.fields);
    AdjacentSingle(f, b);
  }

  /** A one-tile opening move is legal exactly when it sits on the start cell. */
  lemma SingleTileValidAsFirst(m: Move, b: Board)
    requires Finite(b)
    requires |m.fields| == 1
    ensures m.ValidAsFirst(b) <==> m.fields[0] == b.initialField
  {
  }
}
