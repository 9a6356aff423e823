/** The rules a move is judged by, as functions of the move's cell list and the
    board: the standard-library searches the class relies on, direction
    classification, the walk count of the contiguity test, the neighbour-count
    threshold and the words a move reads. The class in module MoveCore
    computes these with loops and is proved against them. */
module MoveRules {
  import opened Boards

  /** `std::find_if` over the move's cells: the index of the first cell equal to
      `f`, or `|fs|` (the end iterator) when there is none. */
  function FindIndex(fs: seq<Field>, f: Field): (i: nat)
    ensures i <= |fs|
    ensures i < |fs| ==> fs[i] == f
    ensures forall j :: 0 <= j < i ==> fs[j] != f
  {
    if fs == [] then 0
    else if fs[0] == f then 0
    else 1 + FindIndex(fs[1..], f)
  }

  function XOf(f: Field): int { f.x }
  function YOf(f: Field): int { f.y }

  /** `std::min_element` with the strict comparison `key(a) < key(b)`: it scans
      left to right and replaces its candidate only on a strictly smaller key, so
      the result is the FIRST cell of least key. */
  function MinElement(fs: seq<Field>, key: Field -> int): (i: nat)
    requires |fs| > 0
    ensures i < |fs|
    ensures forall j :: 0 <= j < |fs| ==> key(fs[i]) <= key(fs[j])
    ensures forall j :: 0 <= j < i ==> key(fs[i]) < key(fs[j])
    decreases |fs|
  {
    if |fs| == 1 then 0
    else
      var k := MinElement(fs[..|fs| - 1], key);
      if key(fs[|fs| - 1]) < key(fs[k]) then |fs| - 1 else k
  }

  // ---------------------------------------------------------------------------
  // Direction

  predicate AllX(fs: seq<Field>, x: int)
  {
    forall i :: 0 <= i < |fs| ==> fs[i].x == x
  }

  predicate AllY(fs: seq<Field>, y: int)
  {
    forall i :: 0 <= i < |fs| ==> fs[i].y == y
  }

  /** The direction of a move: `East` when every cell has the first cell's x,
      otherwise `South` when every cell has the first cell's y, otherwise `Wrong`. */
  function LineDir(fs: seq<Field>): (d: Dir)
    requires |fs| > 0
  {
    if AllX(fs, fs[0].x) then East
    else if AllY(fs, fs[0].y) then South
    else Wrong
  }

  /** LineDir does not depend on which cell comes first: it is `East` exactly when
      all cells agree on x, `South` exactly when they agree on y but not on x, and
      `Wrong` exactly when they agree on neither. It is never North or West. */
  lemma LineDirMeaning(fs: seq<Field>)
    requires |fs| > 0
    ensures LineDir(fs) == East <==>
              forall i, j :: 0 <= i < |fs| && 0 <= j < |fs| ==> fs[i].x == fs[j].x
    ensures LineDir(fs) == South <==>
              (exists i, j :: 0 <= i < |fs| && 0 <= j < |fs| && fs[i].x != fs[j].x) &&
              (forall i, j :: 0 <= i < |fs| && 0 <= j < |fs| ==> fs[i].y == fs[j].y)
    ensures LineDir(fs) == Wrong <==>
              (exists i, j :: 0 <= i < |fs| && 0 <= j < |fs| && fs[i].x != fs[j].x) &&
              (exists i, j :: 0 <= i < |fs| && 0 <= j < |fs| && fs[i].y != fs[j].y)
    ensures LineDir(fs) in {East, South, Wrong}
  {
  }

  /** A one-cell move lies on both axes; the tie is broken towards `East`. */
  lemma LineDirSingle(f: Field)
    ensures LineDir([f]) == East
  {
  }

  // ---------------------------------------------------------------------------
  // Contiguity

  /** The cell the contiguity walk starts from: the first cell of least x for
      `South`, the first cell of least y otherwise. */
  function Anchor(fs: seq<Field>, d: Dir): (f: Field)
    requires |fs| > 0
    ensures f in fs
    ensures d == South ==> forall i :: 0 <= i < |fs| ==> f.x <= fs[i].x
    ensures d != South ==> forall i :: 0 <= i < |fs| ==> f.y <= fs[i].y
  {
    if d == South then fs[MinElement(fs, XOf)] else fs[MinElement(fs, YOf)]
  }

  /** How many cells of the walk `p` belong to the move (the counter `used`). */
  function CountIn(p: seq<Field>, fs: seq<Field>): (n: nat)
    ensures n <= |p|
  {
    if p == [] then 0 else (if p[0] in fs then 1 else 0) + CountIn(p[1..], fs)
  }

  /** The walk from the anchor along `d`, up to the board's null cell. */
  function AnchorPath(fs: seq<Field>, d: Dir, b: Board): (p: seq<Field>)
    requires |fs| > 0 && Finite(b)
  {
    Path(b, Some(Anchor(fs, d)), d)
  }

  /** The contiguity test: the walk from the anchor meets as many move cells as
      the move has. */
  predicate IsConsistent(fs: seq<Field>, d: Dir, b: Board)
    requires |fs| > 0 && Finite(b)
    requires d == East || d == South
  {
    CountIn(AnchorPath(fs, d, b), fs) == |fs|
  }

  /** Every cell of the move lies on the walk `p`. */
  predicate Covers(fs: seq<Field>, p: seq<Field>)
  {
    forall i :: 0 <= i < |fs| ==> fs[i] in p
  }

  function Elems(s: seq<Field>): set<Field>
  {
    set x | x in s
  }

  lemma NoDupTail(s: seq<Field>)
    requires |s| > 0 && NoDup(s)
    ensures NoDup(s[1..]) && s[0] !in s[1..]
  {
  }

  /** Prepending an element that is not in the list keeps the list free of
      repetitions. */
  lemma NoDupCons(s: seq<Field>)
    requires |s| > 0 && s[0] !in s[1..] && NoDup(s[1..])
    ensures NoDup(s)
  {
  }

  lemma ElemsCons(s: seq<Field>)
    requires |s| > 0
    ensures Elems(s) == {s[0]} + Elems(s[1..])
  {
  }

  /** On a walk that visits no cell twice, the count is the number of distinct
      move cells on it. */
  lemma {:induction false} CountInCard(p: seq<Field>, fs: seq<Field>)
    requires NoDup(p)
    ensures CountIn(p, fs) == |Elems(p) * Elems(fs)|
  {
    if p != [] {
      var q := p[1..];
      NoDupTail(p);
      CountInCard(q, fs);
      ElemsCons(p);
      var e := Elems(fs);
      var rest := Elems(q) * e;
      assert p[0] !in rest;
      if p[0] in fs {
        assert Elems(p) * e == {p[0]} + rest;
        assert |{p[0]} + rest| == |rest| + 1;
      } else {
        assert Elems(p) * e == rest;
      }
    }
  }

  /** A list has at most as many distinct elements as entries, and exactly as many
      when it has no repetition. */
  lemma {:induction false} ElemsCard(s: seq<Field>)
    ensures |Elems(s)| <= |s|
    ensures |Elems(s)| == |s| <==> NoDup(s)
  {
    if s != [] {
      var q := s[1..];
      ElemsCard(q);
      ElemsCons(s);
      if s[0] in q {
        assert Elems(s) == Elems(q);
        var k :| 0 <= k < |q| && q[k] == s[0];
        assert s[k + 1] == s[0];
      } else {
        assert s[0] !in Elems(q);
        assert |Elems(s)| == |Elems(q)| + 1;
        if NoDup(q) {
          NoDupCons(s);
        }
        if NoDup(s) {
          NoDupTail(s);
        }
      }
    }
  }

  lemma IntersectCard(a: set<Field>, c: set<Field>)
    ensures |a * c| <= |c|
    ensures |a * c| == |c| <==> c <= a
  {
    assert c == (c - a) + a * c;
    assert (c - a) * (a * c) == {};
    if !(c <= a) {
      var x :| x in c && x !in a;
      assert x in c - a;
    }
  }

  /** The count reaches the move's size exactly when the move repeats no cell
      and every cell of it is on the walk. */
  lemma CountInFull(p: seq<Field>, fs: seq<Field>)
    requires NoDup(p)
    ensures CountIn(p, fs) == |fs| <==> NoDup(fs) && Covers(fs, p)
  {
    CountInCard(p, fs);
    ElemsCard(fs);
    IntersectCard(Elems(p), Elems(fs));
    if Covers(fs, p) {
      assert Elems(fs) <= Elems(p);
    }
    if Elems(fs) <= Elems(p) {
      forall i | 0 <= i < |fs| ensures fs[i] in p {
        assert fs[i] in Elems(fs);
      }
    }
  }

  /** What the contiguity test decides: the move repeats no cell and every one of
      its cells is reached by the walk from the anchor. (So a move that leaves a
      gap the board's walk stops at is rejected, and a one-cell move passes.) */
  lemma ConsistentMeaning(fs: seq<Field>, d: Dir, b: Board)
    requires |fs| > 0 && Finite(b)
    requires d == East || d == South
    ensures IsConsistent(fs, d, b) <==> NoDup(fs) && Covers(fs, AnchorPath(fs, d, b))
  {
    PathNoDup(b, Some(Anchor(fs, d)), d);
    CountInFull(AnchorPath(fs, d, b), fs);
  }

  // ---------------------------------------------------------------------------
  // Adjacency

  /** 1 when the board answered with a cell that holds a tile, 0 otherwise (the
      null cell holds no tile). */
  function Occupied(b: Board, n: Option<Field>): nat
  {
    if n.Some? && b.tile(n.value) != NoTile then 1 else 0
  }

  /** Occupied neighbours of `f` over the first `k` compass directions. */
  function OccupiedAround(b: Board, f: Field, k: nat): (n: nat)
    requires k <= |Compass|
    ensures n <= k
  {
    if k == 0 then 0
    else OccupiedAround(b, f, k - 1) + Occupied(b, b.neighbour(f, Compass[k - 1]))
  }

  /** The total `neighbour_count` over every cell of the move. */
  function NeighbourCount(fs: seq<Field>, b: Board): (n: nat)
  {
    if fs == [] then 0
    else NeighbourCount(fs[..|fs| - 1], b) + OccupiedAround(b, fs[|fs| - 1], |Compass|)
  }

  /** `size_t` arithmetic: values are taken modulo 2^64. */
  const SizeModulus: nat := 0x1_0000_0000_0000_0000

  /** `2 * size - 2` computed in `size_t`; for an empty move it wraps to 2^64 - 2. */
  function Threshold(n: nat): (t: nat)
  {
    (2 * n - 2) % SizeModulus
  }

  /** The adjacency test: the occupied-neighbour count exceeds the threshold. */
  predicate IsAdjacent(fs: seq<Field>, b: Board)
  {
    NeighbourCount(fs, b) > Threshold(|fs|)
  }

  /** Each cell has at most four occupied neighbours. */
  lemma {:induction false} NeighbourCountBound(fs: seq<Field>, b: Board)
    ensures NeighbourCount(fs, b) <= 4 * |fs|
  {
    if fs != [] {
      NeighbourCountBound(fs[..|fs| - 1], b);
    }
  }

  /** For any move of realistic size, the test asks for at least `2k - 1`
      occupied neighbours; an empty move never passes (the threshold wrapped). */
  lemma AdjacentThreshold(fs: seq<Field>, b: Board)
    requires |fs| < SizeModulus / 2
    ensures IsAdjacent(fs, b) <==> |fs| > 0 && NeighbourCount(fs, b) >= 2 * |fs| - 1
  {
  }

  /** A one-cell move passes exactly when at least one of its four neighbours
      holds a tile. */
  lemma AdjacentSingle(f: Field, b: Board)
    ensures IsAdjacent([f], b) <==>
              exists k :: 0 <= k < |Compass| && Occupied(b, b.neighbour(f, Compass[k])) == 1
  {
    assert [f][..0] == [];
    assert Threshold(1) == 0;
    assert OccupiedAround(b, f, 1) == Occupied(b, b.neighbour(f, North));
    assert OccupiedAround(b, f, 2) == OccupiedAround(b, f, 1) + Occupied(b, b.neighbour(f, East));
    assert OccupiedAround(b, f, 3) == OccupiedAround(b, f, 2) + Occupied(b, b.neighbour(f, South));
    assert OccupiedAround(b, f, 4) == OccupiedAround(b, f, 3) + Occupied(b, b.neighbour(f, West));
    assert NeighbourCount([f], b) ==
      Occupied(b, b.neighbour(f, North)) + Occupied(b, b.neighbour(f, East)) +
      Occupied(b, b.neighbour(f, South)) + Occupied(b, b.neighbour(f, West));
  }

  // ---------------------------------------------------------------------------
  // Words

  /** The words one cell contributes: each of its East and South reads that is
      longer than one letter. */
  function Reads(b: Board, f: Field): set<Word>
  {
    (if |b.getWord(f, East)| > 1 then {b.getWord(f, East)} else {}) +
    (if |b.getWord(f, South)| > 1 then {b.getWord(f, South)} else {})
  }

  /** The word set collected over the move's cells in order. */
  function WordsOf(fs: seq<Field>, b: Board): (ws: set<Word>)
  {
    if fs == [] then {} else WordsOf(fs[..|fs| - 1], b) + Reads(b, fs[|fs| - 1])
  }

  /** `w` is the East or South read of some cell of the move. */
  ghost predicate IsRead(fs: seq<Field>, b: Board, w: Word)
  {
    exists i, d :: 0 <= i < |fs| && (d == East || d == South) && b.getWord(fs[i], d) == w
  }

  /** The word set holds exactly the reads longer than one letter: nothing
      shorter, nothing that is not a read of a move cell, and every such read. */
  lemma {:induction false} WordsOfMembers(fs: seq<Field>, b: Board)
    ensures forall w :: w in WordsOf(fs, b) <==> |w| > 1 && IsRead(fs, b, w)
  {
    if fs != [] {
      var init := fs[..|fs| - 1];
      var last := fs[|fs| - 1];
      WordsOfMembers(init, b);
      forall w ensures w in WordsOf(fs, b) <==> |w| > 1 && IsRead(fs, b, w) {
        if w in WordsOf(init, b) {
          var i, d :| 0 <= i < |init| && (d == East || d == South) && b.getWord(init[i], d) == w;
          assert fs[i] == init[i];
        } else if w in Reads(b, last) {
          var d := if b.getWord(last, East) == w then East else South;
          assert b.getWord(fs[|fs| - 1], d) == w;
        }
        if |w| > 1 && IsRead(fs, b, w) {
          var i, d :| 0 <= i < |fs| && (d == East || d == South) && b.getWord(fs[i], d) == w;
          if i < |fs| - 1 {
            assert init[i] == fs[i];
          }
        }
      }
    }
  }

  /** The word set depends only on which cells the move holds, not on their order
      or repetition: duplicates collapse by content. */
  lemma WordsOfCellsOnly(fs: seq<Field>, gs: seq<Field>, b: Board)
    requires Elems(fs) == Elems(gs)
    ensures WordsOf(fs, b) == WordsOf(gs, b)
  {
    WordsOfMembers(fs, b);
    WordsOfMembers(gs, b);
    forall w | IsRead(fs, b, w) ensures IsRead(gs, b, w) {
      var i, d :| 0 <= i < |fs| && (d == East || d == South) && b.getWord(fs[i], d) == w;
      assert fs[i] in Elems(gs);
      var j :| 0 <= j < |gs| && gs[j] == fs[i];
      assert b.getWord(gs[j], d) == w;
    }
    forall w | IsRead(gs, b, w) ensures IsRead(fs, b, w) {
      var i, d :| 0 <= i < |gs| && (d == East || d == South) && b.getWord(gs[i], d) == w;
      assert gs[i] in Elems(fs);
      var j :| 0 <= j < |fs| && fs[j] == gs[i];
      assert b.getWord(fs[j], d) == w;
    }
  }
}
