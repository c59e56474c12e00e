/** The seven tetrominoes: their literal rotation tables and the
    rotation-index arithmetic of a piece. */
module Pieces {
  import opened Tiles

  /** A falling piece: its kind, its four rotation states (each a list of
      offsets from the origin), the current state and the origin on the board. */
  datatype Tetromino = Tetromino(kind: TileColor, rotations: seq<seq<Point>>, rotationIndex: int, position: Point)

  /** Column of the origin of a freshly made piece. */
  const SpawnX: int := Columns / 2 - 1

  predicate DistinctOffsets(offsets: seq<Point>)
  {
    forall i, j :: 0 <= i < j < |offsets| ==> offsets[i] != offsets[j]
  }

  /** Every offset lies in the 4 x 4 box the tables use. */
  predicate InBox(offsets: seq<Point>)
  {
    forall i :: 0 <= i < |offsets| ==> -2 <= offsets[i].x <= 1 && -1 <= offsets[i].y <= 2
  }

  /** The shape every table has: four states of four distinct offsets in the box. */
  predicate ShapedTable(rs: seq<seq<Point>>)
  {
    |rs| == 4 && forall k :: 0 <= k < 4 ==> |rs[k]| == 4 && DistinctOffsets(rs[k]) && InBox(rs[k])
  }

  /** The hand-written rotation table of a kind: four states of four offsets,
      y pointing up. */
  function Rotations(kind: TileColor): (r: seq<seq<Point>>)
    requires kind != None
    ensures |r| == 4
    ensures forall k :: 0 <= k < 4 ==> |r[k]| == 4 && DistinctOffsets(r[k])
    ensures forall k, i :: 0 <= k < 4 && 0 <= i < 4 ==> -2 <= r[k][i].x <= 1 && -1 <= r[k][i].y <= 2
    ensures kind == O ==> r[1] == r[0] && r[2] == r[0] && r[3] == r[0]
  {
    match kind
    case I =>
      [ [Point(-2, 0), Point(-1, 0), Point(0, 0), Point(1, 0)],
        [Point(0, -1), Point(0, 0), Point(0, 1), Point(0, 2)],
        [Point(-2, 1), Point(-1, 1), Point(0, 1), Point(1, 1)],
        [Point(-1, -1), Point(-1, 0), Point(-1, 1), Point(-1, 2)] ]
    case J =>
      [ [Point(-1, 0), Point(0, 0), Point(1, 0), Point(-1, -1)],
        [Point(0, 1), Point(0, 0), Point(0, -1), Point(1, 1)],
        [Point(-1, 0), Point(0, 0), Point(1, 0), Point(1, 1)],
        [Point(-1, -1), Point(0, 1), Point(0, 0), Point(0, -1)] ]
    case L =>
      [ [Point(-1, 0), Point(0, 0), Point(1, 0), Point(1, 1)],
        [Point(0, -1), Point(0, 0), Point(0, 1), Point(1, -1)],
        [Point(-1, -1), Point(-1, 0), Point(0, 0), Point(1, 0)],
        [Point(-1, 1), Point(0, -1), Point(0, 0), Point(0, 1)] ]
    case O =>
      [ [Point(0, 0), Point(1, 0), Point(0, 1), Point(1, 1)],
        [Point(0, 0), Point(1, 0), Point(0, 1), Point(1, 1)],
        [Point(0, 0), Point(1, 0), Point(0, 1), Point(1, 1)],
        [Point(0, 0), Point(1, 0), Point(0, 1), Point(1, 1)] ]
    case S =>
      [ [Point(0, 0), Point(1, 0), Point(-1, 1), Point(0, 1)],
        [Point(0, -1), Point(0, 0), Point(1, 0), Point(1, 1)],
        [Point(0, 0), Point(1, 0), Point(-1, 1), Point(0, 1)],
        [Point(0, -1), Point(0, 0), Point(1, 0), Point(1, 1)] ]
    case T =>
      [ [Point(-1, 0), Point(0, 0), Point(1, 0), Point(0, 1)],
        [Point(0, -1), Point(0, 0), Point(0, 1), Point(1, 0)],
        [Point(-1, 0), Point(0, 0), Point(1, 0), Point(0, -1)],
        [Point(-1, 0), Point(0, -1), Point(0, 0), Point(0, 1)] ]
    case Z =>
      [ [Point(-1, 0), Point(0, 0), Point(0, 1), Point(1, 1)],
        [Point(1, -1), Point(0, 0), Point(1, 0), Point(0, 1)],
        [Point(-1, 0), Point(0, 0), Point(0, 1), Point(1, 1)],
        [Point(1, -1), Point(0, 0), Point(1, 0), Point(0, 1)] ]
  }

  /** A piece as the factory makes it and as rotation keeps it: the table of
      its own kind and an index into it. */
  predicate Valid(t: Tetromino)
  {
    t.kind != None && t.rotations == Rotations(t.kind) && 0 <= t.rotationIndex < 4
  }

  /** What the game relies on of a piece: a real kind, a table of the right
      shape and an index into it. Every valid piece is shaped. */
  predicate Shaped(t: Tetromino)
  {
    t.kind != None && ShapedTable(t.rotations) && 0 <= t.rotationIndex < 4
  }

  lemma ValidIsShaped(t: Tetromino)
    requires Valid(t)
    ensures Shaped(t)
  {
    assert ShapedTable(Rotations(t.kind));
  }

  /** A new piece of the given kind in rotation 0, at column 4 of the top row. */
  function MakeTetromino(kind: TileColor): (t: Tetromino)
    requires kind != None
    ensures Valid(t) && Shaped(t) && t.kind == kind && t.rotationIndex == 0
    ensures t.position == Point(4, 19) && t.position.y == Rows - 1
  {
    var t := Tetromino(kind, Rotations(kind), 0, Point(SpawnX, SpawnRow));
    ValidIsShaped(t);
    t
  }

  /** The offsets of the current rotation state. */
  function Blocks(t: Tetromino): (r: seq<Point>)
    requires 0 <= t.rotationIndex < |t.rotations|
    ensures Shaped(t) ==> |r| == 4 && DistinctOffsets(r) && InBox(r)
  {
    t.rotations[t.rotationIndex]
  }

  /** Advances the rotation index by one, wrapping at the number of states. */
  function RotateClockwise(t: Tetromino): (r: Tetromino)
    requires |t.rotations| > 0
    ensures r.kind == t.kind && r.rotations == t.rotations && r.position == t.position
    ensures 0 <= t.rotationIndex < |t.rotations| ==>
      0 <= r.rotationIndex < |t.rotations| &&
      if t.rotationIndex == |t.rotations| - 1 then r.rotationIndex == 0 else r.rotationIndex == t.rotationIndex + 1
  {
    t.(rotationIndex := Rem(t.rotationIndex + 1, |t.rotations|))
  }

  /** Steps the rotation index back by one, wrapping at the number of states. */
  function RotateCounter(t: Tetromino): (r: Tetromino)
    requires |t.rotations| > 0
    ensures r.kind == t.kind && r.rotations == t.rotations && r.position == t.position
    ensures 0 <= t.rotationIndex < |t.rotations| ==>
      0 <= r.rotationIndex < |t.rotations| &&
      if t.rotationIndex == 0 then r.rotationIndex == |t.rotations| - 1 else r.rotationIndex == t.rotationIndex - 1
  {
    t.(rotationIndex := Rem(t.rotationIndex - 1 + |t.rotations|, |t.rotations|))
  }

  /** Clockwise and counter-clockwise rotation undo each other. */
  lemma RotationsUndoEachOther(t: Tetromino)
    requires |t.rotations| > 0 && 0 <= t.rotationIndex < |t.rotations|
    ensures RotateCounter(RotateClockwise(t)) == t
    ensures RotateClockwise(RotateCounter(t)) == t
  {
  }

  /** Four clockwise turns bring a valid piece back to its starting state. */
  lemma FourTurnsIdentity(t: Tetromino)
    requires Valid(t)
    ensures RotateClockwise(RotateClockwise(RotateClockwise(RotateClockwise(t)))) == t
  {
  }

  /** Rotation keeps a valid piece valid, and the O piece occupies the same
      cells whatever its rotation. */
  lemma RotationKeepsValid(t: Tetromino)
    requires Valid(t)
    ensures Valid(RotateClockwise(t)) && Valid(RotateCounter(t))
    ensures t.kind == O ==> Blocks(RotateClockwise(t)) == Blocks(t) && Blocks(RotateCounter(t)) == Blocks(t)
  {
  }
}
