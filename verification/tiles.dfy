/** Constants and plain value types shared by every part of the scene:
    the board size, the spawn row, the tile colours and board points. */
module Tiles {

  /** Width of the playfield, in cells. */
  const Columns: int := 10

  /** Height of the playfield, in cells; row 0 is the floor. */
  const Rows: int := 20

  /** Row of the origin of a freshly made piece (the top row). */
  const SpawnRow: int := 19

  /** Colour of a board cell; `None` is an empty cell and every other
      value doubles as the kind of a piece. */
  datatype TileColor = None | I | J | L | O | S | T | Z

  /** A board coordinate or an offset from a piece's origin; y grows upward. */
  datatype Point = Point(x: int, y: int)

  /** Swift's `%` on `Int`: the remainder of division truncated toward zero,
      so it takes the sign of the dividend (Dafny's `%` is Euclidean). */
  function Rem(a: int, b: int): (r: int)
    requires b > 0
    ensures 0 <= a ==> r == a % b && r < b
    ensures a < 0 ==> -b < r <= 0
    ensures a < 0 ==> r == (if a % b == 0 then 0 else a % b - b)
  {
    if 0 <= a then a % b
    else
      NegativeRem(a, b);
      -((-a) % b)
  }

  /** The Euclidean remainder is the only value in [0, b) that differs from
      a by a multiple of b. */
  lemma ModUnique(a: int, b: int, k: int, r: int)
    requires b > 0 && 0 <= r < b && a == b * k + r
    ensures a % b == r
  {
    var q := a / b;
    var d := k - q;
    assert a == b * q + a % b;
    assert b * k == b * q + b * d;
    assert b * d == a % b - r;
    if d >= 1 {
      MulGrows(b, d);
    } else if d <= -1 {
      MulGrows(b, -d);
    }
  }

  lemma MulGrows(b: int, n: int)
    requires b > 0 && n >= 1
    ensures b * n >= b
  {
  }

  /** For a negative dividend, the truncated remainder is the Euclidean one
      shifted down by b, or 0 when b divides the dividend. */
  lemma NegativeRem(a: int, b: int)
    requires a < 0 && b > 0
    ensures -((-a) % b) == (if a % b == 0 then 0 else a % b - b)
  {
    var q := (-a) / b;
    var m := (-a) % b;
    assert -a == b * q + m;
    if m == 0 {
      ModUnique(a, b, -q, 0);
    } else {
      ModUnique(a, b, -q - 1, b - m);
    }
  }
}
