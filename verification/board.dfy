/** The playfield: a column-major grid `g[x][y]` of tile colours with
    bounds-guarded reads and writes, full-row detection and row removal. */
module Board {
  import opened Tiles

  /** `g[x][y]` is the cell in column x and row y; row 0 is the floor. */
  type Grid = seq<seq<TileColor>>

  predicate WellFormed(g: Grid)
  {
    |g| == Columns && forall x :: 0 <= x < Columns ==> |g[x]| == Rows
  }

  predicate InBounds(x: int, y: int)
  {
    0 <= x < Columns && 0 <= y < Rows
  }

  /** The board of a new scene: every cell empty. */
  function Empty(): (g: Grid)
    ensures WellFormed(g)
    ensures forall x, y :: InBounds(x, y) ==> g[x][y] == None
  {
    seq(Columns, _ => seq(Rows, _ => None))
  }

  /** True exactly for an in-range cell that holds no tile; any point off
      the board counts as occupied. */
  function IsEmpty(g: Grid, x: int, y: int): (r: bool)
    requires WellFormed(g)
    ensures !InBounds(x, y) ==> !r
    ensures InBounds(x, y) ==> (r <==> g[x][y] == None)
  {
    if !(0 <= x < Columns && 0 <= y < Rows) then false
    else g[x][y] == None
  }

  /** Writes one cell; a write off the board is silently dropped. */
  function Set(g: Grid, c: TileColor, x: int, y: int): (r: Grid)
    requires WellFormed(g)
    ensures WellFormed(r)
    ensures !InBounds(x, y) ==> r == g
    ensures InBounds(x, y) ==> r[x][y] == c
    ensures forall x', y' :: InBounds(x', y') && (x', y') != (x, y) ==> r[x'][y'] == g[x'][y']
  {
    if !(0 <= x < Columns && 0 <= y < Rows) then g
    else g[x := g[x][y := c]]
  }

  /** One column with row y taken out, the rows above moved down and an
      empty cell put on top. */
  function ClearColumn(col: seq<TileColor>, y: int): (r: seq<TileColor>)
    requires 0 <= y < |col|
    ensures |r| == |col|
  {
    col[..y] + col[y + 1..] + [None]
  }

  /** Removes row y: rows below it stay, every row above it moves down by
      one, and the top row becomes empty. */
  function ClearLine(g: Grid, y: int): (r: Grid)
    requires WellFormed(g) && 0 <= y < Rows
    ensures WellFormed(r)
    ensures forall x, k :: 0 <= x < Columns && 0 <= k < y ==> r[x][k] == g[x][k]
    ensures forall x, k {:trigger r[x][k]} :: 0 <= x < Columns && y <= k < Rows - 1 ==> r[x][k] == g[x][k + 1]
    ensures forall x :: 0 <= x < Columns ==> r[x][Rows - 1] == None
  {
    seq(Columns, x requires 0 <= x < Columns => ClearColumn(g[x], y))
  }

  /** Two well-formed grids with the same cells are the same grid. */
  lemma GridsEqual(a: Grid, b: Grid)
    requires WellFormed(a) && WellFormed(b)
    requires forall x, y :: InBounds(x, y) ==> a[x][y] == b[x][y]
    ensures a == b
  {
    forall x | 0 <= x < Columns
      ensures a[x] == b[x]
    {
      assert forall y :: 0 <= y < Rows ==> a[x][y] == b[x][y] by {
        forall y | 0 <= y < Rows ensures a[x][y] == b[x][y] {
          assert InBounds(x, y);
        }
      }
    }
  }

  /** Cell (c, k) part-way through the shifting loop of `ClearLineInPlace`,
      once every row below `row` has been copied down. */
  ghost function Shifting(g: Grid, y: int, row: int, c: int, k: int): TileColor
    requires WellFormed(g) && 0 <= y < Rows && y < row <= Rows && 0 <= c < Columns && 0 <= k < Rows
  {
    if y <= k < row - 1 then g[c][k + 1]
    else if k == y then None
    else g[c][k]
  }

  /** Row removal as three in-place loops: blank row y, copy every row above
      it down by one, blank the top row. */
  method ClearLineInPlace(g: Grid, y: int) returns (r: Grid)
    requires WellFormed(g) && 0 <= y < Rows
    ensures r == ClearLine(g, y)
  {
    r := g;
    for x := 0 to Columns
      invariant WellFormed(r)
      invariant forall c, k :: 0 <= c < Columns && 0 <= k < Rows ==>
        r[c][k] == (if c < x && k == y then None else g[c][k])
    {
      r := r[x := r[x][y := None]];
    }
    for row := y + 1 to Rows
      invariant WellFormed(r)
      invariant forall c, k :: 0 <= c < Columns && 0 <= k < Rows ==> r[c][k] == Shifting(g, y, row, c, k)
    {
      for x := 0 to Columns
        invariant WellFormed(r)
        invariant forall c, k :: 0 <= c < Columns && 0 <= k < Rows ==>
          r[c][k] == (if c < x then Shifting(g, y, row + 1, c, k) else Shifting(g, y, row, c, k))
      {
        r := r[x := r[x][row - 1 := r[x][row]]];
      }
    }
    for x := 0 to Columns
      invariant WellFormed(r)
      invariant forall c, k :: 0 <= c < Columns && 0 <= k < Rows ==>
        r[c][k] == (if c < x && k == Rows - 1 then None else Shifting(g, y, Rows, c, k))
    {
      r := r[x := r[x][Rows - 1 := None]];
    }
    GridsEqual(r, ClearLine(g, y));
  }

  /** Every column of row y holds a tile. */
  predicate RowFull(g: Grid, y: int)
    requires WellFormed(g) && 0 <= y < Rows
  {
    forall x :: 0 <= x < Columns ==> g[x][y] != None
  }

  predicate StrictlyAscending(s: seq<int>)
  {
    forall i, j :: 0 <= i < j < |s| ==> s[i] < s[j]
  }

  /** The full rows among rows 0 .. n-1, bottom to top. */
  function FullRowsBelow(g: Grid, n: int): seq<int>
    requires WellFormed(g) && 0 <= n <= Rows
    decreases n
  {
    if n == 0 then []
    else FullRowsBelow(g, n - 1) + (if RowFull(g, n - 1) then [n - 1] else [])
  }

  /** Appending a value above every element keeps a list strictly ascending. */
  lemma AscendingAppend(prev: seq<int>, tail: seq<int>, top: int)
    requires StrictlyAscending(prev) && forall i :: 0 <= i < |prev| ==> 0 <= prev[i] < top
    requires 0 <= top && (tail == [] || tail == [top])
    ensures StrictlyAscending(prev + tail)
    ensures forall i :: 0 <= i < |prev + tail| ==> 0 <= (prev + tail)[i] <= top
  {
    var r := prev + tail;
    forall i, j | 0 <= i < j < |r| ensures r[i] < r[j] {
      if j < |prev| {
        assert r[i] == prev[i] && r[j] == prev[j];
      } else {
        assert r[j] == top && r[i] == prev[i];
      }
    }
    forall i | 0 <= i < |r| ensures 0 <= r[i] <= top {
      if i < |prev| {
        assert r[i] == prev[i];
      } else {
        assert r[i] == top;
      }
    }
  }

  /** Adding row `top` when it is full extends "exactly the full rows below
      top" to the rows below top + 1. */
  lemma FullMembersAppend(g: Grid, top: int, prev: seq<int>, tail: seq<int>)
    requires WellFormed(g) && 0 <= top < Rows
    requires forall i :: 0 <= i < |prev| ==> prev[i] < top
    requires forall y :: 0 <= y < top ==> (y in prev <==> RowFull(g, y))
    requires tail == if RowFull(g, top) then [top] else []
    ensures forall y :: 0 <= y <= top ==> (y in prev + tail <==> RowFull(g, y))
  {
    forall y | 0 <= y <= top ensures y in prev + tail <==> RowFull(g, y) {
      assert y in prev + tail <==> y in prev || y in tail;
      if y < top {
        assert y !in tail;
      } else {
        assert y !in prev;
      }
    }
  }

  /** The rows collected below n are ascending, lie below n, and are
      exactly the full ones. */
  lemma {:induction false} FullRowsBelowSpec(g: Grid, n: int)
    requires WellFormed(g) && 0 <= n <= Rows
    ensures StrictlyAscending(FullRowsBelow(g, n))
    ensures forall i :: 0 <= i < |FullRowsBelow(g, n)| ==> 0 <= FullRowsBelow(g, n)[i] < n
    ensures forall y :: 0 <= y < n ==> (y in FullRowsBelow(g, n) <==> RowFull(g, y))
    decreases n
  {
    if n > 0 {
      var prev := FullRowsBelow(g, n - 1);
      var tail := if RowFull(g, n - 1) then [n - 1] else [];
      assert FullRowsBelow(g, n) == prev + tail;
      FullRowsBelowSpec(g, n - 1);
      assert StrictlyAscending(prev) && forall i :: 0 <= i < |prev| ==> 0 <= prev[i] < n - 1;
      assert tail == [] || tail == [n - 1];
      AscendingAppend(prev, tail, n - 1);
      FullMembersAppend(g, n - 1, prev, tail);
    }
  }

  /** The collected rows lie in [0, n) and are at most n in number. */
  lemma {:induction false} FullRowsInRange(g: Grid, n: int)
    requires WellFormed(g) && 0 <= n <= Rows
    ensures forall i :: 0 <= i < |FullRowsBelow(g, n)| ==> 0 <= FullRowsBelow(g, n)[i]
    ensures forall i :: 0 <= i < |FullRowsBelow(g, n)| ==> FullRowsBelow(g, n)[i] < n
    ensures |FullRowsBelow(g, n)| <= n
    decreases n
  {
    if n > 0 {
      FullRowsInRange(g, n - 1);
    }
  }

  /** Indices of all full rows, bottom to top. */
  function FullLines(g: Grid): (r: seq<int>)
    requires WellFormed(g)
    ensures |r| <= Rows && forall i :: 0 <= i < |r| ==> 0 <= r[i] < Rows
  {
    FullRowsInRange(g, Rows);
    FullRowsBelow(g, Rows)
  }

  /** Scans one row left to right and stops at the first empty cell. */
  method ScanRow(g: Grid, y: int) returns (isFull: bool)
    requires WellFormed(g) && 0 <= y < Rows
    ensures isFull <==> RowFull(g, y)
  {
    isFull := true;
    var x := 0;
    while x < Columns
      invariant 0 <= x <= Columns
      invariant forall c :: 0 <= c < x ==> g[c][y] != None
    {
      if g[x][y] == None {
        isFull := false;
        break;
      }
      x := x + 1;
    }
  }

  /** Collects the full rows from the floor up. */
  method FindFullLines(g: Grid) returns (full: seq<int>)
    requires WellFormed(g)
    ensures full == FullLines(g)
    ensures StrictlyAscending(full)
    ensures forall i :: 0 <= i < |full| ==> 0 <= full[i] < Rows
    ensures forall y :: 0 <= y < Rows ==> (y in full <==> RowFull(g, y))
  {
    full := [];
    for y := 0 to Rows
      invariant full == FullRowsBelow(g, y)
    {
      var isFull := ScanRow(g, y);
      if isFull {
        full := full + [y];
      }
    }
    FullRowsBelowSpec(g, Rows);
  }

  /** An empty board has no full row. */
  lemma NoFullLinesOnEmpty()
    ensures FullLines(Empty()) == []
  {
    var r := FullLines(Empty());
    FullRowsBelowSpec(Empty(), Rows);
    if |r| > 0 {
      assert !RowFull(Empty(), r[0]) by {
        assert Empty()[0][r[0]] == None;
      }
    }
  }
}
