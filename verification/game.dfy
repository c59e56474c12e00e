/** The game logic of the scene: placement, movement, rotation with wall
    kicks, hard drop, locking, line-clear scoring, levels and spawning. */
module Game {
  import opened Tiles
  import opened Pieces
  import opened Board
  import opened LineClear
  import opened Random

  datatype GameState = Menu | Playing | Paused | GameOver

  /** The logic-relevant state of the scene. `lockArmed` stands for a
      non-zero lock timer. */
  datatype Scene = Scene(
    state: GameState,
    board: Grid,
    current: Tetromino,
    nextKind: TileColor,
    score: int,
    level: int,
    linesCleared: int,
    lockArmed: bool,
    seed: int)

  /** What the scene relies on without checking: a 10 x 20 board, a piece
      with a well-shaped rotation table, a real next kind, a 64-bit seed. */
  predicate Sane(s: Scene)
  {
    WellFormed(s.board) && Shaped(s.current) && s.nextKind != None && IsInt64(s.seed)
  }

  /** The invariant the transitions keep: the piece is one the factory
      made, counters are consistent with each other, and a live piece always sits on free cells inside the board. */
  predicate Inv(s: Scene)
  {
    && Sane(s)
    && Valid(s.current)
    && CountersOk(s)
    && ((s.state == Playing || s.state == Paused) ==> CanPlace(s.board, s.current))
  }

  /** Score and lines never negative, level derived from lines, seed a
      31-bit generator value. */
  predicate CountersOk(s: Scene)
  {
    && 0 <= s.score
    && 0 <= s.linesCleared
    && s.level == s.linesCleared / 10 + 1
    && 0 <= s.seed < TwoTo31
  }

  /** The scene before the first start. The Swift piece is still nil; an
      unused I piece stands in for it. */
  function InitialScene(): (s: Scene)
    ensures Inv(s) && s.state == Menu
    ensures s.score == 0 && s.level == 1 && s.linesCleared == 0 && s.nextKind == I
    ensures forall x, y :: InBounds(x, y) ==> s.board[x][y] == None
    ensures s.seed == InitialSeed && !s.lockArmed
  {
    Scene(Menu, Empty(), MakeTetromino(I), I, 0, 1, 0, false, InitialSeed)
  }

  // ---------------------------------------------------------------- placement

  /** Checks the blocks in order and fails at the first one that is off the
      board or on an occupied cell. */
  function BlocksFit(g: Grid, at: Point, bs: seq<Point>): (r: bool)
    requires WellFormed(g)
    ensures r <==> forall i :: 0 <= i < |bs| ==> IsEmpty(g, at.x + bs[i].x, at.y + bs[i].y)
    decreases |bs|
  {
    if |bs| == 0 then true
    else
      var x := at.x + bs[0].x;
      var y := at.y + bs[0].y;
      if !(0 <= x < Columns && 0 <= y < Rows) then false
      else if g[x][y] != None then false
      else BlocksFit(g, at, bs[1..])
  }

  /** A piece can be placed when every block lies inside the board, below
      the top row included, on an empty cell. */
  function CanPlace(g: Grid, t: Tetromino): (r: bool)
    requires WellFormed(g) && 0 <= t.rotationIndex < |t.rotations|
    ensures r <==> forall i :: 0 <= i < |Blocks(t)| ==>
      IsEmpty(g, t.position.x + Blocks(t)[i].x, t.position.y + Blocks(t)[i].y)
  {
    BlocksFit(g, t.position, Blocks(t))
  }

  /** The piece with its origin shifted by (dx, dy). */
  function Moved(t: Tetromino, dx: int, dy: int): Tetromino
  {
    t.(position := Point(t.position.x + dx, t.position.y + dy))
  }

  // ----------------------------------------------------------------- movement

  /** Tries a shifted copy of the piece and commits it only if it fits. A
      committed vertical move disarms the lock timer; a failed downward move
      arms it. Returns the new scene and whether the piece moved. */
  function AttemptMove(s: Scene, dx: int, dy: int): (r: (Scene, bool))
    requires Sane(s)
    ensures s.state != Playing ==> r == (s, false)
    ensures s.state == Playing ==> (r.1 <==> CanPlace(s.board, Moved(s.current, dx, dy)))
    ensures r.0 == s.(current := r.0.current, lockArmed := r.0.lockArmed)
    ensures r.1 ==> r.0.current == Moved(s.current, dx, dy) && CanPlace(r.0.board, r.0.current)
    ensures !r.1 ==> r.0.current == s.current
    ensures r.0.lockArmed == (if r.1 && dy != 0 then false
                              else if s.state == Playing && !r.1 && dy < 0 then true
                              else s.lockArmed)
  {
    if s.state != Playing then (s, false)
    else
      var moved := Moved(s.current, dx, dy);
      if CanPlace(s.board, moved) then
        (s.(current := moved, lockArmed := if dy != 0 then false else s.lockArmed), true)
      else
        (s.(lockArmed := if dy < 0 then true else s.lockArmed), false)
  }

  /** A move that succeeded can be undone by the opposite move. */
  lemma MoveThenBack(s: Scene, dx: int, dy: int)
    requires Sane(s) && s.state == Playing && CanPlace(s.board, s.current)
    requires AttemptMove(s, dx, dy).1
    ensures AttemptMove(AttemptMove(s, dx, dy).0, -dx, -dy).1
    ensures AttemptMove(AttemptMove(s, dx, dy).0, -dx, -dy).0.current == s.current
  {
    assert Moved(Moved(s.current, dx, dy), -dx, -dy) == s.current;
  }

  // ----------------------------------------------------------------- rotation

  /** Wall-kick offsets, tried in this order: none, left, right, up,
      left-up, right-up. */
  const Kicks: seq<Point> := [Point(0, 0), Point(-1, 0), Point(1, 0), Point(0, 1), Point(-1, 1), Point(1, 1)]

  /** The rotated piece with its origin at `origin` moved by `kick`. */
  function Kicked(rotated: Tetromino, origin: Point, kick: Point): Tetromino
  {
    rotated.(position := Point(origin.x + kick.x, origin.y + kick.y))
  }

  datatype KickResult = NoKick | KickAt(index: nat)

  /** The first kick, from index i on, at which the rotated piece fits. */
  function FirstKick(g: Grid, rotated: Tetromino, origin: Point, i: nat): (r: KickResult)
    requires WellFormed(g) && 0 <= rotated.rotationIndex < |rotated.rotations| && i <= |Kicks|
    ensures r.KickAt? ==> i <= r.index < |Kicks| && CanPlace(g, Kicked(rotated, origin, Kicks[r.index]))
    ensures r.KickAt? ==> forall j :: i <= j < r.index ==> !CanPlace(g, Kicked(rotated, origin, Kicks[j]))
    ensures r.NoKick? ==> forall j :: i <= j < |Kicks| ==> !CanPlace(g, Kicked(rotated, origin, Kicks[j]))
    decreases |Kicks| - i
  {
    if i == |Kicks| then NoKick
    else if CanPlace(g, Kicked(rotated, origin, Kicks[i])) then KickAt(i)
    else
      var r := FirstKick(g, rotated, origin, i + 1);
      SkipKick(g, rotated, origin, i, r);
      r
  }

  /** A failed kick i in front of the search from i + 1 on. */
  lemma SkipKick(g: Grid, rotated: Tetromino, origin: Point, i: nat, r: KickResult)
    requires WellFormed(g) && 0 <= rotated.rotationIndex < |rotated.rotations| && i < |Kicks|
    requires !CanPlace(g, Kicked(rotated, origin, Kicks[i]))
    requires r.KickAt? ==> r.index < |Kicks|
    requires r.KickAt? ==> forall j :: i + 1 <= j < r.index ==> !CanPlace(g, Kicked(rotated, origin, Kicks[j]))
    requires r.NoKick? ==> forall j :: i + 1 <= j < |Kicks| ==> !CanPlace(g, Kicked(rotated, origin, Kicks[j]))
    ensures r.KickAt? ==> forall j :: i <= j < r.index ==> !CanPlace(g, Kicked(rotated, origin, Kicks[j]))
    ensures r.NoKick? ==> forall j :: i <= j < |Kicks| ==> !CanPlace(g, Kicked(rotated, origin, Kicks[j]))
  {
  }

  /** The clockwise-rotated piece moved by kick j from the current origin. */
  function KickedPiece(s: Scene, j: int): Tetromino
    requires Sane(s) && 0 <= j < |Kicks|
  {
    Kicked(RotateClockwise(s.current), s.current.position, Kicks[j])
  }

  /** The clockwise-rotated piece fits when moved by kick j. */
  predicate FitsAtKick(s: Scene, j: int)
    requires Sane(s) && 0 <= j < |Kicks|
  {
    CanPlace(s.board, KickedPiece(s, j))
  }

  /** Rotates the piece clockwise, trying the kicks in order and committing
      the first placement that fits; if none fits nothing changes. */
  function AttemptRotate(s: Scene): (r: (Scene, bool))
    requires Sane(s)
    ensures s.state != Playing ==> r == (s, false)
    ensures !r.1 ==> r.0 == s
    ensures s.state == Playing && !r.1 ==> forall j :: 0 <= j < |Kicks| ==> !FitsAtKick(s, j)
    ensures r.1 ==>
      exists k :: 0 <= k < |Kicks| && r.0 == s.(current := KickedPiece(s, k)) && FitsAtKick(s, k) &&
                  forall j :: 0 <= j < k ==> !FitsAtKick(s, j)
    ensures r.1 ==> r.0.current.rotationIndex == (s.current.rotationIndex + 1) % 4 && Shaped(r.0.current)
    ensures r.1 && Valid(s.current) ==> Valid(r.0.current)
    ensures r.1 ==> CanPlace(r.0.board, r.0.current)
  {
    if s.state != Playing then (s, false)
    else
      var rotated := RotateClockwise(s.current);
      match FirstKick(s.board, rotated, s.current.position, 0)
      case NoKick => (s, false)
      case KickAt(k) =>
        assert FitsAtKick(s, k) && forall j :: 0 <= j < k ==> !FitsAtKick(s, j);
        KickedPieceShape(s, k);
        (s.(current := KickedPiece(s, k)), true)
  }

  /** A kicked piece is the next rotation state of the same table. */
  lemma KickedPieceShape(s: Scene, k: int)
    requires Sane(s) && 0 <= k < |Kicks|
    ensures KickedPiece(s, k).rotationIndex == (s.current.rotationIndex + 1) % 4
    ensures Shaped(KickedPiece(s, k))
    ensures Valid(s.current) ==> Valid(KickedPiece(s, k))
  {
    var t := KickedPiece(s, k);
    assert t.rotations == s.current.rotations && t.kind == s.current.kind;
    assert t.rotationIndex == Rem(s.current.rotationIndex + 1, 4);
  }

  // ------------------------------------------------------- locking and scoring

  /** Some block at `at` lands on cell (x, y). */
  predicate Covers(at: Point, bs: seq<Point>, x: int, y: int)
  {
    exists i :: 0 <= i < |bs| && at.x + bs[i].x == x && at.y + bs[i].y == y
  }

  lemma CoversFirstOrRest(at: Point, bs: seq<Point>)
    requires |bs| > 0
    ensures forall x, y :: Covers(at, bs, x, y) <==>
      (at.x + bs[0].x == x && at.y + bs[0].y == y) || Covers(at, bs[1..], x, y)
  {
    forall x, y | Covers(at, bs, x, y)
      ensures (at.x + bs[0].x == x && at.y + bs[0].y == y) || Covers(at, bs[1..], x, y)
    {
      var i :| 0 <= i < |bs| && at.x + bs[i].x == x && at.y + bs[i].y == y;
      if i > 0 {
        assert bs[1..][i - 1] == bs[i];
      }
    }
    forall x, y | Covers(at, bs[1..], x, y)
      ensures Covers(at, bs, x, y)
    {
      var i :| 0 <= i < |bs[1..]| && at.x + bs[1..][i].x == x && at.y + bs[1..][i].y == y;
      assert bs[i + 1] == bs[1..][i];
    }
    forall x, y | at.x + bs[0].x == x && at.y + bs[0].y == y
      ensures Covers(at, bs, x, y)
    {
      assert 0 < |bs|;
    }
  }

  /** Writes colour c, block by block, into every in-range cell the blocks
      at `at` cover; every other cell keeps its colour. */
  function WriteCells(g: Grid, at: Point, bs: seq<Point>, c: TileColor): (r: Grid)
    requires WellFormed(g)
    ensures WellFormed(r)
    ensures forall x, y :: InBounds(x, y) ==> r[x][y] == (if Covers(at, bs, x, y) then c else g[x][y])
    decreases |bs|
  {
    if |bs| == 0 then g
    else
      var x := at.x + bs[0].x;
      var y := at.y + bs[0].y;
      var g' := if 0 <= x < Columns && 0 <= y < Rows then Set(g, c, x, y) else g;
      CoversFirstOrRest(at, bs);
      WriteCells(g', at, bs[1..], c)
  }

  /** The board with the piece's in-range cells painted in its colour. */
  function Stamp(g: Grid, t: Tetromino): (r: Grid)
    requires WellFormed(g) && 0 <= t.rotationIndex < |t.rotations|
    ensures WellFormed(r)
    ensures forall x, y :: InBounds(x, y) ==>
      r[x][y] == (if Covers(t.position, Blocks(t), x, y) then t.kind else g[x][y])
  {
    WriteCells(g, t.position, Blocks(t), t.kind)
  }

  /** Base points of a line clear, before the level multiplier. */
  function LinePoints(n: int): (r: int)
    ensures 0 <= r <= 1200
    ensures r > 0 <==> 1 <= n <= 4
  {
    if n == 1 then 40
    else if n == 2 then 100
    else if n == 3 then 300
    else if n == 4 then 1200
    else 0
  }

  /** Scores and removes the full rows. The rows are cleared in ascending
      order, as the scene does it. Returns the scene and the number of rows. */
  function HandleLineClears(s: Scene): (r: (Scene, int))
    requires Sane(s)
    ensures r.1 == |FullLines(s.board)| && 0 <= r.1 <= Rows
    ensures r.1 == 0 ==> r.0 == s
    ensures r.0.linesCleared == s.linesCleared + r.1
    ensures r.0.score == s.score + s.level * LinePoints(r.1)
    ensures Sane(r.0)
    ensures r.0 == s.(board := r.0.board, score := r.0.score, linesCleared := r.0.linesCleared)
    ensures RowsInRange(FullLines(s.board)) && r.0.board == ClearRowsInOrder(s.board, FullLines(s.board))
  {
    var full := FullLines(s.board);
    if |full| == 0 then
      NoPointsForNoLines(s.level);
      (s, 0)
    else
      var count := |full|;
      (s.(score := s.score + s.level * LinePoints(count),
          linesCleared := s.linesCleared + count,
          board := ClearRowsInOrder(s.board, full)),
       count)
  }

  lemma NoPointsForNoLines(level: int)
    ensures level * LinePoints(0) == 0
  {
    assert LinePoints(0) == 0;
  }

  /** Sets the level from the number of cleared lines. */
  function UpdateLevel(s: Scene): (r: Scene)
    ensures r == s.(level := r.level)
    ensures r.level == s.linesCleared / 10 + 1
  {
    var newLevel := s.linesCleared / 10 + 1;
    if newLevel != s.level then s.(level := newLevel) else s
  }

  /** Level as a function of the cleared lines: it starts at 1, never goes
      down as lines accumulate, and rises by one every ten lines. */
  lemma LevelProgression(s: Scene, lines: int)
    requires 0 <= s.linesCleared <= lines
    ensures 1 <= UpdateLevel(s).level <= UpdateLevel(s.(linesCleared := lines)).level
    ensures UpdateLevel(s.(linesCleared := lines + 10)).level == UpdateLevel(s.(linesCleared := lines)).level + 1
    ensures s.linesCleared < 10 ==> UpdateLevel(s).level == 1
  {
  }

  /** Makes the next piece current, draws a new next kind, disarms the lock
      timer, and ends the game if the new piece does not fit. */
  function Spawn(s: Scene): (r: Scene)
    requires Sane(s)
    ensures Sane(r)
    ensures r.current == MakeTetromino(s.nextKind)
    ensures (r.nextKind, r.seed) == PickKind(s.seed) && !r.lockArmed
    ensures r.state == (if CanPlace(s.board, r.current) then s.state else GameOver)
    ensures r.board == s.board && r.score == s.score && r.level == s.level && r.linesCleared == s.linesCleared
  {
    var piece := MakeTetromino(s.nextKind);
    var (kind, seed') := PickKind(s.seed);
    var s' := s.(current := piece, nextKind := kind, seed := seed', lockArmed := false);
    if !CanPlace(s'.board, piece) then s'.(state := GameOver) else s'
  }

  /** Paints the piece into the board, scores and removes the full rows,
      and updates the level when rows were removed. */
  function Settle(s: Scene): (r: Scene)
    requires Sane(s)
    ensures Sane(r)
    ensures var n := |FullLines(Stamp(s.board, s.current))|;
      && r.linesCleared == s.linesCleared + n
      && r.score == s.score + s.level * LinePoints(n)
      && r.level == (if n > 0 then r.linesCleared / 10 + 1 else s.level)
    ensures r.board == ClearRowsInOrder(Stamp(s.board, s.current), FullLines(Stamp(s.board, s.current)))
    ensures r == s.(board := r.board, score := r.score, linesCleared := r.linesCleared, level := r.level)
  {
    var (cleared, n) := HandleLineClears(s.(board := Stamp(s.board, s.current)));
    if n > 0 then UpdateLevel(cleared) else cleared
  }

  /** Locks the piece: settles it into the board, then spawns the next
      piece, which ends the game if it does not fit. */
  function LockCurrent(s: Scene): (r: Scene)
    requires Sane(s)
    ensures Sane(r)
    ensures s.state != Playing ==> r == s
    ensures s.state == Playing ==>
      && r.current == MakeTetromino(s.nextKind)
      && (r.state == Playing <==> CanPlace(r.board, r.current))
      && (r.state == Playing || r.state == GameOver)
      && r.board == Settle(s).board
      && r.score == Settle(s).score && r.linesCleared == Settle(s).linesCleared && r.level == Settle(s).level
      && (r.nextKind, r.seed) == PickKind(s.seed) && !r.lockArmed
  {
    if s.state != Playing then s
    else Spawn(Settle(s))
  }

  /** The scene with the piece dropped d rows, 2 points per row added and the
      lock timer armed by the final failed step. */
  function Landed(s: Scene, d: int): (r: Scene)
    ensures r == s.(current := r.current, score := r.score, lockArmed := true)
    ensures r.current.position == Point(s.current.position.x, s.current.position.y - d)
    ensures r.current == s.current.(position := r.current.position)
    ensures r.score - s.score == 2 * d
  {
    s.(current := Dropped(s.current, d), score := s.score + 2 * d, lockArmed := true)
  }

  /** The piece d rows lower. */
  function Dropped(t: Tetromino, d: int): Tetromino
  {
    Moved(t, 0, -d)
  }

  /** Landing a live piece on a row where it fits keeps the invariant. */
  lemma LandedInv(s: Scene, d: nat)
    requires Inv(s) && s.state == Playing
    requires d > 0 ==> CanPlace(s.board, Dropped(s.current, d))
    ensures Inv(Landed(s, d))
  {
    if d == 0 {
      assert Dropped(s.current, 0) == s.current;
    }
  }

  /** The loop of a hard drop: moves the piece down one row at a time until
      a move fails. Returns the scene after the failed move and the number
      of rows fallen. */
  method DropSteps(s: Scene) returns (g: Scene, dropped: nat)
    requires Sane(s) && s.state == Playing
    ensures forall k :: 1 <= k <= dropped ==> CanPlace(s.board, Dropped(s.current, k))
    ensures !CanPlace(s.board, Dropped(s.current, dropped + 1))
    ensures g == s.(current := Dropped(s.current, dropped), lockArmed := true)
  {
    g := s;
    dropped := 0;
    while true
      invariant g == s.(current := Dropped(s.current, dropped), lockArmed := g.lockArmed)
      invariant forall k :: 1 <= k <= dropped ==> CanPlace(s.board, Dropped(s.current, k))
      decreases g.current.position.y + 2
    {
      DropStep(s, g, dropped);
      var step := AttemptMove(g, 0, -1);
      if !step.1 {
        g := step.0;
        break;
      }
      FitsExtend(s, dropped);
      g := step.0;
      dropped := dropped + 1;
    }
  }

  /** The rows the piece fits at, counted from its start, grow by one. */
  lemma FitsExtend(s: Scene, d: nat)
    requires Sane(s)
    requires forall k :: 1 <= k <= d ==> CanPlace(s.board, Dropped(s.current, k))
    requires CanPlace(s.board, Dropped(s.current, d + 1))
    ensures forall k :: 1 <= k <= d + 1 ==> CanPlace(s.board, Dropped(s.current, k))
  {
  }

  /** One pass of the drop loop: the move down succeeds iff the piece fits
      one row lower; success lowers it by one row on a board it fits, and
      failure leaves it in place with the lock flag armed. */
  lemma DropStep(s: Scene, g: Scene, d: nat)
    requires Sane(s) && s.state == Playing
    requires g == s.(current := Dropped(s.current, d), lockArmed := g.lockArmed)
    ensures Sane(g)
    ensures AttemptMove(g, 0, -1).1 <==> CanPlace(s.board, Dropped(s.current, d + 1))
    ensures AttemptMove(g, 0, -1).1 ==>
      AttemptMove(g, 0, -1).0 == s.(current := Dropped(s.current, d + 1), lockArmed := false)
      && -2 <= AttemptMove(g, 0, -1).0.current.position.y < g.current.position.y
    ensures !AttemptMove(g, 0, -1).1 ==>
      AttemptMove(g, 0, -1).0 == s.(current := Dropped(s.current, d), lockArmed := true)
  {
    var step := AttemptMove(g, 0, -1);
    assert Moved(g.current, 0, -1) == Dropped(s.current, d + 1);
    if step.1 {
      var t := step.0.current;
      assert CanPlace(g.board, t);
      assert 0 <= t.position.y + Blocks(t)[0].y;
    }
  }

  /** Moves the piece down until it no longer fits, adds two points per row
      fallen, then locks it. Returns the scene and the rows fallen. */
  method HardDrop(s: Scene) returns (r: Scene, dropped: nat)
    requires Sane(s)
    ensures s.state != Playing ==> r == s && dropped == 0
    ensures s.state == Playing ==> forall k :: 1 <= k <= dropped ==> CanPlace(s.board, Dropped(s.current, k))
    ensures s.state == Playing ==> !CanPlace(s.board, Dropped(s.current, dropped + 1))
    ensures s.state == Playing ==> r == LockCurrent(Landed(s, dropped))
    ensures Inv(s) ==> Inv(r)
  {
    if s.state != Playing {
      return s, 0;
    }
    var g;
    g, dropped := DropSteps(s);
    assert g.(score := g.score + dropped * 2) == Landed(s, dropped);
    r := LockCurrent(g.(score := g.score + dropped * 2));
    if Inv(s) {
      LandedInv(s, dropped);
      LockPreservesInv(Landed(s, dropped));
    }
  }

  // ------------------------------------------------------------ game control

  /** Resets the counters, draws the first next kind and spawns. The board is
      left as it is. */
  function StartGame(s: Scene): (r: Scene)
    requires Sane(s)
    ensures r.score == 0 && r.linesCleared == 0 && r.level == 1 && r.board == s.board
    ensures r.state == Playing || r.state == GameOver
    ensures var (k, sd) := PickKind(s.seed);
      && r.current == MakeTetromino(k)
      && (r.nextKind, r.seed) == PickKind(sd)
      && (r.state == Playing <==> CanPlace(s.board, r.current))
      && !r.lockArmed
    ensures Inv(r)
  {
    var (kind, seed') := PickKind(s.seed);
    Spawn(s.(state := Playing, score := 0, level := 1, linesCleared := 0, nextKind := kind, seed := seed'))
  }

  /** Empties the board and starts again. */
  function RestartGame(s: Scene): (r: Scene)
    requires Sane(s)
    ensures Inv(r)
    ensures forall x, y :: InBounds(x, y) ==> r.board[x][y] == None
    ensures r.score == 0 && r.linesCleared == 0 && r.level == 1
    ensures r.state == Playing || r.state == GameOver
    ensures var (k, sd) := PickKind(s.seed);
      && r.current == MakeTetromino(k)
      && (r.nextKind, r.seed) == PickKind(sd)
      && (r.state == Playing <==> CanPlace(Empty(), r.current))
      && !r.lockArmed
  {
    StartGame(s.(board := Empty()))
  }

  /** The board-emptying loops of a restart: every cell set to empty. */
  method ClearBoard(g: Grid) returns (r: Grid)
    requires WellFormed(g)
    ensures r == Empty()
  {
    r := g;
    for x := 0 to Columns
      invariant WellFormed(r)
      invariant forall c, k :: 0 <= c < Columns && 0 <= k < Rows ==> r[c][k] == (if c < x then None else g[c][k])
    {
      for y := 0 to Rows
        invariant WellFormed(r)
        invariant forall c, k :: 0 <= c < Columns && 0 <= k < Rows ==>
          r[c][k] == (if c < x || (c == x && k < y) then None else g[c][k])
      {
        r := Set(r, None, x, y);
      }
    }
    GridsEqual(r, Empty());
  }

  function Pause(s: Scene): Scene
  {
    s.(state := Paused)
  }

  function Resume(s: Scene): Scene
  {
    s.(state := Playing)
  }

  // ------------------------------------------------------------- invariants

  lemma MovePreservesInv(s: Scene, dx: int, dy: int)
    requires Inv(s)
    ensures Inv(AttemptMove(s, dx, dy).0)
  {
  }

  lemma RotatePreservesInv(s: Scene)
    requires Inv(s)
    ensures Inv(AttemptRotate(s).0)
  {
  }

  /** Settling keeps the counters consistent: the level follows the new
      line total and the score only grows. */
  lemma SettleKeepsCounters(s: Scene)
    requires Sane(s) && CountersOk(s)
    ensures CountersOk(Settle(s))
    ensures Settle(s).score >= s.score
  {
  }

  /** A spawn from a consistent scene gives a scene satisfying the invariant. */
  lemma SpawnKeepsInv(s: Scene)
    requires Sane(s) && CountersOk(s) && s.state != Paused
    ensures Inv(Spawn(s))
  {
  }

  lemma LockPreservesInv(s: Scene)
    requires Inv(s)
    ensures Inv(LockCurrent(s))
  {
    if s.state == Playing {
      SettleKeepsCounters(s);
      SpawnKeepsInv(Settle(s));
    }
  }

  /** Pausing a live game and resuming a paused one keep the invariant. */
  lemma PauseResumePreserveInv(s: Scene)
    requires Inv(s)
    ensures s.state == Playing ==> Inv(Pause(s))
    ensures s.state == Paused ==> Inv(Resume(s))
    ensures s.state == Playing ==> Resume(Pause(s)) == s
  {
  }

  // ------------------------------------------------------------- spawn row

  /** L, O, S, T and Z have a block one row above the origin in rotation 0,
      so at the spawn row that block is above the board and the piece never
      fits, whatever the board holds. */
  lemma SpawnBlockedAtTop(g: Grid, kind: TileColor)
    requires WellFormed(g) && kind in {L, O, S, T, Z}
    ensures !CanPlace(g, MakeTetromino(kind))
  {
    var t := MakeTetromino(kind);
    var i := if kind == L || kind == T then 3 else 2;
    assert Blocks(t)[i].y == 1;
    assert !IsEmpty(g, t.position.x + Blocks(t)[i].x, t.position.y + Blocks(t)[i].y);
  }

  /** I and J lie on or below the origin row in rotation 0, so they fit at
      the spawn row of an empty board. */
  lemma SpawnFitsAtTop(kind: TileColor)
    requires kind in {I, J}
    ensures CanPlace(Empty(), MakeTetromino(kind))
  {
  }

  /** The first game draws S from the initial seed, so it ends at once. */
  lemma FirstGameEndsAtOnce()
    ensures StartGame(InitialScene()).state == GameOver
  {
    FirstDraws();
    SpawnBlockedAtTop(Empty(), S);
  }

  /** The highest origin row at which every kind fits in rotation 0. */
  const FittedSpawnRow: int := Rows - 2

  /** A new piece made one row lower than the scene makes it. */
  function FittedSpawn(kind: TileColor): (t: Tetromino)
    requires kind != None
    ensures Valid(t) && t.kind == kind && t.rotationIndex == 0
    ensures t.position == Point(SpawnX, FittedSpawnRow)
  {
    MakeTetromino(kind).(position := Point(SpawnX, FittedSpawnRow))
  }

  /** Every kind fits on an empty board when made one row lower, and no row
      higher works for all kinds. */
  lemma FittedSpawnFits(kind: TileColor)
    requires kind != None
    ensures CanPlace(Empty(), FittedSpawn(kind))
    ensures kind in {L, O, S, T, Z} ==> !CanPlace(Empty(), MakeTetromino(kind))
  {
    FittedSpawnOnEmpty(kind);
    if kind in {L, O, S, T, Z} {
      SpawnBlockedAtTop(Empty(), kind);
    }
  }

  lemma FittedSpawnOnEmpty(kind: TileColor)
    requires kind != None
    ensures CanPlace(Empty(), FittedSpawn(kind))
  {
    var t := FittedSpawn(kind);
    forall i | 0 <= i < |Blocks(t)|
      ensures IsEmpty(Empty(), t.position.x + Blocks(t)[i].x, t.position.y + Blocks(t)[i].y)
    {
      assert Blocks(t) == Rotations(kind)[0];
    }
  }
}
