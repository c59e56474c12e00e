/** Removing several full rows after one lock. The scene clears them in
    ascending order without re-indexing (`ClearRowsInOrder`); removing them
    from the top down (`ClearRowsDescending`) is the order under which every
    index still names the row it named before the first removal. */
module LineClear {
  import opened Tiles
  import opened Board

  predicate RowsInRange(ys: seq<int>)
  {
    forall i :: 0 <= i < |ys| ==> 0 <= ys[i] < Rows
  }

  lemma AppendInRange(ys: seq<int>, y: int)
    requires RowsInRange(ys) && 0 <= y < Rows
    ensures RowsInRange(ys + [y])
  {
    forall i | 0 <= i < |ys + [y]| ensures 0 <= (ys + [y])[i] < Rows {
      if i < |ys| {
        assert (ys + [y])[i] == ys[i];
      }
    }
  }

  /** Clears the listed rows one after another, first index first. */
  function ClearRowsInOrder(g: Grid, ys: seq<int>): (r: Grid)
    requires WellFormed(g) && RowsInRange(ys)
    ensures WellFormed(r)
    ensures |ys| == 0 ==> r == g
    ensures |ys| == 1 ==> r == ClearLine(g, ys[0])
    decreases |ys|
  {
    if |ys| == 0 then g else ClearRowsInOrder(ClearLine(g, ys[0]), ys[1..])
  }

  /** Clears the listed rows one after another, last index first. */
  function ClearRowsDescending(g: Grid, ys: seq<int>): (r: Grid)
    requires WellFormed(g) && RowsInRange(ys)
    ensures WellFormed(r)
    ensures |ys| == 0 ==> r == g
    ensures |ys| == 1 ==> r == ClearLine(g, ys[0])
    decreases |ys|
  {
    if |ys| == 0 then g else ClearRowsDescending(ClearLine(g, ys[|ys| - 1]), ys[..|ys| - 1])
  }

  /** Row y read across the columns. */
  function RowOf(g: Grid, y: int): (row: seq<TileColor>)
    requires WellFormed(g) && 0 <= y < Rows
    ensures |row| == Columns
    ensures forall x :: 0 <= x < Columns ==> row[x] == g[x][y]
  {
    seq(Columns, x requires 0 <= x < Columns => g[x][y])
  }

  /** The board read row by row, floor first. */
  function RowsOf(g: Grid): (rs: seq<seq<TileColor>>)
    requires WellFormed(g)
    ensures |rs| == Rows
    ensures forall y :: 0 <= y < Rows ==> rs[y] == RowOf(g, y)
  {
    seq(Rows, y requires 0 <= y < Rows => RowOf(g, y))
  }

  predicate IsFullRow(row: seq<TileColor>)
  {
    forall x :: 0 <= x < |row| ==> row[x] != None
  }

  function EmptyRow(): seq<TileColor>
  {
    seq(Columns, _ => None)
  }

  function EmptyRows(k: nat): seq<seq<TileColor>>
  {
    seq(k, _ => EmptyRow())
  }

  /** The rows that are not full, in their original order. */
  function KeptRows(rs: seq<seq<TileColor>>): seq<seq<TileColor>>
  {
    if |rs| == 0 then []
    else KeptRows(rs[..|rs| - 1]) + (if IsFullRow(rs[|rs| - 1]) then [] else [rs[|rs| - 1]])
  }

  /** Read row by row, removing row y deletes that row from the list and
      appends an empty row on top. */
  lemma ClearLineRows(g: Grid, y: int)
    requires WellFormed(g) && 0 <= y < Rows
    ensures RowsOf(ClearLine(g, y)) == RowsOf(g)[..y] + RowsOf(g)[y + 1..] + [EmptyRow()]
  {
    var c := ClearLine(g, y);
    var a := RowsOf(c);
    var b := RowsOf(g)[..y] + RowsOf(g)[y + 1..] + [EmptyRow()];
    assert |a| == |b|;
    forall k | 0 <= k < Rows
      ensures a[k] == b[k]
    {
      if k < y {
        assert b[k] == RowOf(g, k);
        assert forall x :: 0 <= x < Columns ==> a[k][x] == b[k][x];
      } else if k < Rows - 1 {
        assert b[k] == RowOf(g, k + 1);
        assert forall x :: 0 <= x < Columns ==> a[k][x] == b[k][x];
      } else {
        assert b[k] == EmptyRow();
        assert forall x :: 0 <= x < Columns ==> a[k][x] == b[k][x];
      }
    }
  }

  /** The full rows below n depend only on the cells below n. */
  lemma {:induction false} FullRowsBelowAgree(g: Grid, h: Grid, n: int)
    requires WellFormed(g) && WellFormed(h) && 0 <= n <= Rows
    requires forall x, k :: 0 <= x < Columns && 0 <= k < n ==> g[x][k] == h[x][k]
    ensures FullRowsBelow(g, n) == FullRowsBelow(h, n)
    decreases n
  {
    if n > 0 {
      FullRowsBelowAgree(g, h, n - 1);
      RowFullAgree(g, h, n - 1);
    }
  }

  /** Whether a row is full depends only on the cells of that row. */
  lemma RowFullAgree(g: Grid, h: Grid, y: int)
    requires WellFormed(g) && WellFormed(h) && 0 <= y < Rows
    requires forall x :: 0 <= x < Columns ==> g[x][y] == h[x][y]
    ensures RowFull(g, y) <==> RowFull(h, y)
  {
  }

  /** List algebra behind one removal: dropping the full row n-1 and adding
      an empty row on top turns the compaction of the remaining prefix into
      the compaction of the longer one. */
  lemma KeptRowsDropFull(rs: seq<seq<TileColor>>, rs': seq<seq<TileColor>>, n: int, k: nat)
    requires 0 < n <= |rs| && IsFullRow(rs[n - 1])
    requires rs' == rs[..n - 1] + rs[n..] + [EmptyRow()]
    ensures KeptRows(rs'[..n - 1]) + rs'[n - 1..] + EmptyRows(k)
         == KeptRows(rs[..n]) + rs[n..] + EmptyRows(k + 1)
  {
    assert rs'[..n - 1] == rs[..n - 1];
    assert rs'[n - 1..] == rs[n..] + [EmptyRow()];
    assert rs[..n][..n - 1] == rs[..n - 1];
    assert KeptRows(rs[..n]) == KeptRows(rs[..n - 1]);
    assert EmptyRows(k + 1) == [EmptyRow()] + EmptyRows(k);
  }

  /** List algebra behind passing over a row that is not full. */
  lemma KeptRowsPassOver(rs: seq<seq<TileColor>>, n: int, k: nat)
    requires 0 < n <= |rs| && !IsFullRow(rs[n - 1])
    ensures KeptRows(rs[..n - 1]) + rs[n - 1..] + EmptyRows(k)
         == KeptRows(rs[..n]) + rs[n..] + EmptyRows(k)
  {
    assert rs[..n][..n - 1] == rs[..n - 1];
    assert KeptRows(rs[..n]) == KeptRows(rs[..n - 1]) + [rs[n - 1]];
    assert rs[n - 1..] == [rs[n - 1]] + rs[n..];
  }

  /** The compaction invariant survives removing a full row n-1 above the
      rows that remain to be removed. */
  lemma CompactStepFull(g: Grid, n: int, prev: seq<int>)
    requires WellFormed(g) && 0 < n <= Rows && RowFull(g, n - 1)
    requires RowsInRange(prev)
    requires RowsOf(ClearRowsDescending(ClearLine(g, n - 1), prev))
          == KeptRows(RowsOf(ClearLine(g, n - 1))[..n - 1]) + RowsOf(ClearLine(g, n - 1))[n - 1..] + EmptyRows(|prev|)
    ensures RowsInRange(prev + [n - 1])
    ensures RowsOf(ClearRowsDescending(g, prev + [n - 1]))
         == KeptRows(RowsOf(g)[..n]) + RowsOf(g)[n..] + EmptyRows(|prev| + 1)
  {
    DescendingPeel(g, prev, n - 1);
    RemoveFullRowAlgebra(g, n, |prev|);
    SameRows(ClearRowsDescending(g, prev + [n - 1]), ClearRowsDescending(ClearLine(g, n - 1), prev),
             KeptRows(RowsOf(ClearLine(g, n - 1))[..n - 1]) + RowsOf(ClearLine(g, n - 1))[n - 1..] + EmptyRows(|prev|),
             KeptRows(RowsOf(g)[..n]) + RowsOf(g)[n..] + EmptyRows(|prev| + 1));
  }

  /** The row-list form of removing the full row n-1 from the grid. */
  lemma RemoveFullRowAlgebra(g: Grid, n: int, k: nat)
    requires WellFormed(g) && 0 < n <= Rows && RowFull(g, n - 1)
    ensures KeptRows(RowsOf(ClearLine(g, n - 1))[..n - 1]) + RowsOf(ClearLine(g, n - 1))[n - 1..] + EmptyRows(k)
         == KeptRows(RowsOf(g)[..n]) + RowsOf(g)[n..] + EmptyRows(k + 1)
  {
    var rs := RowsOf(g);
    var rs' := RowsOf(ClearLine(g, n - 1));
    assert rs' == rs[..n - 1] + rs[n..] + [EmptyRow()] by {
      ClearLineRows(g, n - 1);
    }
    assert IsFullRow(rs[n - 1]) by {
      FullRowView(g, n - 1);
    }
    KeptRowsDropFull(rs, rs', n, k);
  }

  /** Equal boards read as equal row lists, and equal lists chain. */
  lemma SameRows(a: Grid, b: Grid, m: seq<seq<TileColor>>, e: seq<seq<TileColor>>)
    requires WellFormed(a) && a == b
    requires RowsOf(b) == m && m == e
    ensures RowsOf(a) == e
  {
  }

  /** Clearing `prev + [y]` from the top down starts by clearing row y. */
  lemma DescendingPeel(g: Grid, prev: seq<int>, y: int)
    requires WellFormed(g) && RowsInRange(prev) && 0 <= y < Rows
    ensures RowsInRange(prev + [y])
    ensures ClearRowsDescending(g, prev + [y]) == ClearRowsDescending(ClearLine(g, y), prev)
  {
    AppendInRange(prev, y);
    var ys := prev + [y];
    assert ys[..|ys| - 1] == prev;
  }

  /** A full row of the grid is a full row of the row view. */
  lemma FullRowView(g: Grid, y: int)
    requires WellFormed(g) && 0 <= y < Rows && RowFull(g, y)
    ensures IsFullRow(RowsOf(g)[y])
  {
  }

  /** The compaction invariant survives passing over a row n-1 that is not full. */
  lemma CompactStepKept(g: Grid, n: int, ys: seq<int>)
    requires WellFormed(g) && 0 < n <= Rows && !RowFull(g, n - 1)
    requires RowsInRange(ys)
    requires RowsOf(ClearRowsDescending(g, ys))
          == KeptRows(RowsOf(g)[..n - 1]) + RowsOf(g)[n - 1..] + EmptyRows(|ys|)
    ensures RowsOf(ClearRowsDescending(g, ys))
         == KeptRows(RowsOf(g)[..n]) + RowsOf(g)[n..] + EmptyRows(|ys|)
  {
    assert !IsFullRow(RowsOf(g)[n - 1]) by {
      var x :| 0 <= x < Columns && g[x][n - 1] == None;
      assert RowOf(g, n - 1)[x] == None;
    }
    KeptRowsPassOver(RowsOf(g), n, |ys|);
  }

  /** Clearing the full rows below n from the top down keeps the other rows
      below n in order, moves the rows from n upward down to follow them,
      and fills the top with one empty row per removed row. */
  lemma {:induction false} DescendingClearCompactsBelow(g: Grid, n: int)
    requires WellFormed(g) && 0 <= n <= Rows
    ensures RowsInRange(FullRowsBelow(g, n))
    ensures RowsOf(ClearRowsDescending(g, FullRowsBelow(g, n)))
         == KeptRows(RowsOf(g)[..n]) + RowsOf(g)[n..] + EmptyRows(|FullRowsBelow(g, n)|)
    decreases n, 3
  {
    FullRowsInRange(g, n);
    if n == 0 {
      assert RowsOf(g)[..0] == [] && RowsOf(g)[0..] == RowsOf(g);
      assert EmptyRows(0) == [];
    } else if RowFull(g, n - 1) {
      CompactFullCase(g, n);
    } else {
      CompactKeptCase(g, n);
    }
  }

  /** Clearing row y leaves the full rows below y as they were. */
  lemma FullRowsBelowAfterClear(g: Grid, y: int)
    requires WellFormed(g) && 0 <= y < Rows
    ensures FullRowsBelow(ClearLine(g, y), y) == FullRowsBelow(g, y)
  {
    FullRowsBelowAgree(g, ClearLine(g, y), y);
  }

  /** The induction hypothesis for the board with row n-1 removed, stated
      with the full rows below n-1 of the original board. */
  lemma {:induction false} CompactAfterClear(g: Grid, n: int)
    requires WellFormed(g) && 0 < n <= Rows
    ensures RowsInRange(FullRowsBelow(g, n - 1))
    ensures RowsOf(ClearRowsDescending(ClearLine(g, n - 1), FullRowsBelow(g, n - 1)))
         == KeptRows(RowsOf(ClearLine(g, n - 1))[..n - 1]) + RowsOf(ClearLine(g, n - 1))[n - 1..]
            + EmptyRows(|FullRowsBelow(g, n - 1)|)
    decreases n, 1
  {
    FullRowsBelowAfterClear(g, n - 1);
    CompactSameFullRows(g, ClearLine(g, n - 1), n - 1);
  }

  /** The induction hypothesis for a board h that has the same full rows
      below m as g, stated with g's list of full rows. */
  lemma {:induction false} CompactSameFullRows(g: Grid, h: Grid, m: int)
    requires WellFormed(g) && WellFormed(h) && 0 <= m < Rows
    requires FullRowsBelow(h, m) == FullRowsBelow(g, m)
    ensures RowsInRange(FullRowsBelow(g, m))
    ensures RowsOf(ClearRowsDescending(h, FullRowsBelow(g, m)))
         == KeptRows(RowsOf(h)[..m]) + RowsOf(h)[m..] + EmptyRows(|FullRowsBelow(g, m)|)
    decreases m + 1, 0
  {
    DescendingClearCompactsBelow(h, m);
  }

  lemma {:induction false} CompactFullCase(g: Grid, n: int)
    requires WellFormed(g) && 0 < n <= Rows && RowFull(g, n - 1)
    ensures RowsInRange(FullRowsBelow(g, n))
    ensures RowsOf(ClearRowsDescending(g, FullRowsBelow(g, n)))
         == KeptRows(RowsOf(g)[..n]) + RowsOf(g)[n..] + EmptyRows(|FullRowsBelow(g, n)|)
    decreases n, 2
  {
    var prev := FullRowsBelow(g, n - 1);
    assert FullRowsBelow(g, n) == prev + [n - 1];
    CompactAfterClear(g, n);
    CompactStepFull(g, n, prev);
  }

  lemma {:induction false} CompactKeptCase(g: Grid, n: int)
    requires WellFormed(g) && 0 < n <= Rows && !RowFull(g, n - 1)
    ensures RowsInRange(FullRowsBelow(g, n))
    ensures RowsOf(ClearRowsDescending(g, FullRowsBelow(g, n)))
         == KeptRows(RowsOf(g)[..n]) + RowsOf(g)[n..] + EmptyRows(|FullRowsBelow(g, n)|)
    decreases n, 2
  {
    var prev := FullRowsBelow(g, n - 1);
    assert FullRowsBelow(g, n) == prev + [] == prev;
    assert RowsInRange(prev) by {
      FullRowsInRange(g, n - 1);
    }
    assert RowsOf(ClearRowsDescending(g, prev))
        == KeptRows(RowsOf(g)[..n]) + RowsOf(g)[n..] + EmptyRows(|prev|) by {
      DescendingClearCompactsBelow(g, n - 1);
      CompactStepKept(g, n, prev);
    }
  }

  /** No row kept by `KeptRows` is full. */
  lemma {:induction false} KeptRowsNotFull(rs: seq<seq<TileColor>>)
    ensures forall i :: 0 <= i < |KeptRows(rs)| ==> !IsFullRow(KeptRows(rs)[i])
    decreases |rs|
  {
    if |rs| > 0 {
      var front := rs[..|rs| - 1];
      KeptRowsNotFull(front);
      var tail := if IsFullRow(rs[|rs| - 1]) then [] else [rs[|rs| - 1]];
      assert KeptRows(rs) == KeptRows(front) + tail;
    }
  }

  /** Below a height where no row is full, no full line is collected. */
  lemma {:induction false} NoFullRowsBelow(g: Grid, n: int)
    requires WellFormed(g) && 0 <= n <= Rows
    requires forall y :: 0 <= y < n ==> !RowFull(g, y)
    ensures FullRowsBelow(g, n) == []
    decreases n
  {
    if n > 0 {
      NoFullRowsBelow(g, n - 1);
    }
  }

  /** Neither a kept row nor an added empty row is full. */
  lemma CompactedRowsNotFull(rs: seq<seq<TileColor>>, k: nat)
    ensures forall i :: 0 <= i < |KeptRows(rs) + EmptyRows(k)| ==> !IsFullRow((KeptRows(rs) + EmptyRows(k))[i])
  {
    KeptRowsNotFull(rs);
    var kept := KeptRows(rs);
    var all := kept + EmptyRows(k);
    forall i | 0 <= i < |all|
      ensures !IsFullRow(all[i])
    {
      if i < |kept| {
        assert all[i] == kept[i];
      } else {
        assert all[i] == EmptyRow();
        assert all[i][0] == None;
      }
    }
  }

  /** A row of the row view that is not full is a row of the board that is not full. */
  lemma RowViewNotFull(g: Grid)
    requires WellFormed(g)
    requires forall y :: 0 <= y < Rows ==> !IsFullRow(RowsOf(g)[y])
    ensures forall y :: 0 <= y < Rows ==> !RowFull(g, y)
  {
    forall y | 0 <= y < Rows
      ensures !RowFull(g, y)
    {
      assert RowsOf(g)[y] == RowOf(g, y);
      assert !IsFullRow(RowOf(g, y));
      var x :| 0 <= x < Columns && RowOf(g, y)[x] == None;
      assert g[x][y] == None;
    }
  }

  /** A board whose row view is a compaction has no full row. */
  lemma CompactedBoardNotFull(res: Grid, rs: seq<seq<TileColor>>, k: nat)
    requires WellFormed(res) && RowsOf(res) == KeptRows(rs) + EmptyRows(k)
    ensures forall y :: 0 <= y < Rows ==> !RowFull(res, y)
  {
    CompactedRowsNotFull(rs, k);
    RowViewNotFull(res);
  }

  /** Clearing every full row from the top down leaves no full row. */
  lemma DescendingClearLeavesNoFullRow(g: Grid)
    requires WellFormed(g)
    ensures RowsInRange(FullLines(g))
    ensures FullLines(ClearRowsDescending(g, FullLines(g))) == []
  {
    var full := FullLines(g);
    var res := ClearRowsDescending(g, full);
    DescendingClearAll(g);
    CompactedBoardNotFull(res, RowsOf(g), |full|);
    NoFullRowsBelow(res, Rows);
  }

  /** Over the whole board, the top-down clear keeps the rows that are not
      full, in order, and adds one empty row per full row. */
  lemma DescendingClearAll(g: Grid)
    requires WellFormed(g)
    ensures RowsInRange(FullLines(g))
    ensures RowsOf(ClearRowsDescending(g, FullLines(g))) == KeptRows(RowsOf(g)) + EmptyRows(|FullLines(g)|)
  {
    var full := FullLines(g);
    assert full == FullRowsBelow(g, Rows);
    var rs := RowsOf(g);
    DescendingClearCompactsBelow(g, Rows);
    assert rs[..Rows] == rs;
    assert rs[Rows..] == [];
    assert KeptRows(rs) + [] == KeptRows(rs);
  }

  /** A board whose two bottom rows are full and whose other rows are empty. */
  function TwoFullRows(): (g: Grid)
    ensures WellFormed(g)
    ensures forall x :: 0 <= x < Columns ==> g[x][0] == I && g[x][1] == I
    ensures forall x, y :: 0 <= x < Columns && 2 <= y < Rows ==> g[x][y] == None
  {
    seq(Columns, _ => [I, I] + seq(Rows - 2, _ => None))
  }

  lemma {:induction false} TwoFullRowsBelow(n: int)
    requires 2 <= n <= Rows
    ensures FullRowsBelow(TwoFullRows(), n) == [0, 1]
    decreases n
  {
    var g := TwoFullRows();
    if n == 2 {
      assert RowFull(g, 0) && RowFull(g, 1);
      assert FullRowsBelow(g, 1) == [0];
      assert FullRowsBelow(g, 2) == [0] + [1];
    } else {
      TwoFullRowsBelow(n - 1);
      assert g[0][n - 1] == None;
      assert !RowFull(g, n - 1);
      assert FullRowsBelow(g, n) == FullRowsBelow(g, n - 1) + [];
    }
  }

  /** On that board the ascending clear of the scene removes row 0 and then
      the row that was originally row 2, so a full row survives. */
  lemma AscendingClearLeavesFullRow()
    ensures FullLines(TwoFullRows()) == [0, 1]
    ensures RowFull(ClearRowsInOrder(TwoFullRows(), [0, 1]), 0)
    ensures FullLines(ClearRowsInOrder(TwoFullRows(), FullLines(TwoFullRows()))) != []
  {
    TwoFullRowsBelow(Rows);
    var g := TwoFullRows();
    var twice := ClearLine(ClearLine(g, 0), 1);
    AscendingTwoSteps(g);
    OldRowTwoFull(g);
    FullRowsBelowSpec(twice, Rows);
    assert 0 in FullLines(twice);
  }

  /** Clearing rows 0 and 1 in ascending order is two single clears. */
  lemma AscendingTwoSteps(g: Grid)
    requires WellFormed(g)
    ensures ClearRowsInOrder(g, [0, 1]) == ClearLine(ClearLine(g, 0), 1)
  {
    assert [0, 1][1..] == [1];
    assert [0, 1][1..][1..] == [];
  }

  /** After clearing row 0 and then row 1 of the two-full-row board, row 0
      holds what was row 1 and is still full. */
  lemma OldRowTwoFull(g: Grid)
    requires g == TwoFullRows()
    ensures RowFull(ClearLine(ClearLine(g, 0), 1), 0)
  {
    var once := ClearLine(g, 0);
    assert forall x :: 0 <= x < Columns ==> once[x][0] == I;
  }
}
