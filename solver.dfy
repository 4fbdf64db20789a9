/**
  The solver's state and its imperative operations.

  The globals of the program become the fields of one Solver object: the
  bordered grid (thread 0's buffer), the list of unknown cells with its
  sentinel, the number of unknowns, the mine target and the three options.
  Every contract speaks about Snapshot(grid), the grid read as a value.
*/
module Solver {
  import opened Board
  import opened Consistency
  import opened Scan
  import opened Sorting
  import opened Propagation
  import opened SearchSpec

  /** The contents of a 2D array as a sequence of rows. */
  function Snapshot(a: array2<int>): (g: Grid)
    reads a
    ensures |g| == a.Length0 && forall i :: 0 <= i < |g| ==> |g[i]| == a.Length1
    ensures forall i, j :: 0 <= i < a.Length0 && 0 <= j < a.Length1 ==> g[i][j] == a[i, j]
  {
    seq(a.Length0, i requires 0 <= i < a.Length0 reads a =>
      seq(a.Length1, j requires 0 <= j < a.Length1 reads a => a[i, j]))
  }

  class Solver {
    const nrows: int
    const ncols: int
    /** Search for one goal state only (the default) or for all of them. */
    const single: bool
    const preresolve: bool
    const sort: bool
    /** The grid, ring included, as character codes. */
    const grid: array2<int>
    /** The decision cells, row-major or sorted, ended by the sentinel. */
    const ind: array<Pos>
    var totalUnknowns: int
    /** The number of mines wanted; -1 when no target is set. */
    var mineTarget: int

    /** The buffers have the board's dimensions; the unknown list can hold every cell plus the sentinel. */
    predicate Shaped()
      reads this
    {
      && grid.Length0 == nrows && grid.Length1 == ncols
      && nrows >= 2 && ncols >= 2
      && ind.Length == nrows * ncols + 1
    }

    /** The grid also carries the parser's ring of mine-off cells. */
    ghost predicate Valid()
      reads this, grid
    {
      Shaped() && Bordered(Snapshot(grid))
    }

    /** The unknown list is in place: distinct interior cells followed by the sentinel. */
    ghost predicate Indexed()
      reads this, grid, ind
    {
      && Valid()
      && 0 <= totalUnknowns < ind.Length
      && ValidDecisions(Snapshot(grid), ind[..totalUnknowns])
      && ind[totalUnknowns] == Sentinel
    }

    /**
      The state parse_input leaves behind: the board, already surrounded
      by its ring, in a fresh buffer, an unknown list with room for every
      cell and its sentinel, and the options read from the command line.
    */
    constructor (board: Grid, target: int, single: bool, preresolve: bool, sort: bool)
      requires Bordered(board)
      ensures Valid() && Snapshot(grid) == board
      ensures mineTarget == target && totalUnknowns == 0
      ensures this.single == single && this.preresolve == preresolve && this.sort == sort
      ensures fresh(grid) && fresh(ind)
    {
      nrows := |board|;
      ncols := Width(board);
      this.single := single;
      this.preresolve := preresolve;
      this.sort := sort;
      var w := Width(board);
      grid := new int[|board|, w]((i, j) requires 0 <= i < |board| && 0 <= j < w => board[i][j]);
      ind := new Pos[|board| * w + 1](_ => Sentinel);
      totalUnknowns := 0;
      mineTarget := target;
      new;
      GridExt(Snapshot(grid), board);
    }

    /** One grid write, grid[row][col] = v, on an interior cell. */
    method SetCell(p: Pos, v: int)
      requires Valid() && Interior(Snapshot(grid), p)
      modifies grid
      ensures Valid() && Snapshot(grid) == Set(old(Snapshot(grid)), p, v)
    {
      ghost var g := Snapshot(grid);
      grid[p.0, p.1] := v;
      SetKeepsBorder(g, p, v);
      GridExt(Snapshot(grid), Set(g, p, v));
    }

    /** Resets every decision cell from index i on to unknown. */
    method ClearUnknowns(i: int)
      requires Indexed() && 0 <= i
      modifies grid
      ensures Indexed()
      ensures forall q :: InRange(old(Snapshot(grid)), q) ==>
                At(Snapshot(grid), q) == if ListedFrom(ind[..totalUnknowns], i, q) then Unknown else At(old(Snapshot(grid)), q)
    {
      ghost var g0 := Snapshot(grid);
      ghost var inds := ind[..totalUnknowns];
      var k := i;
      while k < totalUnknowns
        invariant Valid() && k >= i && (k == i || k <= totalUnknowns)
        invariant |Snapshot(grid)| == |g0| && Width(Snapshot(grid)) == Width(g0)
        invariant forall q :: InRange(g0, q) ==>
                    At(Snapshot(grid), q) == if ListedBetween(inds, i, k, q) then Unknown else At(g0, q)
      {
        ghost var g := Snapshot(grid);
        assert inds[k] == ind[k];
        SetCell(ind[k], Unknown);
        forall q | InRange(g0, q)
          ensures At(Snapshot(grid), q) == if ListedBetween(inds, i, k + 1, q) then Unknown else At(g0, q)
        {
          ListedStep(inds, i, k, q);
        }
        k := k + 1;
      }
      forall q | InRange(g0, q)
        ensures ListedBetween(inds, i, k, q) == ListedFrom(inds, i, q)
      {
        ListedToEnd(inds, i, k, q);
      }
    }
    /**
      Lists the unknown interior cells row by row, ends the list with the
      sentinel and returns its length.
    */
    method FindUnknowns() returns (n: int)
      requires Valid()
      modifies ind
      ensures 0 <= n < ind.Length
      ensures ind[..n] == ScanUnknowns(Snapshot(grid)) && ind[n] == Sentinel
      ensures n == |UnknownSet(Snapshot(grid))|
    {
      ghost var g := Snapshot(grid);
      assert |g| == nrows && Width(g) == ncols;
      n := 0;
      var i := 1;
      while i < nrows - 1
        invariant 1 <= i <= nrows - 1
        invariant 0 <= n <= ind.Length && ind[..n] == RowsUnknowns(g, i)
      {
        var next := i + 1;
        n := FindInRow(i, next, n);
        i := next;
      }
      ScanFitsAll(g);
      ghost var found := ind[..n];
      ind[n] := Sentinel;
      assert ind[..n] == found;
      ScanCountsUnknowns(g);
    }

    /**
      The inner loop of FindUnknowns: appends the unknown cells of row i.
      The caller names i + 1 as next, so that this postcondition and its
      loop invariant speak of the same row without arithmetic inside a
      function application, which the verifier matches only at great cost.
    */
    method FindInRow(i: int, next: int, n0: int) returns (n: int)
      requires Shaped() && 1 <= i < nrows - 1 && next == i + 1
      requires 0 <= n0 <= ind.Length && ind[..n0] == RowsUnknowns(Snapshot(grid), i)
      modifies ind
      ensures 0 <= n <= ind.Length && ind[..n] == RowsUnknowns(Snapshot(grid), next)
    {
      ghost var g := Snapshot(grid);
      assert |g| == nrows && Width(g) == ncols;
      ghost var above := RowsUnknowns(g, i);
      n := n0;
      var j := 1;
      while j < ncols - 1
        invariant 1 <= j <= ncols - 1
        invariant 0 <= n <= ind.Length && ind[..n] == above + RowUnknowns(g, i, j)
      {
        ghost var before := ind[..n];
        ghost var row := RowUnknowns(g, i, j);
        assert g[i][j] == grid[i, j];
        if grid[i, j] == Unknown {
          ScanFits(g, i, j);
          ind[n] := (i, j);
          n := n + 1;
          assert ind[..n] == before + [(i, j)];
          assert before + [(i, j)] == above + (row + [(i, j)]);
        }
        j := j + 1;
      }
    }

    /**
      resolve_tile: when the numbered tile at (row, col) is saturated one
      way or the other (its number equals its mines plus its unknowns, or
      its mines alone), decides every unknown around it accordingly, then
      tries again around each cell it decided.  Returns the number of
      cells decided by this call and the calls it makes.
    */
    method ResolveTile(row: int, col: int) returns (resolved: int)
      requires Valid() && InRange(Snapshot(grid), (row, col))
      modifies grid
      decreases |UnknownSet(Snapshot(grid))|, 1
      ensures Valid() && Extends(old(Snapshot(grid)), Snapshot(grid))
      ensures resolved == |UnknownSet(old(Snapshot(grid)))| - |UnknownSet(Snapshot(grid))|
      ensures !Fires(old(Snapshot(grid)), (row, col)) ==> resolved == 0 && Snapshot(grid) == old(Snapshot(grid))
      ensures Fires(old(Snapshot(grid)), (row, col)) ==>
                && Interior(old(Snapshot(grid)), (row, col))
                && BlockDecided(old(Snapshot(grid)), Snapshot(grid), (row, col), Forced(old(Snapshot(grid)), (row, col)))
                && CountAround(Snapshot(grid), (row, col), Mines) == TileNum(At(Snapshot(grid), (row, col)))
                && CountAround(Snapshot(grid), (row, col), Unknowns) == 0
    {
      ghost var g := Snapshot(grid);
      ghost var p := (row, col);
      var tileNum := grid[row, col] + TileAdjust;
      assert At(g, p) == grid[row, col];
      if tileNum < 0 || tileNum > 8 {
        return 0;
      }
      NumberIsInterior(g, p);
      var found, unknowns, mines := CollectAround(row, col);
      var turnOn: bool;
      if tileNum == mines + unknowns {
        turnOn := true;
      } else if tileNum == mines {
        turnOn := false;
      } else {
        return 0;
      }
      resolved := unknowns;
      ghost var list := found[..unknowns];
      var v := if turnOn then MineOn else MineOff;
      assert v == Forced(g, p);
      UnknownsFirstSpec(g, p, 9);
      RowMajorIsDistinct(list);
      DecideAll(found, unknowns, v, list);
      ghost var g1 := Snapshot(grid);
      var more := ResolveAround(found, unknowns, list, |UnknownSet(g)|);
      resolved := resolved + more;
      ghost var h := Snapshot(grid);
      ExtendsTrans(g, g1, h);
      DecidedBlock(g, g1, h, p, list);
    }

    /**
      The first loop of resolve_tile: scans the 3x3 block around a
      numbered tile, recording its unknown cells in scan order and
      counting its mines.
    */
    method CollectAround(row: int, col: int) returns (found: array<Pos>, unknowns: int, mines: int)
      requires 1 <= row < grid.Length0 - 1 && 1 <= col < grid.Length1 - 1 && IsNumber(grid[row, col])
      ensures fresh(found) && found.Length == 8 && 0 <= unknowns <= 8
      ensures unknowns == CountAround(Snapshot(grid), (row, col), Unknowns)
      ensures mines == CountAround(Snapshot(grid), (row, col), Mines)
      ensures found[..unknowns] == UnknownsFirst(Snapshot(grid), (row, col), 9)
    {
      ghost var g := Snapshot(grid);
      assert At(g, (row, col)) == grid[row, col];
      found := new Pos[8];
      unknowns, mines := 0, 0;
      ghost var list: seq<Pos> := [];
      var i := -1;
      while i < 2
        invariant -1 <= i <= 2
        invariant unknowns == CountFirst(g, (row, col), Unknowns, 3 * (i + 1)) <= 8
        invariant mines == CountFirst(g, (row, col), Mines, 3 * (i + 1))
        invariant list == UnknownsFirst(g, (row, col), 3 * (i + 1)) && |list| == unknowns
        invariant forall m :: 0 <= m < unknowns ==> found[m] == list[m]
      {
        unknowns, mines, list := CollectRow(g, row, col, i, found, unknowns, mines, list);
        i := i + 1;
      }
      assert found[..unknowns] == list;
    }

    /** The inner loop of CollectAround: the three cells at row offset i. */
    method CollectRow(ghost g: Grid, row: int, col: int, i: int, found: array<Pos>,
                      unknowns0: int, mines0: int, ghost list0: seq<Pos>)
      returns (unknowns: int, mines: int, ghost list: seq<Pos>)
      requires g == Snapshot(grid) && Rect(g) && Interior(g, (row, col)) && IsNumber(At(g, (row, col)))
      requires -1 <= i <= 1 && found.Length == 8
      requires unknowns0 == CountFirst(g, (row, col), Unknowns, 3 * (i + 1)) <= 8
      requires mines0 == CountFirst(g, (row, col), Mines, 3 * (i + 1))
      requires list0 == UnknownsFirst(g, (row, col), 3 * (i + 1)) && |list0| == unknowns0
      requires forall m :: 0 <= m < unknowns0 ==> found[m] == list0[m]
      modifies found
      ensures unknowns == CountFirst(g, (row, col), Unknowns, 3 * (i + 2)) <= 8
      ensures mines == CountFirst(g, (row, col), Mines, 3 * (i + 2))
      ensures list == UnknownsFirst(g, (row, col), 3 * (i + 2)) && |list| == unknowns
      ensures forall m :: 0 <= m < unknowns ==> found[m] == list[m]
    {
      unknowns, mines, list := unknowns0, mines0, list0;
      ghost var n := 3 * (i + 1);
      var j := -1;
      while j < 2
        invariant -1 <= j <= 2 && n == 3 * (i + 1) + (j + 1)
        invariant unknowns == CountFirst(g, (row, col), Unknowns, n) <= 8 && mines == CountFirst(g, (row, col), Mines, n)
        invariant list == UnknownsFirst(g, (row, col), n) && |list| == unknowns
        invariant forall m :: 0 <= m < unknowns ==> found[m] == list[m]
      {
        unknowns, mines, list := CollectCell(g, row, col, i, j, found, unknowns, mines, list);
        n := n + 1;
        j := j + 1;
      }
    }

    /** The body of CollectAround's loops: the cell at offset (i, j). */
    method CollectCell(ghost g: Grid, row: int, col: int, i: int, j: int, found: array<Pos>,
                       unknowns0: int, mines0: int, ghost list0: seq<Pos>)
      returns (unknowns: int, mines: int, ghost list: seq<Pos>)
      requires g == Snapshot(grid) && Rect(g) && Interior(g, (row, col)) && IsNumber(At(g, (row, col)))
      requires -1 <= i <= 1 && -1 <= j <= 1 && found.Length == 8
      requires unknowns0 == CountFirst(g, (row, col), Unknowns, 3 * (i + 1) + (j + 1))
      requires mines0 == CountFirst(g, (row, col), Mines, 3 * (i + 1) + (j + 1))
      requires list0 == UnknownsFirst(g, (row, col), 3 * (i + 1) + (j + 1)) && |list0| == unknowns0
      requires forall m :: 0 <= m < unknowns0 ==> found[m] == list0[m]
      modifies found
      ensures 3 * (i + 1) + (j + 1) < 9
      ensures unknowns == CountFirst(g, (row, col), Unknowns, 3 * (i + 1) + (j + 2)) <= 8
      ensures mines == CountFirst(g, (row, col), Mines, 3 * (i + 1) + (j + 2))
      ensures list == UnknownsFirst(g, (row, col), 3 * (i + 1) + (j + 2)) && |list| == unknowns
      ensures forall m :: 0 <= m < unknowns ==> found[m] == list[m]
    {
      unknowns, mines, list := unknowns0, mines0, list0;
      var cell := grid[row + i, col + j];
      assert cell == g[row + i][col + j];
      ScanCell(g, row, col, i, j, 3 * (i + 1) + (j + 1), cell, unknowns, mines, list);
      if cell == Unknown {
        Record(found, unknowns, (row + i, col + j), list);
        unknowns := unknowns + 1;
        list := list + [(row + i, col + j)];
      } else if cell == MineOn {
        mines := mines + 1;
      }
    }

    /** Writes the next entry of the record array, which mirrors list so far. */
    static method Record(found: array<Pos>, k: int, x: Pos, ghost list: seq<Pos>)
      requires 0 <= k < found.Length && |list| == k
      requires forall m :: 0 <= m < k ==> found[m] == list[m]
      modifies found
      ensures forall m :: 0 <= m < k + 1 ==> found[m] == (list + [x])[m]
    {
      found[k] := x;
    }

    /** The second loop of resolve_tile: writes v into each recorded unknown. */
    method DecideAll(found: array<Pos>, n: int, v: int, ghost list: seq<Pos>)
      requires Valid() && 0 <= n <= found.Length && found[..n] == list && Distinct(list)
      requires v == MineOn || v == MineOff
      requires forall q :: q in list ==> InRange(Snapshot(grid), q) && At(Snapshot(grid), q) == Unknown
      modifies grid
      ensures Valid() && Extends(old(Snapshot(grid)), Snapshot(grid))
      ensures forall q :: InRange(old(Snapshot(grid)), q) ==>
                At(Snapshot(grid), q) == if q in list then v else At(old(Snapshot(grid)), q)
      ensures forall q :: q in list ==> Interior(Snapshot(grid), q) && At(Snapshot(grid), q) == v
      ensures |UnknownSet(Snapshot(grid))| == |UnknownSet(old(Snapshot(grid)))| - n
    {
      ghost var g0 := Snapshot(grid);
      var k := 0;
      while k < n
        invariant 0 <= k <= n && Valid()
        invariant |Snapshot(grid)| == |g0| && Width(Snapshot(grid)) == Width(g0)
        invariant forall q :: InRange(g0, q) ==>
                    At(Snapshot(grid), q) == if ListedBetween(list, 0, k, q) then v else At(g0, q)
        invariant |UnknownSet(Snapshot(grid))| == |UnknownSet(g0)| - k
      {
        ghost var g := Snapshot(grid);
        var q := found[k];
        assert q == list[k];
        NotListedBefore(list, k);
        UnknownIsInterior(g, q);
        DecideShrinks(g, q, v);
        SetCell(q, v);
        forall r | InRange(g0, r)
          ensures At(Snapshot(grid), r) == if ListedBetween(list, 0, k + 1, r) then v else At(g0, r)
        {
          ListedStep(list, 0, k, r);
        }
        k := k + 1;
      }
      forall q | InRange(g0, q)
        ensures ListedBetween(list, 0, k, q) == (q in list)
      {
        ListedToEnd(list, 0, k, q);
      }
      forall q | q in list
        ensures Interior(g0, q)
      {
        UnknownIsInterior(g0, q);
      }
      MarksAreNotNumbers();
    }

    /**
      The third loop of resolve_tile: calls it again on every cell of the
      3x3 block around each decided cell.  The budget is the caller's
      unknown count, which the decisions already made have lowered.
    */
    method ResolveAround(found: array<Pos>, n: int, ghost list: seq<Pos>, ghost budget: nat) returns (resolved: int)
      requires Valid() && 0 <= n <= found.Length && found[..n] == list
      requires forall q :: q in list ==> Interior(Snapshot(grid), q)
      requires n > 0 ==> |UnknownSet(Snapshot(grid))| < budget
      modifies grid
      decreases budget, 0
      ensures Valid() && Extends(old(Snapshot(grid)), Snapshot(grid))
      ensures resolved == |UnknownSet(old(Snapshot(grid)))| - |UnknownSet(Snapshot(grid))|
    {
      ghost var g0 := Snapshot(grid);
      ExtendsRefl(g0);
      resolved := 0;
      var k := 0;
      while k < n
        invariant 0 <= k <= n && Valid() && Extends(g0, Snapshot(grid))
        invariant resolved == |UnknownSet(g0)| - |UnknownSet(Snapshot(grid))|
      {
        var row, col := found[k].0, found[k].1;
        assert found[k] == list[k];
        assert Interior(g0, (row, col));
        var i := -1;
        while i < 2
          invariant -1 <= i <= 2 && Valid() && Extends(g0, Snapshot(grid))
          invariant resolved == |UnknownSet(g0)| - |UnknownSet(Snapshot(grid))|
        {
          var j := -1;
          while j < 2
            invariant -1 <= j <= 2 && Valid() && Extends(g0, Snapshot(grid))
            invariant resolved == |UnknownSet(g0)| - |UnknownSet(Snapshot(grid))|
          {
            ghost var g := Snapshot(grid);
            ExtendsShrinks(g0, g);
            var r := ResolveTile(row + i, col + j);
            ExtendsTrans(g0, g, Snapshot(grid));
            resolved := resolved + r;
            j := j + 1;
          }
          i := i + 1;
        }
        k := k + 1;
      }
    }
  
    /**
      preresolve_grid: runs resolve_tile on every interior cell, row by
      row, and returns the number of unknowns decided in all.
    */
    method PreresolveGrid() returns (resolved: int)
      requires Valid()
      modifies grid
      ensures Valid() && Extends(old(Snapshot(grid)), Snapshot(grid))
      ensures resolved == |UnknownSet(old(Snapshot(grid)))| - |UnknownSet(Snapshot(grid))| >= 0
    {
      ghost var g0 := Snapshot(grid);
      ExtendsRefl(g0);
      resolved := 0;
      var i := 1;
      while i < nrows - 1
        invariant Valid() && Extends(g0, Snapshot(grid))
        invariant resolved == |UnknownSet(g0)| - |UnknownSet(Snapshot(grid))|
      {
        var j := 1;
        while j < ncols - 1
          invariant Valid() && Extends(g0, Snapshot(grid))
          invariant resolved == |UnknownSet(g0)| - |UnknownSet(Snapshot(grid))|
        {
          ghost var g := Snapshot(grid);
          var r := ResolveTile(i, j);
          ExtendsTrans(g0, g, Snapshot(grid));
          resolved := resolved + r;
          j := j + 1;
        }
        i := i + 1;
      }
      ExtendsShrinks(g0, Snapshot(grid));
    }

    /**
      preprocess_grid: optionally pre-resolves the board, lowers a set mine
      target by the mines already on the board, lists the unknown cells
      and optionally sorts them.  It returns the number of pre-resolved
      cells, which the program reports.
    */
    method PreprocessGrid() returns (resolved: int)
      requires Valid()
      modifies grid, ind, this`mineTarget, this`totalUnknowns
      ensures Indexed()
      ensures preresolve ==> Extends(old(Snapshot(grid)), Snapshot(grid))
                               && resolved == |UnknownSet(old(Snapshot(grid)))| - |UnknownSet(Snapshot(grid))|
      ensures !preresolve ==> Snapshot(grid) == old(Snapshot(grid)) && resolved == 0
      ensures mineTarget == if old(mineTarget) > NoTarget then old(mineTarget) - MinesOnBoard(Snapshot(grid)) else old(mineTarget)
      ensures totalUnknowns == |UnknownSet(Snapshot(grid))|
      ensures UnknownsExactly(Snapshot(grid), ind[..totalUnknowns], 0)
      ensures !sort ==> ind[..totalUnknowns] == ScanUnknowns(Snapshot(grid))
      ensures sort ==> multiset(ind[..totalUnknowns]) == multiset(ScanUnknowns(Snapshot(grid)))
      ensures sort ==> MostConstrainedFirst(Snapshot(grid), ind[..totalUnknowns])
    {
      resolved := 0;
      if preresolve {
        resolved := PreresolveGrid();
      }
      if mineTarget > NoTarget {
        AdjustTarget();
      }
      ListUnknowns();
    }

    /** The last steps of preprocess_grid: find the unknowns, then sort them if asked to. */
    method ListUnknowns()
      requires Valid()
      modifies ind, this`totalUnknowns
      ensures Indexed()
      ensures totalUnknowns == |UnknownSet(Snapshot(grid))|
      ensures UnknownsExactly(Snapshot(grid), ind[..totalUnknowns], 0)
      ensures !sort ==> ind[..totalUnknowns] == ScanUnknowns(Snapshot(grid))
      ensures sort ==> multiset(ind[..totalUnknowns]) == multiset(ScanUnknowns(Snapshot(grid)))
      ensures sort ==> MostConstrainedFirst(Snapshot(grid), ind[..totalUnknowns])
    {
      totalUnknowns := FindUnknowns();
      ghost var g := Snapshot(grid);
      ScanIsDecisions(g);
      if sort {
        ghost var scan := ind[..totalUnknowns];
        SortUnknowns();
        DecisionsPermuted(g, scan, ind[..totalUnknowns]);
      }
    }

    /** The mine_target loop of preprocess_grid: one less for every mine on the board. */
    method AdjustTarget()
      requires Valid()
      modifies this`mineTarget
      ensures mineTarget == old(mineTarget) - MinesOnBoard(Snapshot(grid))
      ensures mineTarget == old(mineTarget) - |MineSet(Snapshot(grid))|
    {
      ghost var g := Snapshot(grid);
      MinesOnBoardCount(g);
      assert |g| == nrows && Width(g) == ncols;
      var i := 1;
      while i < nrows - 1
        invariant 1 <= i <= nrows - 1
        invariant mineTarget == old(mineTarget) - RowsMines(g, i)
      {
        var next := i + 1;
        AdjustRow(g, i, next, old(mineTarget));
        i := next;
      }
    }

    /**
      The inner loop of AdjustTarget: one less for every mine in row i.
      next is i + 1 and start the target before the outer loop, both named
      by the caller for the same reason as in FindInRow.
    */
    method AdjustRow(ghost g: Grid, i: int, next: int, ghost start: int)
      requires Shaped() && g == Snapshot(grid) && 1 <= i < nrows - 1 && next == i + 1
      requires mineTarget == start - RowsMines(g, i)
      modifies this`mineTarget
      ensures mineTarget == start - RowsMines(g, next)
    {
      ghost var above := RowsMines(g, i);
      var j := 1;
      while j < ncols - 1
        invariant 1 <= j <= ncols - 1
        invariant mineTarget == start - above - RowMines(g, i, j)
      {
        assert grid[i, j] == g[i][j];
        if grid[i, j] == MineOn {
          mineTarget := mineTarget - 1;
        }
        j := j + 1;
      }
    }

    /**
      sort_unknowns: pairs every listed cell with the number of numbered
      tiles around it, sorts the pairs by that number, most first, and
      copies the cells back into the unknown list.
    */
    method SortUnknowns()
      requires Indexed()
      modifies ind
      ensures Indexed()
      ensures multiset(ind[..totalUnknowns]) == old(multiset(ind[..totalUnknowns]))
      ensures MostConstrainedFirst(Snapshot(grid), ind[..totalUnknowns])
    {
      ghost var g := Snapshot(grid);
      ghost var inds := ind[..totalUnknowns];
      var tiles := LabelTiles();
      ghost var labelled := tiles[..];
      SortTiles(tiles);
      IndexesPermuted(labelled, tiles[..]);
      LabelledPermuted(g, labelled, tiles[..]);
      SortedCells(g, tiles[..]);
      CopyBack(tiles);
      DecisionsPermuted(g, inds, ind[..totalUnknowns]);
    }

    /** The first loop of sort_unknowns: one record per listed cell, with its count of numbered tiles. */
    method LabelTiles() returns (tiles: array<SortTile>)
      requires Indexed()
      ensures fresh(tiles) && tiles.Length == totalUnknowns
      ensures Indexes(tiles[..]) == ind[..totalUnknowns] && Labelled(Snapshot(grid), tiles[..])
    {
      ghost var g := Snapshot(grid);
      ghost var inds := ind[..totalUnknowns];
      tiles := new SortTile[totalUnknowns];
      var i := 0;
      while i < totalUnknowns
        invariant 0 <= i <= totalUnknowns
        invariant forall m :: 0 <= m < i ==>
                    tiles[m].index == inds[m] && tiles[m].numberTiles == CountAround(g, inds[m], Numbers)
      {
        assert ind[i] == inds[i];
        var n := CountNumbers(ind[i].0, ind[i].1);
        tiles[i] := SortTile(ind[i], n);
        i := i + 1;
      }
      assert Indexes(tiles[..]) == inds;
      forall t | t in tiles[..]
        ensures Interior(g, t.index) && t.numberTiles == CountAround(g, t.index, Numbers)
      {
        var m :| 0 <= m < tiles.Length && tiles[m] == t;
      }
    }

    /** The last loop of sort_unknowns: the sorted cells go back into the unknown list. */
    method CopyBack(tiles: array<SortTile>)
      requires 0 <= tiles.Length == totalUnknowns < ind.Length
      modifies ind
      ensures ind[..totalUnknowns] == Indexes(tiles[..])
      ensures forall m :: totalUnknowns <= m < ind.Length ==> ind[m] == old(ind[m])
    {
      var i := 0;
      while i < totalUnknowns
        invariant 0 <= i <= totalUnknowns
        invariant forall m :: 0 <= m < i ==> ind[m] == tiles[m].index
        invariant forall m :: i <= m < ind.Length ==> ind[m] == old(ind[m])
      {
        ind[i] := tiles[i].index;
        i := i + 1;
      }
      assert ind[..totalUnknowns] == Indexes(tiles[..]);
    }

    /** The count in sort_unknowns' nested loop: numbered tiles in the block around (row, col). */
    method CountNumbers(row: int, col: int) returns (c: int)
      requires Valid() && Interior(Snapshot(grid), (row, col))
      ensures c == CountAround(Snapshot(grid), (row, col), Numbers)
    {
      ghost var g := Snapshot(grid);
      c := 0;
      ghost var n := 0;
      var j := -1;
      while j < 2
        invariant -1 <= j <= 2 && n == 3 * (j + 1) && c == CountFirst(g, (row, col), Numbers, n)
      {
        var k := -1;
        while k < 2
          invariant -1 <= k <= 2 && n == 3 * (j + 1) + (k + 1) && c == CountFirst(g, (row, col), Numbers, n)
        {
          var tileVal := grid[row + j, col + k] + TileAdjust;
          assert grid[row + j, col + k] == g[row + j][col + k];
          CountStep(g, row, col, j, k, n, Numbers);
          if 0 <= tileVal && tileVal <= 8 {
            c := c + 1;
          }
          n := n + 1;
          k := k + 1;
        }
        j := j + 1;
      }
    }

    /**
      The search step of main, run after preprocess_grid: with unknowns
      left, the search starts at the first cell with no mines placed;
      with none, the board counts as one goal state as it stands.
    */
    method Solve() returns (goals: int)
      requires Indexed() && UnknownsExactly(Snapshot(grid), ind[..totalUnknowns], 0)
      modifies grid
      ensures Indexed()
      ensures totalUnknowns == 0 ==> goals == 1 && Snapshot(grid) == old(Snapshot(grid))
      ensures totalUnknowns > 0 ==>
                goals == Reported(single, Goals(old(Snapshot(grid)), ind[..totalUnknowns], 0, 0, 0, mineTarget))
      ensures SameOutside(old(Snapshot(grid)), Snapshot(grid), ind[..totalUnknowns], 0)
      ensures single ==> goals <= 1
    {
      if totalUnknowns > 0 {
        goals := SolveTree(0, 0, Snapshot(grid), ind[..totalUnknowns]);
      } else {
        goals := 1;
      }
    }

    /**
      solve_tree on the path that never forks a thread: decides cell k of
      the unknown list off, then on, counting the goal states below each
      consistent choice, and returns the number it found.  The ghost
      parameters name the grid and the unknown list on entry; the two
      halves are TurnOff and TurnOn below.
    */
    method SolveTree(k: int, mineCount: int, ghost g: Grid, ghost inds: seq<Pos>) returns (numGoals: int)
      requires Indexed() && 0 <= k < totalUnknowns && mineCount >= 0
      requires g == Snapshot(grid) && inds == ind[..totalUnknowns]
      requires UnknownsExactly(g, inds, k)
      requires mineTarget >= 0 ==> mineCount <= mineTarget
      modifies grid
      decreases totalUnknowns - k, 2
      ensures Indexed() && ind[..totalUnknowns] == inds
      ensures SameOutside(g, Snapshot(grid), inds, k)
      ensures numGoals == Reported(single, Goals(g, inds, k, k, mineCount, mineTarget))
      ensures single ==> numGoals <= 1
    {
      AnchorAfterDecide(g, inds, k, MineOff);
      AnchorAfterDecide(g, inds, k, MineOn);

      numGoals := TurnOff(k, mineCount, g, inds);

      // Turning the mine on cannot help once a single goal is found or the target is reached.
      if (single && numGoals != 0) || (mineTarget >= 0 && mineCount == mineTarget) {
        SameOutsideStep(g, Set(g, inds[k], MineOff), Snapshot(grid), inds, k, MineOff);
        TreeCount(single, g, Set(g, inds[k], MineOff), Set(g, inds[k], MineOn), inds, k, mineCount, mineCount + 1, mineTarget);
        return;
      }

      var on := mineCount + 1;
      var more := TurnOn(k, on, g, inds);
      numGoals := numGoals + more;
      SameOutsideStep(g, Set(g, inds[k], MineOn), Snapshot(grid), inds, k, MineOn);
      TreeCount(single, g, Set(g, inds[k], MineOff), Set(g, inds[k], MineOn), inds, k, mineCount, on, mineTarget);
    }

    /** The first half of solve_tree: cell k is kept off, and the search goes on from there. */
    method TurnOff(k: int, mineCount: int, ghost g: Grid, ghost inds: seq<Pos>) returns (numGoals: int)
      requires Indexed() && 0 <= k < totalUnknowns && mineCount >= 0
      requires g == Snapshot(grid) && inds == ind[..totalUnknowns]
      requires Anchor(Set(g, inds[k], MineOff), inds, k)
      requires mineTarget >= 0 ==> mineCount <= mineTarget
      modifies grid
      decreases totalUnknowns - k, 1
      ensures Indexed() && ind[..totalUnknowns] == inds
      ensures SameOutside(Set(g, inds[k], MineOff), Snapshot(grid), inds, k + 1)
      ensures numGoals == Reported(single, Branch(Set(g, inds[k], MineOff), inds, k, mineCount, mineTarget))
      ensures single ==> numGoals <= 1
    {
      var x := ind[k];
      assert x == inds[k];
      SetCell(x, MineOff);
      assert ind[..totalUnknowns] == inds;
      numGoals := Descend(k, mineCount, Set(g, inds[k], MineOff), inds);
    }

    /**
      The second half of solve_tree: the cells after k go back to unknown,
      cell k is turned on, and the search goes on from there.  g is the
      grid solve_tree started from; the off half left the grid as g with
      cell k off and some later cells of the list decided.
    */
    method TurnOn(k: int, mines: int, ghost g: Grid, ghost inds: seq<Pos>) returns (more: int)
      requires Indexed() && 0 <= k < totalUnknowns && mines >= 0 && inds == ind[..totalUnknowns]
      requires Bordered(g) && ValidDecisions(g, inds)
      requires Anchor(Set(g, inds[k], MineOff), inds, k)
      requires Anchor(Set(g, inds[k], MineOn), inds, k)
      requires SameOutside(Set(g, inds[k], MineOff), Snapshot(grid), inds, k + 1)
      requires mineTarget >= 0 ==> mines <= mineTarget
      modifies grid
      decreases totalUnknowns - k, 1
      ensures Indexed() && ind[..totalUnknowns] == inds
      ensures SameOutside(Set(g, inds[k], MineOn), Snapshot(grid), inds, k + 1)
      ensures more == Reported(single, Branch(Set(g, inds[k], MineOn), inds, k, mines, mineTarget))
      ensures single ==> more <= 1
    {
      var x := ind[k];
      assert x == inds[k];
      ResetForOn(k, x, g);
      assert ind[..totalUnknowns] == inds;
      more := Descend(k, mines, Set(g, inds[k], MineOn), inds);
    }

    /**
      The step between the halves of solve_tree: the later cells go back to
      unknown, which restores the grid the off half started from, and cell
      k is turned on.
    */
    method ResetForOn(k: int, x: Pos, ghost g: Grid)
      requires Indexed() && 0 <= k < totalUnknowns && x == ind[k]
      requires Bordered(g) && ValidDecisions(g, ind[..totalUnknowns])
      requires Anchor(Set(g, ind[k], MineOff), ind[..totalUnknowns], k)
      requires SameOutside(Set(g, ind[k], MineOff), Snapshot(grid), ind[..totalUnknowns], k + 1)
      modifies grid
      ensures Indexed() && Snapshot(grid) == Set(g, x, MineOn)
    {
      ghost var inds := ind[..totalUnknowns];
      assert x == inds[k];
      ghost var pOff := Set(g, x, MineOff);
      ClearUnknowns(k + 1);
      ClearRestores(pOff, old(Snapshot(grid)), Snapshot(grid), inds, k);
      SetCell(x, MineOn);
      SetTwice(g, x, MineOff, MineOn);
    }

    /**
      What solve_tree does once cell k has been decided: check the block
      around it and, when the board is still consistent, either search the
      rest of the list or, at the last cell, count a goal when the mine
      target allows.  mines counts the mines placed so far, this one
      included; p and inds name the grid and the list on entry.
    */
    method Descend(k: int, mines: int, ghost p: Grid, ghost inds: seq<Pos>) returns (count: int)
      requires Indexed() && 0 <= k < totalUnknowns && mines >= 0
      requires p == Snapshot(grid) && inds == ind[..totalUnknowns] && Anchor(p, inds, k)
      requires mineTarget >= 0 ==> mines <= mineTarget
      modifies grid
      decreases totalUnknowns - k, 0
      ensures Indexed() && ind[..totalUnknowns] == inds
      ensures SameOutside(p, Snapshot(grid), inds, k + 1)
      ensures count == Reported(single, Branch(p, inds, k, mines, mineTarget))
      ensures single ==> count <= 1
    {
      var x := ind[k];
      assert x == inds[k];
      count := 0;
      var consis := ConsistencyCheck(Snapshot(grid), x);
      if consis {
        if k < totalUnknowns - 1 && (mineTarget == NoTarget || mines <= mineTarget) {
          var next := k + 1;
          BranchDescends(p, inds, k, next, mines, mineTarget);
          count := SolveTree(next, mines, p, inds);
          return;
        } else if k == totalUnknowns - 1 && (mineTarget == NoTarget || mines == mineTarget) {
          count := count + 1;
        }
      }
      BranchStops(p, inds, k, mines, mineTarget, consis);
    }
  }
}
