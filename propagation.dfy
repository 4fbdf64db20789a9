/**
  Forced assignments.  A numbered tile showing N with M mines and U
  unknowns around it forces all U unknowns on when N == M + U, and all of
  them off when N == M; otherwise it forces nothing.
*/
module Propagation {
  import opened Board
  import opened Consistency
  import opened Scan

  /** The tile at p is numbered and saturated one way or the other. */
  predicate Fires(g: Grid, p: Pos)
    requires Bordered(g) && InRange(g, p)
  {
    IsNumber(At(g, p)) &&
      (NumberIsInterior(g, p);
       var m := CountAround(g, p, Mines);
       TileNum(At(g, p)) == m + CountAround(g, p, Unknowns) || TileNum(At(g, p)) == m)
  }

  /** The value a firing tile gives its unknowns: on when N == M + U, off otherwise. */
  function Forced(g: Grid, p: Pos): int
    requires Bordered(g) && InRange(g, p) && IsNumber(At(g, p))
  {
    NumberIsInterior(g, p);
    if TileNum(At(g, p)) == CountAround(g, p, Mines) + CountAround(g, p, Unknowns) then MineOn else MineOff
  }

  /** Consecutive cells of the block are in row-major order. */
  lemma ShiftOrdered(p: Pos, k: nat)
    requires k < 9
    ensures k < 8 ==> Before(Shift(p, k), Shift(p, k + 1))
  {
  }

  /** The unknown cells among the first n cells of the block around p, in scan order. */
  function UnknownsFirst(g: Grid, p: Pos, n: nat): (s: seq<Pos>)
    requires Rect(g) && Interior(g, p) && n <= 9
    ensures |s| == CountFirst(g, p, Unknowns, n)
    decreases n
  {
    if n == 0 then []
    else
      var s := UnknownsFirst(g, p, n - 1);
      var q := Shift(p, n - 1);
      if At(g, q) == Unknown then s + [q] else s
  }

  /**
    The list holds exactly the unknown cells among the first n cells of
    the block, in row-major order.
  */
  lemma {:induction false} UnknownsFirstSpec(g: Grid, p: Pos, n: nat)
    requires Rect(g) && Interior(g, p) && n <= 9
    ensures forall q :: q in UnknownsFirst(g, p, n) ==> InRange(g, q) && At(g, q) == Unknown
    ensures forall k :: 0 <= k < n && At(g, Shift(p, k)) == Unknown ==> Shift(p, k) in UnknownsFirst(g, p, n)
    ensures RowMajor(UnknownsFirst(g, p, n))
    ensures n < 9 ==> forall q :: q in UnknownsFirst(g, p, n) ==> Before(q, Shift(p, n))
    decreases n
  {
    if n > 0 {
      var s := UnknownsFirst(g, p, n - 1);
      UnknownsFirstSpec(g, p, n - 1);
      var q := Shift(p, n - 1);
      ShiftOrdered(p, n - 1);
      if At(g, q) == Unknown {
        RowMajorAppend(s, [q]);
      }
    }
  }

  /** One more cell of the block scanned: the counts and the unknown list grow by what it holds. */
  lemma ScanStep(g: Grid, p: Pos, n: nat)
    requires Rect(g) && Interior(g, p) && n < 9
    ensures var c := At(g, Shift(p, n));
      && CountFirst(g, p, Unknowns, n + 1) == CountFirst(g, p, Unknowns, n) + (if c == Unknown then 1 else 0)
      && CountFirst(g, p, Mines, n + 1) == CountFirst(g, p, Mines, n) + (if c == MineOn then 1 else 0)
      && UnknownsFirst(g, p, n + 1) == if c == Unknown then UnknownsFirst(g, p, n) + [Shift(p, n)] else UnknownsFirst(g, p, n)
  {
  }

  /**
    One iteration (i, j) of the first loop of resolve_tile, which looks at
    the grid cell (row + i, col + j), the n-th of the block around p = (row, col): an unknown
    is recorded, a mine is counted.  Around a numbered tile the centre is
    never unknown, so at most 8 unknowns are recorded.
  */
  lemma ScanCell(g: Grid, row: int, col: int, i: int, j: int, n: nat, c: int, unknowns: int, mines: int, list: seq<Pos>)
    requires Rect(g) && Interior(g, (row, col)) && IsNumber(At(g, (row, col)))
    requires -1 <= i <= 1 && -1 <= j <= 1 && n == 3 * (i + 1) + (j + 1) && c == g[row + i][col + j]
    requires unknowns == CountFirst(g, (row, col), Unknowns, n) && mines == CountFirst(g, (row, col), Mines, n)
    requires list == UnknownsFirst(g, (row, col), n)
    ensures n < 9
    ensures CountFirst(g, (row, col), Unknowns, n + 1) <= 8
    ensures c == Unknown ==>
              && CountFirst(g, (row, col), Unknowns, n + 1) == unknowns + 1
              && CountFirst(g, (row, col), Mines, n + 1) == mines
              && UnknownsFirst(g, (row, col), n + 1) == list + [(row + i, col + j)]
    ensures c == MineOn ==>
              && CountFirst(g, (row, col), Unknowns, n + 1) == unknowns
              && CountFirst(g, (row, col), Mines, n + 1) == mines + 1
              && UnknownsFirst(g, (row, col), n + 1) == list
    ensures c != Unknown && c != MineOn ==>
              && CountFirst(g, (row, col), Unknowns, n + 1) == unknowns
              && CountFirst(g, (row, col), Mines, n + 1) == mines
              && UnknownsFirst(g, (row, col), n + 1) == list
  {
    var p := (row, col);
    ShiftIndex(p, i, j);
    ScanStep(g, p, n);
    MarksAreNotNumbers();
    if n >= 5 {
      CentreNotUnknown(g, p, n);
    }
  }

  /** Every cell of the block around p that is unknown in g holds v in h. */
  ghost predicate BlockDecided(g: Grid, h: Grid, p: Pos, v: int)
    requires Rect(g) && Rect(h) && |h| == |g| && Width(h) == Width(g) && Interior(g, p)
  {
    forall k :: 0 <= k < 9 && At(g, Shift(p, k)) == Unknown ==> At(h, Shift(p, k)) == v
  }

  /**
    Once every unknown around a firing tile holds the forced value, and
    nothing else around it changed, the tile shows exactly its number of
    mines and no unknown is left around it.
  */
  lemma ForcedIsExact(g: Grid, h: Grid, p: Pos)
    requires Bordered(g) && Bordered(h) && Extends(g, h) && Interior(g, p) && Fires(g, p)
    requires BlockDecided(g, h, p, Forced(g, p))
    ensures CountAround(h, p, Mines) == TileNum(At(h, p)) && CountAround(h, p, Unknowns) == 0
  {
    NumberIsInterior(g, p);
    MarksAreNotNumbers();
    ForcedCounts(g, h, p, Forced(g, p), 9);
  }

  /**
    resolve_tile's outcome around the tile itself: g1 is g with every
    unknown of the block set to the forced value, and h decides further
    unknowns of g1.  Then every unknown of the block holds the forced value
    in h, and the tile is satisfied exactly.
  */
  lemma DecidedBlock(g: Grid, g1: Grid, h: Grid, p: Pos, list: seq<Pos>)
    requires Bordered(g) && Bordered(h) && Interior(g, p) && Fires(g, p)
    requires Extends(g1, h) && Extends(g, h) && list == UnknownsFirst(g, p, 9)
    requires forall q :: q in list ==> Interior(g1, q) && At(g1, q) == Forced(g, p)
    ensures BlockDecided(g, h, p, Forced(g, p))
    ensures CountAround(h, p, Mines) == TileNum(At(h, p)) && CountAround(h, p, Unknowns) == 0
  {
    UnknownsFirstSpec(g, p, 9);
    MarksAreNotNumbers();
    forall k | 0 <= k < 9
      ensures InRange(g, Shift(p, k))
    {
      ShiftInRange(g, p, k);
    }
    forall k | 0 <= k < 9 && At(g, Shift(p, k)) == Unknown
      ensures At(h, Shift(p, k)) == Forced(g, p)
    {
      var x := Shift(p, k);
      assert At(g1, x) == Forced(g, p);
    }
    ForcedIsExact(g, h, p);
  }

  lemma {:induction false} ForcedCounts(g: Grid, h: Grid, p: Pos, v: int, n: nat)
    requires Rect(g) && Extends(g, h) && Interior(g, p) && n <= 9
    requires v == MineOn || v == MineOff
    requires BlockDecided(g, h, p, v)
    ensures CountFirst(h, p, Unknowns, n) == 0
    ensures CountFirst(h, p, Mines, n)
         == CountFirst(g, p, Mines, n) + (if v == MineOn then CountFirst(g, p, Unknowns, n) else 0)
  {
    if n > 0 {
      ForcedCounts(g, h, p, v, n - 1);
      var q := Shift(p, n - 1);
      assert InRange(g, q);
      MarksAreNotNumbers();
    }
  }
}
