/**
  The bordered minesweeper grid as a value.

  The solver keeps its grid as a 2D array of character codes; every
  specification in this project talks about a snapshot of that array,
  a rectangular sequence of rows.  A cell holds a numbered tile when its
  code lies in '0'..'8', otherwise it is unknown ('?'), mine on ('*') or
  mine off ('-'); the parser surrounds the board with a ring of mine-off
  cells so that the 3x3 block around any interior cell stays in range.
*/
module Board {

  const TileAdjust: int := -('0' as int)
  const Unknown: int := '?' as int
  const MineOn: int := '*' as int
  const MineOff: int := '-' as int

  /** A (row, col) index into the grid; (-1, -1) ends the unknown list. */
  type Pos = (int, int)

  const Sentinel: Pos := (-1, -1)

  type Grid = seq<seq<int>>

  /** The number shown on a tile, when the cell holds one. */
  function TileNum(v: int): int { v + TileAdjust }

  predicate IsNumber(v: int) { 0 <= TileNum(v) <= 8 }

  lemma MarksAreNotNumbers()
    ensures !IsNumber(Unknown) && !IsNumber(MineOn) && !IsNumber(MineOff)
    ensures Unknown != MineOn && Unknown != MineOff && MineOn != MineOff
  {
  }

  predicate Rect(g: Grid)
  {
    |g| > 0 && forall i :: 0 <= i < |g| ==> |g[i]| == |g[0]|
  }

  function Width(g: Grid): nat
    requires Rect(g)
  {
    |g[0]|
  }

  predicate InRange(g: Grid, p: Pos)
    requires Rect(g)
  {
    0 <= p.0 < |g| && 0 <= p.1 < Width(g)
  }

  predicate Interior(g: Grid, p: Pos)
    requires Rect(g)
  {
    1 <= p.0 < |g| - 1 && 1 <= p.1 < Width(g) - 1
  }

  /** The ring of mine-off cells the parser writes around the board. */
  predicate Bordered(g: Grid)
  {
    && Rect(g) && |g| >= 2 && Width(g) >= 2
    && (forall i, j {:trigger g[i][j]} :: 0 <= i < |g| && 0 <= j < Width(g) && !Interior(g, (i, j)) ==> g[i][j] == MineOff)
  }

  function At(g: Grid, p: Pos): int
    requires Rect(g) && InRange(g, p)
  {
    g[p.0][p.1]
  }

  /** The grid after one cell is overwritten. */
  function Set(g: Grid, p: Pos, v: int): (h: Grid)
    requires Rect(g) && InRange(g, p)
    ensures Rect(h) && |h| == |g| && Width(h) == Width(g)
    ensures At(h, p) == v
    ensures forall q {:trigger At(h, q)} :: InRange(g, q) && q != p ==> At(h, q) == At(g, q)
  {
    g[p.0 := g[p.0][p.1 := v]]
  }

  /** Only the last of two writes to one cell is seen. */
  lemma SetTwice(g: Grid, p: Pos, a: int, b: int)
    requires Rect(g) && InRange(g, p)
    ensures Set(Set(g, p, a), p, b) == Set(g, p, b)
  {
    GridExt(Set(Set(g, p, a), p, b), Set(g, p, b));
  }

  /** Writing an interior cell keeps the ring. */
  lemma SetKeepsBorder(g: Grid, p: Pos, v: int)
    requires Bordered(g) && Interior(g, p)
    ensures Bordered(Set(g, p, v))
  {
    var h := Set(g, p, v);
    forall i, j | 0 <= i < |h| && 0 <= j < Width(h) && !Interior(h, (i, j))
      ensures h[i][j] == MineOff
    {
      assert At(h, (i, j)) == At(g, (i, j));
    }
  }

  /** Two grids of one shape that agree on every cell are equal. */
  lemma GridExt(g: Grid, h: Grid)
    requires Rect(g) && Rect(h) && |g| == |h| && Width(g) == Width(h)
    requires forall q :: InRange(g, q) ==> At(g, q) == At(h, q)
    ensures g == h
  {
    forall i | 0 <= i < |g|
      ensures g[i] == h[i]
    {
      forall j | 0 <= j < |g[i]|
        ensures g[i][j] == h[i][j]
      {
        assert At(g, (i, j)) == At(h, (i, j));
      }
    }
  }

  /** A numbered tile is never on the ring, so its 3x3 block is in range. */
  lemma NumberIsInterior(g: Grid, p: Pos)
    requires Bordered(g) && InRange(g, p) && IsNumber(At(g, p))
    ensures Interior(g, p)
  {
    MarksAreNotNumbers();
  }

  /** Same for an unknown cell. */
  lemma UnknownIsInterior(g: Grid, p: Pos)
    requires Bordered(g) && InRange(g, p) && At(g, p) == Unknown
    ensures Interior(g, p)
  {
    MarksAreNotNumbers();
  }

  /** The 3x3 block in the order of the source's nested loops (row offset outer). */
  const Offsets: seq<Pos> := [(-1, -1), (-1, 0), (-1, 1), (0, -1), (0, 0), (0, 1), (1, -1), (1, 0), (1, 1)]

  function Shift(p: Pos, k: nat): Pos
    requires k < 9
  {
    (p.0 + Offsets[k].0, p.1 + Offsets[k].1)
  }

  /** The nested loop's (i, j) iteration visits the cell Shift(p, 3 * (i + 1) + (j + 1)). */
  lemma ShiftIndex(p: Pos, i: int, j: int)
    requires -1 <= i <= 1 && -1 <= j <= 1
    ensures 0 <= 3 * (i + 1) + (j + 1) < 9 && Shift(p, 3 * (i + 1) + (j + 1)) == (p.0 + i, p.1 + j)
  {
    if i == -1 {
      if j == -1 { assert Offsets[0] == (-1, -1); }
      else if j == 0 { assert Offsets[1] == (-1, 0); }
      else { assert Offsets[2] == (-1, 1); }
    } else if i == 0 {
      if j == -1 { assert Offsets[3] == (0, -1); }
      else if j == 0 { assert Offsets[4] == (0, 0); }
      else { assert Offsets[5] == (0, 1); }
    } else {
      if j == -1 { assert Offsets[6] == (1, -1); }
      else if j == 0 { assert Offsets[7] == (1, 0); }
      else { assert Offsets[8] == (1, 1); }
    }
  }

  /** Every cell of the block around an interior cell is in range. */
  lemma ShiftInRange(g: Grid, p: Pos, k: nat)
    requires Rect(g) && Interior(g, p) && k < 9
    ensures InRange(g, Shift(p, k))
  {
  }

  /** Being neighbours is symmetric: the offset 8 - k undoes offset k. */
  lemma ShiftBack(p: Pos, k: nat)
    requires k < 9
    ensures Shift(Shift(p, k), 8 - k) == p
  {
  }

  /** Which cells a 3x3 count looks for. */
  datatype Kind = Mines | Unknowns | Numbers

  predicate IsKind(v: int, kind: Kind)
  {
    match kind
    case Mines => v == MineOn
    case Unknowns => v == Unknown
    case Numbers => IsNumber(v)
  }

  /** The number of cells of the given kind among the first n cells of the block around p. */
  function CountFirst(g: Grid, p: Pos, kind: Kind, n: nat): (c: nat)
    requires Rect(g) && Interior(g, p) && n <= 9
    ensures c <= n
  {
    if n == 0 then 0
    else CountFirst(g, p, kind, n - 1) + (if IsKind(At(g, Shift(p, n - 1)), kind) then 1 else 0)
  }

  /** Past the centre, a numbered centre cell keeps the unknown count below n. */
  lemma {:induction false} CentreNotUnknown(g: Grid, p: Pos, n: nat)
    requires Rect(g) && Interior(g, p) && 5 <= n <= 9 && IsNumber(At(g, p))
    ensures CountFirst(g, p, Unknowns, n) <= n - 1
  {
    MarksAreNotNumbers();
    if n > 5 {
      CentreNotUnknown(g, p, n - 1);
    } else {
      assert Shift(p, 4) == p;
    }
  }

  /** The number of cells of the given kind in the whole 3x3 block around p. */
  function CountAround(g: Grid, p: Pos, kind: Kind): nat
    requires Rect(g) && Interior(g, p)
  {
    CountFirst(g, p, kind, 9)
  }

  /** The nested loop's (i, j) iteration adds the cell (row + i, col + j) to the count. */
  lemma CountStep(g: Grid, row: int, col: int, i: int, j: int, n: nat, kind: Kind)
    requires Rect(g) && Interior(g, (row, col))
    requires -1 <= i <= 1 && -1 <= j <= 1 && n == 3 * (i + 1) + (j + 1)
    ensures n < 9
    ensures CountFirst(g, (row, col), kind, n + 1)
         == CountFirst(g, (row, col), kind, n) + (if IsKind(g[row + i][col + j], kind) then 1 else 0)
  {
    ShiftIndex((row, col), i, j);
  }

  /** The set of unknown cells of a grid. */
  ghost function UnknownSet(g: Grid): set<Pos>
  {
    set i, j | 0 <= i < |g| && 0 <= j < |g[i]| && g[i][j] == Unknown :: (i, j)
  }

  /** Deciding one unknown cell removes exactly that cell from the unknown set. */
  lemma {:induction false} DecideShrinks(g: Grid, p: Pos, v: int)
    requires Rect(g) && InRange(g, p) && At(g, p) == Unknown && v != Unknown
    ensures UnknownSet(Set(g, p, v)) == UnknownSet(g) - {p}
    ensures |UnknownSet(Set(g, p, v))| == |UnknownSet(g)| - 1
  {
    var h := Set(g, p, v);
    forall q | q in UnknownSet(h)
      ensures q in UnknownSet(g) - {p}
    {
      assert At(h, q) == Unknown;
    }
    forall q | q in UnknownSet(g) - {p}
      ensures q in UnknownSet(h)
    {
      assert At(g, q) == Unknown;
      assert At(h, q) == Unknown;
    }
    assert p in UnknownSet(g);
  }
}
