/**
  Row-major scans of the interior of the grid: the list of unknown cells
  that find_unknowns produces, and the number of mines that
  preprocess_grid subtracts from the mine target.  Row i of the scan
  covers columns 1 .. j-1; rows 1 .. i-1 are complete.
*/
module Scan {
  import opened Board

  /** p comes strictly before q in row-major order. */
  predicate Before(p: Pos, q: Pos)
  {
    p.0 < q.0 || (p.0 == q.0 && p.1 < q.1)
  }

  predicate RowMajor(s: seq<Pos>)
  {
    forall a, b :: 0 <= a < b < |s| ==> Before(s[a], s[b])
  }

  lemma RowMajorAppend(s: seq<Pos>, t: seq<Pos>)
    requires RowMajor(s) && RowMajor(t)
    requires forall p, q :: p in s && q in t ==> Before(p, q)
    ensures RowMajor(s + t)
  {
    forall a, b | 0 <= a < b < |s + t|
      ensures Before((s + t)[a], (s + t)[b])
    {
      if b < |s| {
        assert (s + t)[a] == s[a] && (s + t)[b] == s[b];
      } else if a >= |s| {
        assert (s + t)[a] == t[a - |s|] && (s + t)[b] == t[b - |s|];
      } else {
        assert (s + t)[a] in s && (s + t)[b] in t;
      }
    }
  }

  /** The unknown cells of row i, columns 1 .. j-1, left to right. */
  function RowUnknowns(g: Grid, i: int, j: int): (s: seq<Pos>)
    requires Rect(g) && 0 <= i < |g| && 1 <= j <= Width(g)
    ensures |s| <= j - 1
    decreases j
  {
    if j == 1 then []
    else if g[i][j - 1] == Unknown then RowUnknowns(g, i, j - 1) + [(i, j - 1)]
    else RowUnknowns(g, i, j - 1)
  }

  /** The row scan lists exactly the unknown cells it passed, left to right. */
  lemma {:induction false} RowUnknownsSpec(g: Grid, i: int, j: int)
    requires Rect(g) && 0 <= i < |g| && 1 <= j <= Width(g)
    ensures forall q :: q in RowUnknowns(g, i, j) <==> q.0 == i && 1 <= q.1 < j && g[i][q.1] == Unknown
    ensures RowMajor(RowUnknowns(g, i, j))
    decreases j
  {
    if j > 1 {
      var s := RowUnknowns(g, i, j - 1);
      RowUnknownsSpec(g, i, j - 1);
      if g[i][j - 1] == Unknown {
        RowMajorAppend(s, [(i, j - 1)]);
      }
    }
  }

  /** The unknown cells of interior rows 1 .. i-1, in row-major order. */
  function RowsUnknowns(g: Grid, i: int): (s: seq<Pos>)
    requires Rect(g) && Width(g) >= 2 && 1 <= i < |g|
    ensures |s| <= (i - 1) * (Width(g) - 2)
    decreases i
  {
    if i == 1 then []
    else
      MulSucc(i - 2, Width(g) - 2);
      RowsUnknowns(g, i - 1) + RowUnknowns(g, i - 1, Width(g) - 1)
  }

  /** The scan of rows 1 .. i-1 lists exactly their unknown interior cells, in row-major order. */
  lemma {:induction false} RowsUnknownsSpec(g: Grid, i: int)
    requires Rect(g) && Width(g) >= 2 && 1 <= i < |g|
    ensures forall q :: q in RowsUnknowns(g, i) <==> 1 <= q.0 < i && 1 <= q.1 < Width(g) - 1 && g[q.0][q.1] == Unknown
    ensures RowMajor(RowsUnknowns(g, i))
    decreases i
  {
    if i > 1 {
      RowsUnknownsSpec(g, i - 1);
      RowUnknownsSpec(g, i - 1, Width(g) - 1);
      RowMajorAppend(RowsUnknowns(g, i - 1), RowUnknowns(g, i - 1, Width(g) - 1));
    }
  }

  /** The unknown cells of the whole interior, in the order find_unknowns lists them. */
  function ScanUnknowns(g: Grid): (s: seq<Pos>)
    requires Rect(g) && |g| >= 2 && Width(g) >= 2
  {
    RowsUnknowns(g, |g| - 1)
  }

  /** No cell occurs twice. */
  ghost predicate Distinct(s: seq<Pos>)
  {
    forall q :: multiset(s)[q] <= 1
  }

  /** Two different positions of a distinct list hold different cells. */
  lemma DistinctAt(s: seq<Pos>, i: int, j: int)
    requires Distinct(s) && 0 <= i < j < |s|
    ensures s[i] != s[j]
  {
    var a, b, c := s[..i], s[i + 1..j], s[j + 1..];
    assert s == a + [s[i]] + b + [s[j]] + c;
    assert multiset(s) == multiset(a) + multiset{s[i]} + multiset(b) + multiset{s[j]} + multiset(c);
    assert multiset(s)[s[j]] >= multiset{s[i]}[s[j]] + 1;
  }

  /** Strict row-major order lists no cell twice. */
  lemma {:induction false} RowMajorIsDistinct(s: seq<Pos>)
    requires RowMajor(s)
    ensures Distinct(s)
  {
    if |s| > 0 {
      var t, x := s[..|s| - 1], s[|s| - 1];
      assert RowMajor(t);
      RowMajorIsDistinct(t);
      assert s == t + [x];
      forall a | 0 <= a < |t|
        ensures t[a] != x
      {
        assert Before(s[a], s[|s| - 1]);
      }
    }
  }

  /** On a bordered grid the scan lists exactly the unknown cells. */
  lemma ScanIsUnknownSet(g: Grid)
    requires Bordered(g)
    ensures forall q :: q in ScanUnknowns(g) <==> InRange(g, q) && At(g, q) == Unknown
    ensures RowMajor(ScanUnknowns(g))
  {
    RowsUnknownsSpec(g, |g| - 1);
    forall q | InRange(g, q) && At(g, q) == Unknown
      ensures q in ScanUnknowns(g)
    {
      UnknownIsInterior(g, q);
    }
  }

  /** A sequence in strict row-major order holds as many cells as it is long. */
  lemma {:induction false} RowMajorCard(s: seq<Pos>)
    requires RowMajor(s)
    ensures |(set q | q in s)| == |s|
  {
    if |s| > 0 {
      var t := s[..|s| - 1];
      var x := s[|s| - 1];
      RowMajorCard(t);
      assert (set q | q in s) == (set q | q in t) + {x} by {
        assert s == t + [x];
      }
      assert x !in t by {
        forall a | 0 <= a < |t|
          ensures t[a] != x
        {
          assert Before(s[a], s[|s| - 1]);
        }
      }
    }
  }

  /** The scan is as long as the grid has unknown cells. */
  lemma ScanCountsUnknowns(g: Grid)
    requires Bordered(g)
    ensures |ScanUnknowns(g)| == |UnknownSet(g)|
  {
    var s := ScanUnknowns(g);
    ScanIsUnknownSet(g);
    RowMajorCard(s);
    assert (set q | q in s) == UnknownSet(g) by {
      forall q | q in UnknownSet(g)
        ensures q in s
      {
        var i, j :| 0 <= i < |g| && 0 <= j < |g[i]| && g[i][j] == Unknown && q == (i, j);
        assert InRange(g, q) && At(g, q) == Unknown;
      }
    }
  }

  /** The scan never outgrows the unknown list, which holds nrows * ncols + 1 entries. */
  lemma ScanFits(g: Grid, i: int, j: int)
    requires Rect(g) && |g| >= 2 && Width(g) >= 2 && 1 <= i < |g| && 1 <= j <= Width(g) - 1
    ensures |RowsUnknowns(g, i) + RowUnknowns(g, i, j)| < |g| * Width(g) + 1
  {
    var w := Width(g) - 2;
    var a := |RowsUnknowns(g, i)|;
    var b := |RowUnknowns(g, i, j)|;
    assert a <= (i - 1) * w && b <= w;
    MulSucc(i - 1, w);
    assert a + b <= i * w;
    MulMono(i, w, |g|, Width(g));
  }

  /** ... and the whole scan leaves room for the sentinel. */
  lemma ScanFitsAll(g: Grid)
    requires Rect(g) && |g| >= 2 && Width(g) >= 2
    ensures |ScanUnknowns(g)| < |g| * Width(g) + 1
  {
    ScanFits(g, |g| - 1, 1);
    assert RowUnknowns(g, |g| - 1, 1) == [];
    assert ScanUnknowns(g) + RowUnknowns(g, |g| - 1, 1) == ScanUnknowns(g);
  }

  lemma MulSucc(a: int, w: int)
    ensures a * w + w == (a + 1) * w
  {
  }

  lemma MulMono(a: nat, b: nat, c: nat, d: nat)
    requires a <= c && b <= d
    ensures a * b <= c * d
  {
    assert a * b <= c * b;
  }

  /** The mine-on cells of row i, columns 1 .. j-1. */
  function RowMines(g: Grid, i: int, j: int): (n: nat)
    requires Rect(g) && 0 <= i < |g| && 1 <= j <= Width(g)
    ensures n <= j - 1
    decreases j
  {
    if j == 1 then 0
    else RowMines(g, i, j - 1) + (if g[i][j - 1] == MineOn then 1 else 0)
  }

  /** The mine-on cells of interior rows 1 .. i-1. */
  function RowsMines(g: Grid, i: int): (n: nat)
    requires Rect(g) && Width(g) >= 2 && 1 <= i < |g|
    decreases i
  {
    if i == 1 then 0 else RowsMines(g, i - 1) + RowMines(g, i - 1, Width(g) - 1)
  }

  /** The mines already on the interior of the board. */
  function MinesOnBoard(g: Grid): nat
    requires Rect(g) && |g| >= 2 && Width(g) >= 2
  {
    RowsMines(g, |g| - 1)
  }

  /** The mine-on cells of the interior. */
  ghost function MineSet(g: Grid): set<Pos>
    requires Rect(g)
  {
    set i, j | 1 <= i < |g| - 1 && 1 <= j < Width(g) - 1 && g[i][j] == MineOn :: (i, j)
  }

  /** The mine-on cells of row i, columns 1 .. j-1. */
  ghost function RowMineSet(g: Grid, i: int, j: int): set<Pos>
    requires Rect(g) && 0 <= i < |g|
  {
    set c | 1 <= c < j && c < Width(g) && g[i][c] == MineOn :: (i, c)
  }

  /** The mine-on cells of interior rows 1 .. i-1. */
  ghost function RowsMineSet(g: Grid, i: int): set<Pos>
    requires Rect(g) && i <= |g|
  {
    set r, c | 1 <= r < i && 1 <= c < Width(g) - 1 && g[r][c] == MineOn :: (r, c)
  }

  lemma {:induction false} RowMinesCount(g: Grid, i: int, j: int)
    requires Rect(g) && 0 <= i < |g| && 1 <= j <= Width(g)
    ensures RowMines(g, i, j) == |RowMineSet(g, i, j)|
    decreases j
  {
    if j > 1 {
      RowMinesCount(g, i, j - 1);
      var x := (i, j - 1);
      if g[i][j - 1] == MineOn {
        assert RowMineSet(g, i, j) == RowMineSet(g, i, j - 1) + {x};
        assert x !in RowMineSet(g, i, j - 1);
      } else {
        assert RowMineSet(g, i, j) == RowMineSet(g, i, j - 1);
      }
    } else {
      assert RowMineSet(g, i, j) == {};
    }
  }

  lemma {:induction false} RowsMinesCount(g: Grid, i: int)
    requires Rect(g) && Width(g) >= 2 && 1 <= i < |g|
    ensures RowsMines(g, i) == |RowsMineSet(g, i)|
    decreases i
  {
    if i > 1 {
      RowsMinesCount(g, i - 1);
      RowMinesCount(g, i - 1, Width(g) - 1);
      var above, row := RowsMineSet(g, i - 1), RowMineSet(g, i - 1, Width(g) - 1);
      assert RowsMineSet(g, i) == above + row;
      assert above * row == {} by {
        forall q | q in row
          ensures q !in above
        {
        }
      }
    } else {
      assert RowsMineSet(g, i) == {};
    }
  }

  /** The mine count preprocess_grid's nested loop takes is the number of interior mine-on cells. */
  lemma MinesOnBoardCount(g: Grid)
    requires Rect(g) && |g| >= 2 && Width(g) >= 2
    ensures MinesOnBoard(g) == |MineSet(g)|
  {
    RowsMinesCount(g, |g| - 1);
    assert MineSet(g) == RowsMineSet(g, |g| - 1);
  }
}
