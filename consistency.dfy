/**
  The local feasibility oracle: after a cell changes, only the numbered
  tiles of the 3x3 block around it are re-examined, each against its own
  3x3 block.  A tile showing N with M mines and Q unknowns around it is
  consistent when M <= N <= M + Q.
*/
module Consistency {
  import opened Board

  /** A tile that is not numbered constrains nothing. */
  predicate TileOK(g: Grid, t: Pos)
    requires Bordered(g) && InRange(g, t)
  {
    IsNumber(At(g, t)) ==>
      (NumberIsInterior(g, t);
       var m := CountAround(g, t, Mines);
       m <= TileNum(At(g, t)) <= m + CountAround(g, t, Unknowns))
  }

  /** The scan of the block from its k-th cell on; it stops at the first violation. */
  function CheckFrom(g: Grid, p: Pos, k: nat): (r: bool)
    requires Bordered(g) && Interior(g, p) && k <= 9
    ensures r <==> forall i :: k <= i < 9 ==> TileOK(g, Shift(p, i))
    decreases 9 - k
  {
    k == 9 || (TileOK(g, Shift(p, k)) && CheckFrom(g, p, k + 1))
  }

  /**
    The consistency check around the cell p.  It reads only the grid it is
    given; p is interior, so the tiles it scans are in range, and a
    numbered one among them is itself interior because the ring holds no
    numbers, so its own block is in range as well.
  */
  function ConsistencyCheck(g: Grid, p: Pos): (r: bool)
    requires Bordered(g) && Interior(g, p)
    ensures r <==> forall k :: 0 <= k < 9 ==> TileOK(g, Shift(p, k))
  {
    CheckFrom(g, p, 0)
  }

  /**
    h is g with some unknown cells decided: every other cell is unchanged
    and a decided cell is mine on or mine off.
  */
  ghost predicate Extends(g: Grid, h: Grid)
  {
    && Rect(g) && Rect(h) && |g| == |h| && Width(g) == Width(h)
    && forall q {:trigger At(h, q)} :: InRange(g, q) ==>
         At(h, q) == At(g, q) || (At(g, q) == Unknown && (At(h, q) == MineOn || At(h, q) == MineOff))
  }

  lemma ExtendsRefl(g: Grid)
    requires Rect(g)
    ensures Extends(g, g)
  {
  }

  /** Deciding in two rounds is deciding once. */
  lemma ExtendsTrans(a: Grid, b: Grid, c: Grid)
    requires Extends(a, b) && Extends(b, c)
    ensures Extends(a, c)
  {
    forall q | InRange(a, q)
      ensures At(c, q) == At(a, q) || (At(a, q) == Unknown && (At(c, q) == MineOn || At(c, q) == MineOff))
    {
      assert At(b, q) == At(a, q) || (At(a, q) == Unknown && (At(b, q) == MineOn || At(b, q) == MineOff));
      assert At(c, q) == At(b, q) || (At(b, q) == Unknown && (At(c, q) == MineOn || At(c, q) == MineOff));
    }
  }

  /** Deciding cells only removes unknowns. */
  lemma ExtendsShrinks(g: Grid, h: Grid)
    requires Extends(g, h)
    ensures UnknownSet(h) <= UnknownSet(g)
    ensures |UnknownSet(h)| <= |UnknownSet(g)|
  {
    forall q | q in UnknownSet(h)
      ensures q in UnknownSet(g)
    {
      assert InRange(h, q) && At(h, q) == Unknown;
    }
    assert UnknownSet(g) == UnknownSet(h) + (UnknownSet(g) - UnknownSet(h));
  }

  /** Deciding unknowns can only add mines, and at most as many as there were unknowns. */
  lemma {:induction false} CountMonotone(g: Grid, h: Grid, t: Pos, n: nat)
    requires Extends(g, h) && Interior(g, t) && n <= 9
    ensures CountFirst(g, t, Mines, n) <= CountFirst(h, t, Mines, n)
    ensures CountFirst(h, t, Mines, n) <= CountFirst(g, t, Mines, n) + CountFirst(g, t, Unknowns, n)
  {
    if n > 0 {
      CountMonotone(g, h, t, n - 1);
      var q := Shift(t, n - 1);
      assert At(h, q) == At(g, q) || (At(g, q) == Unknown && (At(h, q) == MineOn || At(h, q) == MineOff));
    }
  }

  /** Where there was no unknown, deciding unknowns changes no mine count. */
  lemma {:induction false} CountUnchanged(g: Grid, h: Grid, t: Pos, n: nat)
    requires Extends(g, h) && Interior(g, t) && n <= 9
    requires CountFirst(g, t, Unknowns, n) == 0
    ensures CountFirst(h, t, Mines, n) == CountFirst(g, t, Mines, n)
  {
    if n > 0 {
      CountUnchanged(g, h, t, n - 1);
      assert InRange(g, Shift(t, n - 1));
    }
  }

  /** A positive unknown count names an unknown cell of the block. */
  lemma {:induction false} UnknownWitness(g: Grid, t: Pos, n: nat) returns (k: nat)
    requires Rect(g) && Interior(g, t) && n <= 9
    requires CountFirst(g, t, Unknowns, n) > 0
    ensures k < n && At(g, Shift(t, k)) == Unknown
  {
    if CountFirst(g, t, Unknowns, n - 1) > 0 {
      k := UnknownWitness(g, t, n - 1);
    } else {
      k := n - 1;
    }
  }
}
