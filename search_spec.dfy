/**
  What the backtracking search counts, stated independently of it.

  Goals enumerates every mine-off / mine-on assignment of the remaining
  decision cells, in the search's own order (off before on), and counts
  an assignment as a goal state when every numbered tile in the 3x3
  block of a decided cell shows exactly the number of mines around it,
  and the mine target, when one is set, is met exactly.  The search
  itself only ever looks at partial assignments through the local
  consistency check; the Locality lemma below is what makes that pruning
  sound and complete.
*/
module SearchSpec {
  import opened Board
  import opened Consistency
  import opened Scan

  /** No target is set when mine_target is -1. */
  const NoTarget: int := -1

  predicate TargetMet(mines: int, target: int)
  {
    target == NoTarget || mines == target
  }

  /** Every decision cell lies inside the ring of a grid of the given size. */
  predicate InsideAll(rows: int, cols: int, inds: seq<Pos>)
  {
    forall j :: 0 <= j < |inds| ==> 1 <= inds[j].0 < rows - 1 && 1 <= inds[j].1 < cols - 1
  }

  /** The decision cells are distinct interior cells of the grid. */
  ghost predicate ValidDecisions(g: Grid, inds: seq<Pos>)
    requires Rect(g)
  {
    Distinct(inds) && InsideAll(|g|, Width(g), inds)
  }

  /** q is one of the decision cells from index k on. */
  ghost predicate ListedFrom(inds: seq<Pos>, k: nat, q: Pos)
  {
    exists m :: k <= m < |inds| && inds[m] == q
  }

  /** q is one of the decision cells at an index in lo .. hi-1. */
  ghost predicate ListedBetween(inds: seq<Pos>, lo: int, hi: int, q: Pos)
  {
    exists m :: lo <= m < hi && 0 <= m < |inds| && inds[m] == q
  }

  /** Widening the index range by one adds that index's cell. */
  lemma ListedStep(inds: seq<Pos>, lo: int, k: nat, q: Pos)
    requires lo <= k < |inds|
    ensures ListedBetween(inds, lo, k + 1, q) <==> ListedBetween(inds, lo, k, q) || q == inds[k]
  {
  }

  /** In a list without repeats, a cell is not listed before its own index. */
  lemma NotListedBefore(inds: seq<Pos>, k: int)
    requires Distinct(inds) && 0 <= k < |inds|
    ensures !ListedBetween(inds, 0, k, inds[k])
  {
    if ListedBetween(inds, 0, k, inds[k]) {
      var m :| 0 <= m < k && inds[m] == inds[k];
      DistinctAt(inds, m, k);
    }
  }

  /** Up to the end of the list, the range is everything from lo on. */
  lemma ListedToEnd(inds: seq<Pos>, lo: nat, hi: int, q: Pos)
    requires hi >= |inds|
    ensures ListedBetween(inds, lo, hi, q) <==> ListedFrom(inds, lo, q)
  {
  }

  /** The unknown cells of g are exactly the decision cells from index k on. */
  ghost predicate UnknownsExactly(g: Grid, inds: seq<Pos>, k: nat)
    requires Rect(g) && ValidDecisions(g, inds) && k <= |inds|
  {
    && (forall j :: k <= j < |inds| ==> At(g, inds[j]) == Unknown)
    && (forall q {:trigger At(g, q)} :: InRange(g, q) && At(g, q) == Unknown ==> ListedFrom(inds, k, q))
  }

  /**
    The variable-ordering heuristic's goal: cells with more numbered tiles
    around them come first.
  */
  predicate MostConstrainedFirst(g: Grid, inds: seq<Pos>)
    requires Rect(g) && InsideAll(|g|, Width(g), inds)
  {
    forall a, b :: 0 <= a < b < |inds| ==> CountAround(g, inds[a], Numbers) >= CountAround(g, inds[b], Numbers)
  }

  /** The row-major scan of a bordered grid is a valid decision list holding exactly its unknowns. */
  lemma ScanIsDecisions(g: Grid)
    requires Bordered(g)
    ensures ValidDecisions(g, ScanUnknowns(g)) && UnknownsExactly(g, ScanUnknowns(g), 0)
  {
    var s := ScanUnknowns(g);
    ScanIsUnknownSet(g);
    RowMajorIsDistinct(s);
    forall j | 0 <= j < |s|
      ensures 1 <= s[j].0 < |g| - 1 && 1 <= s[j].1 < Width(g) - 1 && At(g, s[j]) == Unknown
    {
      assert s[j] in s;
      UnknownIsInterior(g, s[j]);
    }
    forall q | InRange(g, q) && At(g, q) == Unknown
      ensures ListedFrom(s, 0, q)
    {
      var m :| 0 <= m < |s| && s[m] == q;
    }
  }

  /** Reordering the decision cells keeps them valid, and keeps them the exact unknowns. */
  lemma DecisionsPermuted(g: Grid, s: seq<Pos>, t: seq<Pos>)
    requires Rect(g) && ValidDecisions(g, s) && multiset(s) == multiset(t)
    ensures ValidDecisions(g, t)
    ensures UnknownsExactly(g, s, 0) ==> UnknownsExactly(g, t, 0)
  {
    forall j | 0 <= j < |t|
      ensures 1 <= t[j].0 < |g| - 1 && 1 <= t[j].1 < Width(g) - 1 && t[j] in s
    {
      assert t[j] in multiset(t);
      var m :| 0 <= m < |s| && s[m] == t[j];
    }
    if UnknownsExactly(g, s, 0) {
      forall q | InRange(g, q) && At(g, q) == Unknown
        ensures ListedFrom(t, 0, q)
      {
        var m :| 0 <= m < |s| && s[m] == q;
        assert q in multiset(t);
        var m' :| 0 <= m' < |t| && t[m'] == q;
      }
    }
  }

  /**
    A numbered tile whose block holds exactly as many mines as its number.
    (On a bordered grid a numbered tile is always interior.)
  */
  predicate TileExact(g: Grid, t: Pos)
    requires Rect(g) && InRange(g, t)
  {
    IsNumber(At(g, t)) ==> Interior(g, t) && CountAround(g, t, Mines) == TileNum(At(g, t))
  }

  predicate ExactAround(g: Grid, p: Pos)
    requires Rect(g) && Interior(g, p)
  {
    forall k {:trigger TileExact(g, Shift(p, k))} :: 0 <= k < 9 ==> TileExact(g, Shift(p, k))
  }

  /** Every tile around a decision cell from index from on is satisfied exactly. */
  predicate ExactFrom(g: Grid, inds: seq<Pos>, from: nat)
    requires Rect(g) && InsideAll(|g|, Width(g), inds)
  {
    forall j {:trigger ExactAround(g, inds[j])} :: from <= j < |inds| ==> ExactAround(g, inds[j])
  }

  /**
    The reference count: decisions from..k-1 are already in g with mines
    of them on; enumerate decisions k.. off first, then on.
  */
  ghost function Goals(g: Grid, inds: seq<Pos>, from: nat, k: nat, mines: int, target: int): nat
    requires Rect(g) && InsideAll(|g|, Width(g), inds) && from <= k <= |inds|
    decreases |inds| - k
  {
    if k == |inds| then
      (if ExactFrom(g, inds, from) && TargetMet(mines, target) then 1 else 0)
    else
      Goals(Set(g, inds[k], MineOff), inds, from, k + 1, mines, target)
      + Goals(Set(g, inds[k], MineOn), inds, from, k + 1, mines + 1, target)
  }

  /** In single-solution mode the search stops at the first goal state. */
  function Reported(single: bool, goals: nat): nat
  {
    if single && goals > 1 then 1 else goals
  }

  /** Mines are only ever added, so a count already past a set target yields nothing. */
  lemma {:induction false} PastTarget(g: Grid, inds: seq<Pos>, from: nat, k: nat, mines: int, target: int)
    requires Rect(g) && InsideAll(|g|, Width(g), inds) && from <= k <= |inds|
    requires target != NoTarget && mines > target
    ensures Goals(g, inds, from, k, mines, target) == 0
    decreases |inds| - k
  {
    if k < |inds| {
      PastTarget(Set(g, inds[k], MineOff), inds, from, k + 1, mines, target);
      PastTarget(Set(g, inds[k], MineOn), inds, from, k + 1, mines + 1, target);
    }
  }

  /** Exact tiles at a full assignment pass the check on any grid it extends. */
  lemma ExactPassesCheck(p: Grid, g: Grid, x: Pos)
    requires Bordered(p) && Bordered(g) && Extends(p, g) && Interior(p, x)
    requires ExactAround(g, x)
    ensures ConsistencyCheck(p, x)
  {
    forall k | 0 <= k < 9
      ensures TileOK(p, Shift(x, k))
    {
      var t := Shift(x, k);
      assert TileExact(g, t);
      if IsNumber(At(p, t)) {
        NumberIsInterior(p, t);
        MarksAreNotNumbers();
        CountMonotone(p, g, t, 9);
      }
    }
  }

  /**
    Conversely a tile that passed the check on p is exact on the full
    assignment g: either no unknown was left around it, or one was, and
    that cell is a later decision whose own block covers the tile.
  */
  lemma CheckedIsExact(p: Grid, g: Grid, inds: seq<Pos>, k: nat)
    requires Bordered(p) && Bordered(g) && Extends(p, g) && ValidDecisions(p, inds) && k < |inds|
    requires UnknownsExactly(p, inds, k + 1)
    requires ConsistencyCheck(p, inds[k]) && ExactFrom(g, inds, k + 1)
    ensures ExactAround(g, inds[k])
  {
    forall o | 0 <= o < 9
      ensures TileExact(g, Shift(inds[k], o))
    {
      CheckedTileIsExact(p, g, inds, k, Shift(inds[k], o));
    }
  }

  /** One tile of the block: the argument of CheckedIsExact for the tile t. */
  lemma CheckedTileIsExact(p: Grid, g: Grid, inds: seq<Pos>, k: nat, t: Pos)
    requires Bordered(p) && Bordered(g) && Extends(p, g) && ValidDecisions(p, inds) && k < |inds|
    requires UnknownsExactly(p, inds, k + 1)
    requires InRange(p, t) && TileOK(p, t) && ExactFrom(g, inds, k + 1)
    ensures TileExact(g, t)
  {
    if IsNumber(At(g, t)) {
      MarksAreNotNumbers();
      assert At(p, t) == At(g, t);
      NumberIsInterior(p, t);
      if CountAround(p, t, Unknowns) == 0 {
        CountUnchanged(p, g, t, 9);
      } else {
        var o' := UnknownWitness(p, t, 9);
        var c := Shift(t, o');
        assert ListedFrom(inds, k + 1, c);
        var i :| k + 1 <= i < |inds| && inds[i] == c;
        assert ExactAround(g, inds[i]);
        ShiftBack(t, o');
        assert TileExact(g, Shift(c, 8 - o'));
      }
    }
  }

  /**
    The grid p just after decision k was written: decisions k+1.. are
    exactly its unknown cells.
  */
  ghost predicate Anchor(p: Grid, inds: seq<Pos>, k: nat)
  {
    Bordered(p) && ValidDecisions(p, inds) && k < |inds| && UnknownsExactly(p, inds, k + 1)
  }

  /**
    Locality of the oracle.  For any g that decides some of the unknowns
    of p, counting the completions of g that are exact around decisions
    k.. is the same as checking decision k once on p and then counting
    the completions exact around decisions k+1..
  */
  lemma {:induction false} Locality(p: Grid, g: Grid, inds: seq<Pos>, k: nat, j: nat, mines: int, target: int)
    requires Anchor(p, inds, k) && Bordered(g) && Extends(p, g) && k < j <= |inds|
    ensures Goals(g, inds, k, j, mines, target)
         == if ConsistencyCheck(p, inds[k]) then Goals(g, inds, k + 1, j, mines, target) else 0
    decreases |inds| - j
  {
    if j == |inds| {
      LocalityLeaf(p, g, inds, k);
    } else {
      LocalityDecided(p, g, inds, k, j, MineOff, Set(g, inds[j], MineOff), mines, target);
      LocalityDecided(p, g, inds, k, j, MineOn, Set(g, inds[j], MineOn), mines + 1, target);
    }
  }

  /** Locality for the grid where decision j has been written as v. */
  lemma {:induction false} LocalityDecided(p: Grid, g: Grid, inds: seq<Pos>, k: nat, j: nat, v: int, h: Grid, mines: int, target: int)
    requires Anchor(p, inds, k) && Bordered(g) && Extends(p, g) && k < j < |inds|
    requires v == MineOn || v == MineOff
    requires h == Set(g, inds[j], v)
    ensures Rect(h) && |h| == |g| && Width(h) == Width(g)
    ensures Goals(h, inds, k, j + 1, mines, target)
         == if ConsistencyCheck(p, inds[k]) then Goals(h, inds, k + 1, j + 1, mines, target) else 0
    decreases |inds| - j, 0
  {
    DecidedStillExtends(p, g, inds, k, j, v);
    Locality(p, h, inds, k, j + 1, mines, target);
  }

  /** At a full assignment the exact tiles around decisions k.. split into decision k and the rest. */
  lemma LocalityLeaf(p: Grid, g: Grid, inds: seq<Pos>, k: nat)
    requires Bordered(p) && Bordered(g) && Extends(p, g) && ValidDecisions(p, inds) && k < |inds|
    requires UnknownsExactly(p, inds, k + 1)
    ensures ExactFrom(g, inds, k) <==> ConsistencyCheck(p, inds[k]) && ExactFrom(g, inds, k + 1)
  {
    if ConsistencyCheck(p, inds[k]) && ExactFrom(g, inds, k + 1) {
      CheckedIsExact(p, g, inds, k);
    }
    if ExactFrom(g, inds, k) {
      ExactPassesCheck(p, g, inds[k]);
    }
  }

  /** Writing a later decision cell keeps g an extension of p. */
  lemma DecidedStillExtends(p: Grid, g: Grid, inds: seq<Pos>, k: nat, j: nat, v: int)
    requires Anchor(p, inds, k) && Bordered(g) && Extends(p, g) && k < j < |inds|
    requires v == MineOn || v == MineOff
    ensures Bordered(Set(g, inds[j], v)) && Extends(p, Set(g, inds[j], v))
  {
    var x := inds[j];
    assert At(p, x) == Unknown;
    SetKeepsBorder(g, x, v);
  }

  /** Writing decision k of a grid whose unknowns are decisions k.. anchors the search at k. */
  lemma AnchorAfterDecide(g: Grid, inds: seq<Pos>, k: nat, v: int)
    requires Bordered(g) && ValidDecisions(g, inds) && k < |inds| && UnknownsExactly(g, inds, k)
    requires v == MineOn || v == MineOff
    ensures Anchor(Set(g, inds[k], v), inds, k)
  {
    var x := inds[k];
    var h := Set(g, x, v);
    SetKeepsBorder(g, x, v);
    forall j | k + 1 <= j < |inds|
      ensures At(h, inds[j]) == Unknown
    {
      DistinctAt(inds, k, j);
    }
    forall q | InRange(h, q) && At(h, q) == Unknown
      ensures ListedFrom(inds, k + 1, q)
    {
      MarksAreNotNumbers();
      assert At(g, q) == Unknown;
      var m :| k <= m < |inds| && inds[m] == q;
    }
  }

  /** h differs from g at most in the decision cells from index k on. */
  ghost predicate SameOutside(g: Grid, h: Grid, inds: seq<Pos>, k: nat)
  {
    && Rect(g) && Rect(h) && |h| == |g| && Width(h) == Width(g)
    && forall q {:trigger At(h, q)} :: InRange(g, q) && !ListedFrom(inds, k, q) ==> At(h, q) == At(g, q)
  }

  /** Writing decision k, then changing only decisions k+1.., changes only decisions k.. */
  lemma SameOutsideStep(g: Grid, p: Grid, h: Grid, inds: seq<Pos>, k: nat, v: int)
    requires Rect(g) && InsideAll(|g|, Width(g), inds) && k < |inds|
    requires p == Set(g, inds[k], v) && SameOutside(p, h, inds, k + 1)
    ensures SameOutside(g, h, inds, k)
  {
    forall q | InRange(g, q) && !ListedFrom(inds, k, q)
      ensures At(h, q) == At(g, q)
    {
      assert q != inds[k];
      assert !ListedFrom(inds, k + 1, q);
      assert At(h, q) == At(p, q);
    }
  }

  /**
    After the search below decision k has run on p, resetting decisions
    k+1.. to unknown gives p back: the search touched no other cell, and
    those cells were unknown in p.
  */
  lemma ClearRestores(p: Grid, a: Grid, c: Grid, inds: seq<Pos>, k: nat)
    requires Anchor(p, inds, k) && SameOutside(p, a, inds, k + 1)
    requires Rect(c) && |c| == |p| && Width(c) == Width(p)
    requires forall q :: InRange(a, q) ==> At(c, q) == if ListedFrom(inds, k + 1, q) then Unknown else At(a, q)
    ensures c == p
  {
    forall q | InRange(p, q)
      ensures At(c, q) == At(p, q)
    {
      if ListedFrom(inds, k + 1, q) {
        var m :| k + 1 <= m < |inds| && inds[m] == q;
        assert At(p, inds[m]) == Unknown;
      } else {
        assert At(a, q) == At(p, q);
      }
    }
    GridExt(c, p);
  }

  /**
    What one branch of the search contributes once decision k is written
    into p: nothing when the check around it fails; otherwise the goals
    below it while the target is not exceeded, or, at the last decision,
    one goal when the target is met.
  */
  ghost function Branch(p: Grid, inds: seq<Pos>, k: nat, mines: int, target: int): nat
    requires Anchor(p, inds, k)
  {
    if !ConsistencyCheck(p, inds[k]) then 0
    else if k < |inds| - 1 && (target == NoTarget || mines <= target) then Goals(p, inds, k + 1, k + 1, mines, target)
    else if k == |inds| - 1 && TargetMet(mines, target) then 1
    else 0
  }

  /** The search's branch is exactly the reference count below decision k. */
  lemma BranchIsGoals(p: Grid, inds: seq<Pos>, k: nat, mines: int, target: int)
    requires Anchor(p, inds, k)
    ensures Goals(p, inds, k, k + 1, mines, target) == Branch(p, inds, k, mines, target)
  {
    ExtendsRefl(p);
    Locality(p, p, inds, k, k + 1, mines, target);
    if k < |inds| - 1 && !(target == NoTarget || mines <= target) {
      PastTarget(p, inds, k + 1, k + 1, mines, target);
    }
  }

  /**
    A consistent decision below the target, with cells left, leaves the
    rest of the count to the next cell.  next is k + 1, named by the
    caller so that the recursive call's precondition and postcondition
    match these clauses without arithmetic inside function applications.
  */
  lemma BranchDescends(p: Grid, inds: seq<Pos>, k: nat, next: nat, mines: int, target: int)
    requires Anchor(p, inds, k) && next == k + 1 && next < |inds|
    requires ConsistencyCheck(p, inds[k]) && (target == NoTarget || mines <= target)
    ensures UnknownsExactly(p, inds, next)
    ensures Branch(p, inds, k, mines, target) == Goals(p, inds, next, next, mines, target)
  {
  }

  /**
    Where the search does not go deeper, the branch is one goal exactly at
    a consistent last decision that meets the target.  consistent is the
    caller's result of the check, so that the caller need not unfold Branch.
  */
  lemma BranchStops(p: Grid, inds: seq<Pos>, k: nat, mines: int, target: int, consistent: bool)
    requires Anchor(p, inds, k) && consistent == ConsistencyCheck(p, inds[k])
    requires !(consistent && k < |inds| - 1 && (target == NoTarget || mines <= target))
    ensures Branch(p, inds, k, mines, target) == (if consistent && k == |inds| - 1 && TargetMet(mines, target) then 1 else 0)
  {
  }



  /**
    The two branches add up as the reference count does, and in
    single-solution mode reporting the first branch's goal alone, when it
    has one, reports the same as reporting the sum.
  */
  lemma ReportedSum(single: bool, off: nat, on: nat)
    ensures single && Reported(single, off) != 0 ==> Reported(single, off + on) == Reported(single, off)
    ensures !(single && Reported(single, off) != 0) ==> Reported(single, off + on) == Reported(single, off) + Reported(single, on)
  {
  }

  /**
    The count solve_tree reports for decision k, in terms of its two
    branches: the off branch alone when it already produced a goal in
    single-solution mode or the target is reached (the on branch would
    exceed it), both branches otherwise.
  */
  lemma TreeCount(single: bool, g: Grid, pOff: Grid, pOn: Grid, inds: seq<Pos>, k: nat, mines: int, on: int, target: int)
    requires Bordered(g) && ValidDecisions(g, inds) && k < |inds|
    requires pOff == Set(g, inds[k], MineOff) && pOn == Set(g, inds[k], MineOn) && on == mines + 1
    requires Anchor(pOff, inds, k) && Anchor(pOn, inds, k)
    ensures var off := Reported(single, Branch(pOff, inds, k, mines, target));
      Reported(single, Goals(g, inds, k, k, mines, target))
        == if (single && off != 0) || (target >= 0 && mines == target) then off
           else off + Reported(single, Branch(pOn, inds, k, on, target))
  {
    BranchIsGoals(pOff, inds, k, mines, target);
    BranchIsGoals(pOn, inds, k, on, target);
    var goalsOn := Goals(pOn, inds, k, k + 1, on, target);
    assert Goals(g, inds, k, k, mines, target) == Goals(pOff, inds, k, k + 1, mines, target) + goalsOn;
    if target >= 0 && mines == target {
      PastTarget(pOn, inds, k, k + 1, on, target);
    }
    ReportedSum(single, Goals(pOff, inds, k, k + 1, mines, target), goalsOn);
  }
}
