/**
  Pre-resolution can change the number of goal states.

  The one-row board `1?0` has no completion: its unknown cell must be a
  mine for the `1` and must not be one for the `0`.  The search alone
  finds this and reports no goal state.  resolve_tile on the `1` first
  turns the unknown on; the `0` then fires neither way, no unknown is
  left, and main counts the board as one goal state.
*/
module PreresolveExample {
  import opened Board
  import opened Consistency
  import opened Scan
  import opened Propagation
  import opened SearchSpec
  import opened Solver

  const Ring: seq<int> := [MineOff, MineOff, MineOff, MineOff, MineOff]

  /** The board `1?0` inside its ring. */
  const Example: Grid := [Ring, [MineOff, '1' as int, Unknown, '0' as int, MineOff], Ring]

  /** The only unknown cell of the example. */
  const Middle: Pos := (1, 2)

  lemma ExampleBordered()
    ensures Bordered(Example) && |Example| == 3 && Width(Example) == 5
  {
  }

  /** Row by row, the scan finds the middle cell and nothing else. */
  lemma ExampleScan()
    ensures ScanUnknowns(Example) == [Middle]
  {
    ExampleBordered();
    assert RowUnknowns(Example, 1, 2) == [];
    assert RowUnknowns(Example, 1, 3) == [Middle];
    assert RowUnknowns(Example, 1, 4) == [Middle];
    assert RowsUnknowns(Example, 2) == [Middle];
  }

  /** Apart from the middle cell, the example holds no mine and no unknown. */
  lemma OnlyMiddleUndecided(q: Pos)
    requires 0 <= q.0 < 3 && 0 <= q.1 < 5 && q != Middle
    ensures Example[q.0][q.1] != MineOn && Example[q.0][q.1] != Unknown
  {
    assert q.0 == 0 || q.0 == 1 || q.0 == 2;
    assert q.1 == 0 || q.1 == 1 || q.1 == 2 || q.1 == 3 || q.1 == 4;
  }

  /**
    The cells of a kind among the first n of the block around either tile,
    once the middle cell holds v: only the middle cell, at offset before,
    can be a mine or an unknown.
  */
  lemma {:induction false} TileCount(v: int, p: Pos, kind: Kind, c: nat, before: nat, n: nat)
    requires p == (1, 1) || p == (1, 3)
    requires before == (if p == (1, 1) then 5 else 3) && n <= 9
    requires kind != Numbers && c == if IsKind(v, kind) then 1 else 0
    ensures Rect(Set(Example, Middle, v)) && Interior(Set(Example, Middle, v), p)
    ensures CountFirst(Set(Example, Middle, v), p, kind, n) == if n > before then c else 0
    decreases n
  {
    ExampleBordered();
    if n > 0 {
      TileCount(v, p, kind, c, before, n - 1);
      var q := Shift(p, n - 1);
      assert q == Middle <==> n - 1 == before;
      if q != Middle {
        OnlyMiddleUndecided(q);
        assert At(Set(Example, Middle, v), q) == Example[q.0][q.1];
      }
    }
  }

  /** Without pre-resolution the reference count of the example is 0: either value breaks a tile. */
  lemma NoGoalWithoutPreresolve()
    ensures Bordered(Example) && InsideAll(|Example|, Width(Example), [Middle])
    ensures Goals(Example, [Middle], 0, 0, 0, NoTarget) == 0
  {
    ExampleBordered();
    var off := Set(Example, Middle, MineOff);
    var on := Set(Example, Middle, MineOn);
    TileCount(MineOff, (1, 1), Mines, 0, 5, 9);
    assert Shift(Middle, 3) == (1, 1);
    assert !TileExact(off, Shift(Middle, 3));
    assert !ExactAround(off, Middle);
    assert [Middle][0] == Middle;
    TileCount(MineOn, (1, 3), Mines, 1, 3, 9);
    assert Shift(Middle, 5) == (1, 3);
    assert !TileExact(on, Shift(Middle, 5));
    assert !ExactAround(on, Middle);
  }

  /** The `1` sees one unknown and no mine, so it fires and forces the unknown on. */
  lemma FirstTileFires()
    ensures Rect(Example) && Interior(Example, (1, 1))
    ensures Fires(Example, (1, 1)) && Forced(Example, (1, 1)) == MineOn
  {
    ExampleBordered();
    TileCount(Unknown, (1, 1), Mines, 0, 5, 9);
    TileCount(Unknown, (1, 1), Unknowns, 1, 5, 9);
    GridExt(Set(Example, Middle, Unknown), Example);
  }

  /** Once the `1` has turned the middle cell on, no unknown is left. */
  lemma FirstTileLeavesNoUnknown(g1: Grid)
    requires Extends(Example, g1) && Interior(Example, (1, 1))
    requires BlockDecided(Example, g1, (1, 1), MineOn)
    ensures UnknownSet(g1) == {}
  {
    ExampleBordered();
    assert Shift((1, 1), 5) == Middle;
    assert At(g1, Middle) == MineOn;
    forall q | q in UnknownSet(g1)
      ensures false
    {
      assert InRange(g1, q) && At(g1, q) == Unknown;
      OnlyMiddleUndecided(q);
    }
  }

  /** preprocess_grid without -r, then the search: no goal state. */
  method SearchAlone() returns (goals: int)
    ensures goals == 0
  {
    ExampleBordered();
    var s := new Solver(Example, NoTarget, true, false, false);
    var resolved := s.PreprocessGrid();
    ExampleScan();
    NoGoalWithoutPreresolve();
    goals := s.Solve();
  }

  /**
    preprocess_grid with -r and no target, its pre-resolution loop written
    out over the one interior row, then the search: one goal state.
  */
  method PreresolveFirst() returns (goals: int)
    ensures goals == 1
  {
    ExampleBordered();
    var s := new Solver(Example, NoTarget, true, true, false);
    FirstTileFires();
    var r1 := s.ResolveTile(1, 1);
    FirstTileLeavesNoUnknown(Snapshot(s.grid));
    var g1 := Snapshot(s.grid);
    var r2 := s.ResolveTile(1, 2);
    ExtendsShrinks(g1, Snapshot(s.grid));
    var g2 := Snapshot(s.grid);
    var r3 := s.ResolveTile(1, 3);
    ExtendsShrinks(g2, Snapshot(s.grid));
    s.ListUnknowns();
    goals := s.Solve();
  }
}
