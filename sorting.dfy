/**
  The variable-ordering heuristic's building blocks: the record that pairs
  an unknown cell with the number of numbered tiles around it, the
  comparator that orders such records by that number, descending, and an
  in-place sort of the scratch array by that comparator.
*/
module Sorting {
  import opened Board

  datatype SortTile = SortTile(index: Pos, numberTiles: int)

  /**
    The comparator handed to the library sort: negative when a must come
    before b, positive when after, zero when either order will do.
  */
  function CompTiles(a: SortTile, b: SortTile): (r: int)
    ensures r < 0 <==> a.numberTiles > b.numberTiles
    ensures r > 0 <==> a.numberTiles < b.numberTiles
    ensures -1 <= r <= 1
  {
    if a.numberTiles > b.numberTiles then -1
    else if a.numberTiles < b.numberTiles then 1
    else 0
  }

  /** The comparator is a total preorder, as the library sort requires. */
  lemma CompTilesPreorder(a: SortTile, b: SortTile, c: SortTile)
    ensures CompTiles(a, b) == -CompTiles(b, a)
    ensures CompTiles(a, b) <= 0 && CompTiles(b, c) <= 0 ==> CompTiles(a, c) <= 0
  {
  }

  /** Every pair is in an order the comparator accepts. */
  predicate SortedByComp(s: seq<SortTile>)
  {
    forall p, q :: 0 <= p < q < |s| ==> CompTiles(s[p], s[q]) <= 0
  }

  function Indexes(s: seq<SortTile>): (r: seq<Pos>)
    ensures |r| == |s| && forall k :: 0 <= k < |s| ==> r[k] == s[k].index
  {
    seq(|s|, k requires 0 <= k < |s| => s[k].index)
  }

  /** Every record carries the number of numbered tiles around its cell in g. */
  ghost predicate Labelled(g: Grid, s: seq<SortTile>)
    requires Rect(g)
  {
    forall t :: t in s ==> Interior(g, t.index) && t.numberTiles == CountAround(g, t.index, Numbers)
  }

  /**
    Sorted by the comparator, the cells come in non-increasing order of
    the number of numbered tiles around them.
  */
  lemma SortedCells(g: Grid, s: seq<SortTile>)
    requires Rect(g) && Labelled(g, s) && SortedByComp(s)
    ensures forall a, b :: 0 <= a < b < |s| ==>
              CountAround(g, Indexes(s)[a], Numbers) >= CountAround(g, Indexes(s)[b], Numbers)
  {
    forall a, b | 0 <= a < b < |s|
      ensures CountAround(g, Indexes(s)[a], Numbers) >= CountAround(g, Indexes(s)[b], Numbers)
    {
      assert s[a] in s && s[b] in s;
      assert CompTiles(s[a], s[b]) <= 0;
    }
  }

  /** Rearranging the records keeps every label. */
  lemma LabelledPermuted(g: Grid, s: seq<SortTile>, t: seq<SortTile>)
    requires Rect(g) && Labelled(g, s) && multiset(s) == multiset(t)
    ensures Labelled(g, t)
  {
    forall x | x in t
      ensures Interior(g, x.index) && x.numberTiles == CountAround(g, x.index, Numbers)
    {
      assert x in multiset(t);
    }
  }

  /**
    Sorts the scratch array in place by CompTiles.  The library sort is not
    stable, so the order among equal counts is not part of the contract.
  */
  method SortTiles(a: array<SortTile>)
    modifies a
    ensures SortedByComp(a[..])
    ensures multiset(a[..]) == old(multiset(a[..]))
  {
    var i := 0;
    while i < a.Length
      invariant 0 <= i <= a.Length
      invariant forall p, q :: 0 <= p < q < i ==> a[p].numberTiles >= a[q].numberTiles
      invariant multiset(a[..]) == old(multiset(a[..]))
    {
      var j := i;
      while j > 0 && CompTiles(a[j - 1], a[j]) > 0
        invariant 0 <= j <= i
        invariant forall p, q :: 0 <= p < q <= i && q != j ==> a[p].numberTiles >= a[q].numberTiles
        invariant multiset(a[..]) == old(multiset(a[..]))
      {
        Swap(a, j - 1, j);
        j := j - 1;
      }
      i := i + 1;
    }
  }

  method Swap(a: array<SortTile>, i: int, j: int)
    requires 0 <= i < j < a.Length
    modifies a
    ensures a[i] == old(a[j]) && a[j] == old(a[i])
    ensures forall m :: 0 <= m < a.Length && m != i && m != j ==> a[m] == old(a[m])
    ensures multiset(a[..]) == old(multiset(a[..]))
  {
    a[i], a[j] := a[j], a[i];
  }

  /** Permuting the records permutes their cells the same way. */
  lemma {:induction false} IndexesPermuted(s: seq<SortTile>, t: seq<SortTile>)
    requires multiset(s) == multiset(t)
    ensures multiset(Indexes(s)) == multiset(Indexes(t))
    decreases |s|
  {
    if |s| == 0 {
      assert |multiset(t)| == 0;
    } else {
      var x := s[0];
      assert x in multiset(t);
      var k :| 0 <= k < |t| && t[k] == x;
      var t' := RemoveAt(t, k);
      var s1 := RemoveAt(s, 0);
      assert multiset(s1) == multiset(s) - multiset{x} == multiset(t');
      IndexesPermuted(s1, t');
    }
  }

  /** Taking one record out of a sequence takes its cell out of the cells. */
  lemma RemoveAt(t: seq<SortTile>, k: int) returns (t': seq<SortTile>)
    requires 0 <= k < |t|
    ensures t' == t[..k] + t[k + 1..]
    ensures multiset(t) == multiset(t') + multiset{t[k]}
    ensures multiset(Indexes(t)) == multiset(Indexes(t')) + multiset{t[k].index}
  {
    t' := t[..k] + t[k + 1..];
    assert t == t[..k] + [t[k]] + t[k + 1..];
    var r := Indexes(t);
    assert Indexes(t') == r[..k] + r[k + 1..];
    assert r == r[..k] + [r[k]] + r[k + 1..];
  }
}
