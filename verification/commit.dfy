/** Committing a placement: the fresh grid copy with the word written in,
    and the word pool without the placed entry. */
module GridWrite {
  import opened Wrappers
  import opened Grids

  /** Writes letters k.. of the word, one cell at a time, into a copy of g. */
  function WriteFrom(g: Grid, w: string, x0: int, y0: int, d: Dir, k: nat): (r: Grid)
    requires WellFormed(g) && Fits(x0, y0, |w|, d) && k <= |w|
    ensures WellFormed(r)
    ensures forall j :: k <= j < |w| ==> CellAt(r, x0, y0, d, j) == Some(w[j])
    ensures forall x, y :: OnBoard(x, y) && !CoversCell(Col(x0, d, k), Row(y0, d, k), |w| - k, d, x, y) ==>
              r[y][x] == g[y][x]
    decreases |w| - k
  {
    if k == |w| then g
    else
      var x, y := Col(x0, d, k), Row(y0, d, k);
      WriteFrom(g[y := g[y][x := Some(w[k])]], w, x0, y0, d, k + 1)
  }

  /** The commit step of `placeWords`: the parent grid is a value and stays
      as it was; the copy holds letter k of the word in the word's k-th cell
      and agrees with the parent everywhere else. */
  function Write(g: Grid, w: string, x0: int, y0: int, d: Dir): (r: Grid)
    requires WellFormed(g) && Fits(x0, y0, |w|, d)
    ensures WellFormed(r)
    ensures forall k :: 0 <= k < |w| ==> CellAt(r, x0, y0, d, k) == Some(w[k])
    ensures forall x, y :: OnBoard(x, y) && !CoversCell(x0, y0, |w|, d, x, y) ==> r[y][x] == g[y][x]
  {
    WriteFrom(g, w, x0, y0, d, 0)
  }

  /** When no covered cell holds a different letter, writing the word keeps
      every letter already on the board, and the only new letters are the
      word's own. */
  lemma WriteExtends(g: Grid, w: string, x0: int, y0: int, d: Dir)
    requires WellFormed(g) && Fits(x0, y0, |w|, d)
    requires forall k :: 0 <= k < |w| ==> CellAt(g, x0, y0, d, k) in {None, Some(w[k])}
    ensures forall x, y :: Filled(g, x, y) ==> Write(g, w, x0, y0, d)[y][x] == g[y][x]
    ensures forall x, y :: Filled(Write(g, w, x0, y0, d), x, y) ==> Filled(g, x, y) || CoversCell(x0, y0, |w|, d, x, y)
  {
    var r := Write(g, w, x0, y0, d);
    forall x, y | Filled(g, x, y)
      ensures r[y][x] == g[y][x]
    {
      if CoversCell(x0, y0, |w|, d, x, y) {
        var k := if d == Across then x - x0 else y - y0;
        assert CellAt(g, x0, y0, d, k) in {None, Some(w[k])};
        assert CellAt(r, x0, y0, d, k) == Some(w[k]);
      }
    }
  }

  /** The pool without its i-th word, the others in their order. */
  function RemoveAt<T>(pool: seq<T>, i: nat): (r: seq<T>)
    requires i < |pool|
    ensures |r| == |pool| - 1
    ensures multiset(r) + multiset{pool[i]} == multiset(pool)
    ensures forall j :: 0 <= j < i ==> r[j] == pool[j]
    ensures forall j :: i <= j < |r| ==> r[j] == pool[j + 1]
  {
    assert pool == pool[..i] + [pool[i]] + pool[i + 1..];
    pool[..i] + pool[i + 1..]
  }
}
