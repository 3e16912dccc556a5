/** `canPlace`: may a word go at (x0, y0) in direction d, and would it
    cross a letter already on the board? */
module Validator {
  import opened Wrappers
  import opened Grids

  /** The source returns `false`, or `{valid: true, hasIntersection}`. */
  datatype Verdict = Rejected | Accepted(hasIntersection: bool)

  /** What the callers guarantee: once the far end is known to be on the
      board (check 1), every cell the checks read is on the board too. A
      start that fails check 1 is rejected before any cell is read. */
  predicate Addressable(x0: int, y0: int, len: nat, d: Dir) {
    WithinBoundary(x0, y0, len, d) ==> Fits(x0, y0, len, d)
  }

  /** Check 1: the far end stays on the board. */
  predicate WithinBoundary(x0: int, y0: int, len: nat, d: Dir) {
    if d == Across then x0 + len <= N else y0 + len <= N
  }

  /** Checks 2 and 3 for letter k: the cell is empty or already holds the
      same letter, and if it is empty its two perpendicular neighbours are
      empty too. */
  predicate LetterFits(g: Grid, w: string, x0: int, y0: int, d: Dir, k: int)
    requires WellFormed(g) && Fits(x0, y0, |w|, d) && 0 <= k < |w|
  {
    var x, y := Col(x0, d, k), Row(y0, d, k);
    var c := CellAt(g, x0, y0, d, k);
    (c == None || c == Some(w[k])) &&
    (c == None ==>
       if d == Across then !Filled(g, x, y - 1) && !Filled(g, x, y + 1)
       else !Filled(g, x - 1, y) && !Filled(g, x + 1, y))
  }

  /** Check 4: the cells just before the start and just after the end are empty. */
  predicate EndsClear(g: Grid, x0: int, y0: int, len: nat, d: Dir)
    requires WellFormed(g)
  {
    !Filled(g, Col(x0, d, -1), Row(y0, d, -1)) && !Filled(g, Col(x0, d, len), Row(y0, d, len))
  }

  /** The placement passes all four checks. */
  predicate Legal(g: Grid, w: string, x0: int, y0: int, d: Dir)
    requires WellFormed(g) && Addressable(x0, y0, |w|, d)
  {
    WithinBoundary(x0, y0, |w|, d) &&
    (forall k :: 0 <= k < |w| ==> LetterFits(g, w, x0, y0, d, k)) &&
    EndsClear(g, x0, y0, |w|, d)
  }

  /** Some letter of the word lands on the same letter already on the board. */
  predicate Intersects(g: Grid, w: string, x0: int, y0: int, d: Dir)
    requires WellFormed(g) && Fits(x0, y0, |w|, d)
  {
    exists k :: 0 <= k < |w| && CellAt(g, x0, y0, d, k) == Some(w[k])
  }

  /** The per-letter loop of `canPlace`, from letter i on; `hit` records
      whether an earlier letter already crossed the board. */
  function ScanLetters(g: Grid, w: string, x0: int, y0: int, d: Dir, i: nat, hit: bool): (r: Verdict)
    requires WellFormed(g) && Fits(x0, y0, |w|, d) && i <= |w|
    ensures r.Accepted? <==> forall k :: i <= k < |w| ==> LetterFits(g, w, x0, y0, d, k)
    ensures r.Accepted? ==>
              (r.hasIntersection <==> hit || exists k :: i <= k < |w| && CellAt(g, x0, y0, d, k) == Some(w[k]))
    decreases |w| - i
  {
    if i == |w| then Accepted(hit)
    else
      var x, y := Col(x0, d, i), Row(y0, d, i);
      var cell := g[y][x];
      LetterCheck(g, w, x0, y0, d, i);
      if cell.Some? && cell != Some(w[i]) then Rejected
      else if cell.None? && SideTouched(g, x, y, d) then Rejected
      else
        var r := ScanLetters(g, w, x0, y0, d, i + 1, hit || cell == Some(w[i]));
        assert (exists k :: i <= k < |w| && CellAt(g, x0, y0, d, k) == Some(w[k])) <==>
               cell == Some(w[i]) || exists k :: i + 1 <= k < |w| && CellAt(g, x0, y0, d, k) == Some(w[k]);
        r
  }

  /** Checks 2 and 3 as the loop body writes them, with explicit bounds
      tests instead of `Filled`. */
  lemma LetterCheck(g: Grid, w: string, x0: int, y0: int, d: Dir, i: int)
    requires WellFormed(g) && Fits(x0, y0, |w|, d) && 0 <= i < |w|
    ensures var x, y := Col(x0, d, i), Row(y0, d, i);
            var cell := g[y][x];
            LetterFits(g, w, x0, y0, d, i) <==>
              !(cell.Some? && cell != Some(w[i])) &&
              !(cell.None? && SideTouched(g, x, y, d))
  {
  }

  /** The neighbour test of the loop body: across, the cells above and
      below; down, the cells left and right; each only when on the board. */
  predicate SideTouched(g: Grid, x: int, y: int, d: Dir)
    requires WellFormed(g) && OnBoard(x, y)
  {
    if d == Across then (y > 0 && g[y - 1][x].Some?) || (y < N - 1 && g[y + 1][x].Some?)
    else (x > 0 && g[y][x - 1].Some?) || (x < N - 1 && g[y][x + 1].Some?)
  }

  /** `canPlace(grid, word, startX, startY, direction)`. */
  function CanPlace(g: Grid, w: string, x0: int, y0: int, d: Dir): (r: Verdict)
    requires WellFormed(g) && Addressable(x0, y0, |w|, d)
    ensures r.Accepted? <==> Legal(g, w, x0, y0, d)
    ensures r.Accepted? ==> (r.hasIntersection <==> Intersects(g, w, x0, y0, d))
  {
    if d == Across && x0 + |w| > N then Rejected
    else if d == Down && y0 + |w| > N then Rejected
    else match ScanLetters(g, w, x0, y0, d, 0, false)
      case Rejected => Rejected
      case Accepted(hit) =>
        var len := |w|;
        if d == Across then
          if x0 > 0 && g[y0][x0 - 1].Some? then Rejected
          else if x0 + len < N && g[y0][x0 + len].Some? then Rejected
          else Accepted(hit)
        else
          if y0 > 0 && g[y0 - 1][x0].Some? then Rejected
          else if y0 + len < N && g[y0 + len][x0].Some? then Rejected
          else Accepted(hit)
  }

  /** An accepted word occupies only board cells. */
  lemma AcceptedFits(g: Grid, w: string, x0: int, y0: int, d: Dir)
    requires WellFormed(g) && Addressable(x0, y0, |w|, d)
    requires CanPlace(g, w, x0, y0, d).Accepted?
    ensures 0 <= x0 && 0 <= y0
    ensures d == Across ==> x0 + |w| <= N
    ensures d == Down ==> y0 + |w| <= N
  {
  }

  /** An accepted word never overwrites a different letter: every covered
      cell was empty or already held that very letter. */
  lemma AcceptedNoConflict(g: Grid, w: string, x0: int, y0: int, d: Dir, k: int)
    requires WellFormed(g) && Addressable(x0, y0, |w|, d)
    requires CanPlace(g, w, x0, y0, d).Accepted? && 0 <= k < |w|
    ensures CellAt(g, x0, y0, d, k) in {None, Some(w[k])}
  {
    assert LetterFits(g, w, x0, y0, d, k);
  }
}
