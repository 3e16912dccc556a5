/** The start positions `placeWords` tries for one word and direction. */
module CandidateGenerator {
  import opened Wrappers
  import opened Grids
  import opened Validator

  /** The only start tried for the first word: its middle letter on the
      board's centre row, `(floor(N/2) - floor(len/2), floor(N/2))`. */
  function Centre(len: nat): (r: Pos)
    ensures Col(r.0, Across, len / 2) == N / 2 && r.1 == N / 2
    ensures Fits(r.0, r.1, len, Across) <==> len <= N
    ensures Fits(r.0, r.1, len, Down) <==> len <= N / 2
  {
    (N / 2 - len / 2, N / 2)
  }

  /** The start that puts letter k of a word on cell (x, y). */
  function Align(x: int, y: int, k: int, d: Dir): Pos {
    if d == Across then (x - k, y) else (x, y - k)
  }

  /** p is a candidate because board cell (x, y) holds letter k of the
      word and aligning them gives a start with no negative coordinate. */
  predicate Anchor(g: Grid, w: string, d: Dir, x: int, y: int, k: int, p: Pos)
    requires WellFormed(g)
  {
    OnBoard(x, y) && 0 <= k < |w| && g[y][x] == Some(w[k]) &&
    p == Align(x, y, k, d) && p.0 >= 0 && p.1 >= 0
  }

  /** Cell (cx, cy) comes at or after (x, y) in the row-major scan. */
  predicate AtOrAfter(cx: int, cy: int, x: int, y: int) {
    OnBoard(cx, cy) && (cy > y || (cy == y && cx >= x))
  }

  /** The innermost loop: letters k.. of the word matched against cell (x, y). */
  function FromLetters(g: Grid, w: string, d: Dir, x: int, y: int, k: nat): (r: seq<Pos>)
    requires WellFormed(g) && OnBoard(x, y) && k <= |w|
    ensures forall p :: p in r <==> exists k' :: k <= k' < |w| && Anchor(g, w, d, x, y, k', p)
    decreases |w| - k
  {
    if k == |w| then []
    else
      var p := Align(x, y, k, d);
      assert forall q :: (exists k' :: k <= k' < |w| && Anchor(g, w, d, x, y, k', q)) <==>
               Anchor(g, w, d, x, y, k, q) || exists k' :: k + 1 <= k' < |w| && Anchor(g, w, d, x, y, k', q);
      var here := if Some(w[k]) == g[y][x] && p.0 >= 0 && p.1 >= 0 then [p] else [];
      var rest := FromLetters(g, w, d, x, y, k + 1);
      assert forall q :: q in here <==> Anchor(g, w, d, x, y, k, q);
      assert forall q :: q in here + rest <==> q in here || q in rest;
      here + rest
  }

  /** The two outer loops: cells from (x, y) on, row by row. */
  function FromCells(g: Grid, w: string, d: Dir, x: int, y: int): (r: seq<Pos>)
    requires WellFormed(g) && 0 <= x < N && 0 <= y <= N
    ensures forall p :: p in r <==> exists cx, cy, k :: AtOrAfter(cx, cy, x, y) && Anchor(g, w, d, cx, cy, k, p)
    decreases N - y, N - x
  {
    if y == N then []
    else
      var here := if g[y][x].Some? then FromLetters(g, w, d, x, y, 0) else [];
      var rest := if x + 1 < N then FromCells(g, w, d, x + 1, y) else FromCells(g, w, d, 0, y + 1);
      assert forall p :: p in here <==> exists k :: Anchor(g, w, d, x, y, k, p);
      assert forall cx, cy :: AtOrAfter(cx, cy, x, y) <==>
               (cx == x && cy == y) || (if x + 1 < N then AtOrAfter(cx, cy, x + 1, y) else AtOrAfter(cx, cy, 0, y + 1));
      here + rest
  }

  /** `candidatePositions` before shuffling: the centre for the first word,
      otherwise every non-negative start that lines a letter of the word
      up with the same letter on the board. */
  function Candidates(g: Grid, w: string, d: Dir, first: bool): (r: seq<Pos>)
    requires WellFormed(g)
    ensures first ==> r == [Centre(|w|)]
    ensures !first ==> forall p :: p in r <==> exists x, y, k :: Anchor(g, w, d, x, y, k, p)
  {
    if first then [Centre(|w|)] else FromCells(g, w, d, 0, 0)
  }

  /** Every start the generator tries can be handed to the validator: a
      scanned start lies on the board, the centre start is on the board
      whenever the word fits. */
  lemma CandidateOnBoard(g: Grid, w: string, d: Dir, first: bool, p: Pos)
    requires WellFormed(g) && p in Candidates(g, w, d, first)
    ensures !first ==> OnBoard(p.0, p.1)
    ensures first ==> p.1 == N / 2 && p.0 <= N / 2 && (0 <= p.0 || p.0 + |w| > N)
    ensures Addressable(p.0, p.1, |w|, d)
  {
    if !first {
      var x, y, k :| Anchor(g, w, d, x, y, k, p);
    }
  }
}
