/** `placeWords`: the backtracking search, and the invariants every board
    it builds keeps. */
module Backtracking {
  import opened Wrappers
  import opened Grids
  import opened Random
  import opened Validator
  import opened CandidateGenerator
  import opened GridWrite

  /** The search state without its pool: the grid snapshot and the words
      placed so far, across and down. */
  datatype Board = Board(grid: Grid, across: seq<Placed>, down: seq<Placed>)

  function Words(b: Board): seq<Placed> { b.across + b.down }

  /** No word is placed yet (`isFirstWord`). */
  predicate First(b: Board) { |b.across| == 0 && |b.down| == 0 }

  /** Both targets are met: the search's success condition. */
  predicate TargetsMet(b: Board) { |b.across| == TargetAcross && |b.down| == TargetDown }

  /** Direction d still needs words. */
  predicate Unmet(b: Board, d: Dir) {
    if d == Across then |b.across| < TargetAcross else |b.down| < TargetDown
  }

  /** The placement history is connected: the first word sits at the centre
      start and every later word shares a cell with an earlier one. */
  ghost predicate Connected(order: seq<Placed>) {
    (|order| > 0 ==> (order[0].x, order[0].y) == Centre(Len(order[0]))) &&
    forall k :: 0 < k < |order| ==> exists j :: 0 <= j < k && Share(order[j], order[k])
  }

  /** What every board the search builds satisfies, given the order in
      which its words were placed: counts within target, each list in its
      own direction, every word spelled on the grid, no letter that is not
      part of a word, and a connected placement history. */
  ghost predicate Consistent(b: Board, order: seq<Placed>) {
    WellFormed(b.grid) &&
    |b.across| <= TargetAcross && |b.down| <= TargetDown &&
    (forall p :: p in b.across ==> p.dir == Across) &&
    (forall p :: p in b.down ==> p.dir == Down) &&
    multiset(order) == multiset(Words(b)) &&
    (forall p :: p in order ==> Spelled(b.grid, p)) &&
    (forall x, y :: Filled(b.grid, x, y) ==> exists p :: p in order && Covers(p, x, y)) &&
    Connected(order)
  }

  /** Some placement order makes the board consistent. */
  ghost predicate Valid(b: Board) {
    exists order :: Consistent(b, order)
  }

  /** r, when present, is a finished board grown from b: both targets met,
      valid, b's words kept as prefixes of its lists, and every added word
      taken from the pool (as a multiset, so no entry is used twice). */
  ghost predicate Completes(b: Board, pool: seq<Entry>, r: Option<Board>) {
    r.Some? ==>
      TargetsMet(r.value) && Valid(r.value) &&
      b.across <= r.value.across && b.down <= r.value.down &&
      multiset(Entries(Words(r.value))) <= multiset(Entries(Words(b))) + multiset(pool)
  }

  /** The board after committing p: the written grid copy and p appended
      to the list of its direction. */
  function Commit(b: Board, p: Placed): (r: Board)
    requires WellFormed(b.grid) && Fits(p.x, p.y, Len(p), p.dir)
    ensures WellFormed(r.grid) && Spelled(r.grid, p)
    ensures forall x, y :: OnBoard(x, y) && !Covers(p, x, y) ==> r.grid[y][x] == b.grid[y][x]
    ensures p.dir == Across ==> r.across == b.across + [p] && r.down == b.down
    ensures p.dir == Down ==> r.across == b.across && r.down == b.down + [p]
  {
    var g := Write(b.grid, p.entry.word, p.x, p.y, p.dir);
    if p.dir == Across then Board(g, b.across + [p], b.down) else Board(g, b.across, b.down + [p])
  }

  /** The directions tried for one word: both, in coin-flip order, while
      both targets are open; otherwise only the open one. */
  function Directions(b: Board, t: Tape): (r: (seq<Dir>, Tape))
    ensures forall d :: d in r.0 <==> Unmet(b, d)
    ensures forall i, j :: 0 <= i < j < |r.0| ==> r.0[i] != r.0[j]
    ensures !(Unmet(b, Across) && Unmet(b, Down)) ==> r.1 == t
    ensures Unmet(b, Across) && Unmet(b, Down) ==>
              r.0[0] == (if Coin(t).0 then Across else Down) && r.1 == Coin(t).1
  {
    if |b.across| < TargetAcross && |b.down| < TargetDown then
      var (acrossFirst, t') := Coin(t);
      (if acrossFirst then [Across, Down] else [Down, Across], t')
    else if |b.across| < TargetAcross then ([Across], t)
    else if |b.down| < TargetDown then ([Down], t)
    else ([], t)
  }

  /** While both targets are open either order can come up: some tape puts
      across first, another down first. */
  lemma {:induction false} BothOrdersReachable(b: Board, t: Tape)
    requires Unmet(b, Across) && Unmet(b, Down)
    ensures Directions(b, Tape(_ => 1, t.pos)).0 == [Across, Down]
    ensures Directions(b, Tape(_ => 0, t.pos)).0 == [Down, Across]
  {
    assert Coin(Tape(_ => 1, t.pos)).0;
    assert !Coin(Tape(_ => 0, t.pos)).0;
  }

  /** `placeWords(grid, remainingWords, placedAcross, placedDown)`. */
  function Search(b: Board, pool: seq<Entry>, t: Tape, ghost order: seq<Placed>): (r: (Option<Board>, Tape))
    requires Consistent(b, order)
    ensures Completes(b, pool, r.0)
    ensures TargetsMet(b) ==> r.0 == Some(b)
    ensures !TargetsMet(b) && pool == [] ==> r.0 == None
    decreases |pool|, 3, 0, 0
  {
    if TargetsMet(b) then (Some(b), t)
    else if pool == [] then (None, t)
    else TryWords(b, pool, 0, t, order)
  }

  /** The loop over words i.. of the pool. */
  function TryWords(b: Board, pool: seq<Entry>, i: nat, t: Tape, ghost order: seq<Placed>): (r: (Option<Board>, Tape))
    requires Consistent(b, order) && i <= |pool|
    ensures Completes(b, pool, r.0)
    decreases |pool|, 2, |pool| - i, 0
  {
    if i == |pool| then (None, t)
    else
      var (dirs, t1) := Directions(b, t);
      var (r, t2) := TryDirs(b, pool, i, dirs, t1, order);
      if r.Some? then (r, t2) else TryWords(b, pool, i + 1, t2, order)
  }

  /** The loop over the directions chosen for word i. */
  function TryDirs(b: Board, pool: seq<Entry>, i: nat, dirs: seq<Dir>, t: Tape, ghost order: seq<Placed>): (r: (Option<Board>, Tape))
    requires Consistent(b, order) && i < |pool|
    requires forall d :: d in dirs ==> Unmet(b, d)
    ensures Completes(b, pool, r.0)
    decreases |pool|, 1, |dirs|, 0
  {
    if dirs == [] then (None, t)
    else
      var d := dirs[0];
      var (cands, t1) := Shuffle(Candidates(b.grid, pool[i].word, d, First(b)), t);
      var (r, t2) := TryCands(b, pool, i, d, cands, 0, t1, order);
      if r.Some? then (r, t2) else TryDirs(b, pool, i, dirs[1..], t2, order)
  }

  /** The loop over the shuffled candidate starts j.. for word i in
      direction d: commit the first acceptable one and recurse; on failure
      drop that branch and go on. */
  function TryCands(b: Board, pool: seq<Entry>, i: nat, d: Dir, cands: seq<Pos>, j: nat, t: Tape,
                    ghost order: seq<Placed>): (r: (Option<Board>, Tape))
    requires Consistent(b, order) && i < |pool| && Unmet(b, d) && j <= |cands|
    requires forall c :: c in cands ==> c in Candidates(b.grid, pool[i].word, d, First(b))
    ensures Completes(b, pool, r.0)
    decreases |pool|, 0, 0, |cands| - j
  {
    if j == |cands| then (None, t)
    else
      var w := pool[i].word;
      var (x, y) := cands[j];
      CandidateOnBoard(b.grid, w, d, First(b), cands[j]);
      var v := CanPlace(b.grid, w, x, y, d);
      if v.Accepted? && (First(b) || v.hasIntersection) then
        var p := Placed(pool[i], x, y, d);
        CommitConsistent(b, order, p);
        var (r, t1) := Search(Commit(b, p), RemoveAt(pool, i), t, order + [p]);
        CompletesStep(b, pool, i, p, r);
        if r.Some? then (r, t1) else TryCands(b, pool, i, d, cands, j + 1, t1, order)
      else TryCands(b, pool, i, d, cands, j + 1, t, order)
  }

  /** Committing an accepted placement keeps the board consistent: the
      invariant the whole search rests on. */
  lemma CommitConsistent(b: Board, order: seq<Placed>, p: Placed)
    requires Consistent(b, order) && Unmet(b, p.dir)
    requires Addressable(p.x, p.y, Len(p), p.dir)
    requires CanPlace(b.grid, p.entry.word, p.x, p.y, p.dir).Accepted?
    requires First(b) ==> (p.x, p.y) == Centre(Len(p))
    requires !First(b) ==> CanPlace(b.grid, p.entry.word, p.x, p.y, p.dir).hasIntersection
    ensures Fits(p.x, p.y, Len(p), p.dir)
    ensures Consistent(Commit(b, p), order + [p])
  {
    var g, w := b.grid, p.entry.word;
    assert Fits(p.x, p.y, Len(p), p.dir);
    forall k | 0 <= k < |w|
      ensures CellAt(g, p.x, p.y, p.dir, k) in {None, Some(w[k])}
    {
      AcceptedNoConflict(g, w, p.x, p.y, p.dir, k);
    }
    WriteExtends(g, w, p.x, p.y, p.dir);
    var b' := Commit(b, p);
    var order' := order + [p];
    SpelledKept(g, b'.grid, order, p);
    assert |order| == |Words(b)| by {
      assert |multiset(order)| == |multiset(Words(b))|;
    }
    CoveredKept(g, b'.grid, order, p);
    ConnectedExtends(g, order, p);
  }

  /** Words already spelled on g stay spelled on the extended grid g'. */
  lemma SpelledKept(g: Grid, g': Grid, order: seq<Placed>, p: Placed)
    requires WellFormed(g) && WellFormed(g') && Fits(p.x, p.y, Len(p), p.dir)
    requires forall q :: q in order ==> Spelled(g, q)
    requires forall x, y :: Filled(g, x, y) ==> g'[y][x] == g[y][x]
    requires forall k :: 0 <= k < Len(p) ==> CellAt(g', p.x, p.y, p.dir, k) == Some(p.entry.word[k])
    ensures forall q :: q in order + [p] ==> Spelled(g', q)
  {
    forall q | q in order
      ensures Spelled(g', q)
    {
      forall k | 0 <= k < Len(q)
        ensures CellAt(g', q.x, q.y, q.dir, k) == Some(q.entry.word[k])
      {
        assert CellAt(g, q.x, q.y, q.dir, k) == Some(q.entry.word[k]);
        assert Filled(g, Col(q.x, q.dir, k), Row(q.y, q.dir, k));
      }
    }
  }

  /** Every letter of the extended grid still belongs to a placed word. */
  lemma CoveredKept(g: Grid, g': Grid, order: seq<Placed>, p: Placed)
    requires WellFormed(g) && WellFormed(g')
    requires forall x, y :: Filled(g, x, y) ==> exists q :: q in order && Covers(q, x, y)
    requires forall x, y :: Filled(g', x, y) ==> Filled(g, x, y) || Covers(p, x, y)
    ensures forall x, y :: Filled(g', x, y) ==> exists q :: q in order + [p] && Covers(q, x, y)
  {
    forall x, y | Filled(g', x, y)
      ensures exists q :: q in order + [p] && Covers(q, x, y)
    {
      if Filled(g, x, y) {
        var q :| q in order && Covers(q, x, y);
        assert q in order + [p];
      } else {
        assert p in order + [p];
      }
    }
  }

  /** Appending a word that starts at the centre (when it is the first) or
      lands on a letter of the board (otherwise) keeps the history connected. */
  lemma ConnectedExtends(g: Grid, order: seq<Placed>, p: Placed)
    requires WellFormed(g) && Fits(p.x, p.y, Len(p), p.dir) && Connected(order)
    requires forall x, y :: Filled(g, x, y) ==> exists q :: q in order && Covers(q, x, y)
    requires |order| == 0 ==> (p.x, p.y) == Centre(Len(p))
    requires |order| > 0 ==> Intersects(g, p.entry.word, p.x, p.y, p.dir)
    ensures Connected(order + [p])
  {
    var order' := order + [p];
    forall k | 0 < k < |order'|
      ensures exists j :: 0 <= j < k && Share(order'[j], order'[k])
    {
      if k < |order| {
        var j :| 0 <= j < k && Share(order[j], order[k]);
        assert order'[j] == order[j] && order'[k] == order[k];
      } else {
        var i :| 0 <= i < Len(p) && CellAt(g, p.x, p.y, p.dir, i) == Some(p.entry.word[i]);
        var x, y := Col(p.x, p.dir, i), Row(p.y, p.dir, i);
        assert Filled(g, x, y);
        var q :| q in order && Covers(q, x, y);
        var j :| 0 <= j < |order| && order[j] == q;
        CoversIffLetterCell(p.x, p.y, Len(p), p.dir, x, y);
        assert Covers(p, x, y);
        assert order'[j] == q && order'[k] == p;
        assert Share(order'[j], order'[k]);
      }
    }
  }

  /** A result completing the committed board completes the parent board:
      the entry moved from the pool to a list is counted once either way. */
  lemma CompletesStep(b: Board, pool: seq<Entry>, i: nat, p: Placed, r: Option<Board>)
    requires WellFormed(b.grid) && Fits(p.x, p.y, Len(p), p.dir)
    requires i < |pool| && p.entry == pool[i]
    requires Completes(Commit(b, p), RemoveAt(pool, i), r)
    ensures Completes(b, pool, r)
  {
    if r.Some? {
      var b', rest := Commit(b, p), RemoveAt(pool, i);
      EntriesOfCommit(b, p);
      MultisetShift(multiset(Entries(Words(r.value))), multiset(Entries(Words(b))), multiset(pool),
                    multiset(rest), p.entry);
      PrefixTrans(b.across, b'.across, r.value.across);
      PrefixTrans(b.down, b'.down, r.value.down);
    }
  }

  lemma MultisetShift<T>(used: multiset<T>, placed: multiset<T>, pool: multiset<T>, rest: multiset<T>, e: T)
    requires rest + multiset{e} == pool
    requires used <= placed + multiset{e} + rest
    ensures used <= placed + pool
  {
    assert placed + multiset{e} + rest == placed + pool;
  }

  /** Committing p adds exactly p's entry to the placed entries. */
  lemma EntriesOfCommit(b: Board, p: Placed)
    requires WellFormed(b.grid) && Fits(p.x, p.y, Len(p), p.dir)
    ensures multiset(Entries(Words(Commit(b, p)))) == multiset(Entries(Words(b))) + multiset{p.entry}
  {
    var b' := Commit(b, p);
    assert Words(b') == if p.dir == Across then (b.across + [p]) + b.down else b.across + (b.down + [p]);
    EntriesGrow(b.across, b.down, p, p.dir == Across);
  }

  lemma EntriesGrow(across: seq<Placed>, down: seq<Placed>, p: Placed, toAcross: bool)
    ensures var ws := if toAcross then (across + [p]) + down else across + (down + [p]);
            multiset(Entries(ws)) == multiset(Entries(across + down)) + multiset{p.entry}
  {
    if toAcross {
      EntriesGrowAcross(across, down, p);
    } else {
      EntriesGrowDown(across, down, p);
    }
  }

  lemma EntriesGrowAcross(across: seq<Placed>, down: seq<Placed>, p: Placed)
    ensures multiset(Entries((across + [p]) + down)) == multiset(Entries(across + down)) + multiset{p.entry}
  {
    var eA, eD, e := Entries(across), Entries(down), p.entry;
    EntriesAppend(across, down);
    EntriesAppend(across + [p], down);
    EntriesAppend(across, [p]);
    assert Entries([p]) == [e];
    assert Entries((across + [p]) + down) == (eA + [e]) + eD;
    MultisetInsert(eA, e, eD);
  }

  lemma EntriesGrowDown(across: seq<Placed>, down: seq<Placed>, p: Placed)
    ensures multiset(Entries(across + (down + [p]))) == multiset(Entries(across + down)) + multiset{p.entry}
  {
    assert across + (down + [p]) == (across + down) + [p];
    EntriesAppend(across + down, [p]);
    assert Entries([p]) == [p.entry];
  }

  lemma MultisetInsert<T>(x: seq<T>, e: T, y: seq<T>)
    ensures multiset((x + [e]) + y) == multiset(x + y) + multiset{e}
  {
    assert multiset((x + [e]) + y) == multiset(x) + multiset{e} + multiset(y);
  }

  /** The validator does not stop a word from running along a parallel
      word already on the board: with CAT across at (5, 6), CATS across at
      the same start passes all four checks, counting as an intersection. */
  lemma ParallelExtensionAccepted()
    ensures var g := Write(EmptyGrid(), "CAT", 5, 6, Across);
            CanPlace(g, "CATS", 5, 6, Across) == Accepted(true)
  {
    var g := Write(EmptyGrid(), "CAT", 5, 6, Across);
    assert forall x, y :: OnBoard(x, y) && !CoversCell(5, 6, 3, Across, x, y) ==> g[y][x] == None;
    assert g[6][5] == Some('C') && g[6][6] == Some('A') && g[6][7] == Some('T');
  }

  lemma PrefixTrans<T>(a: seq<T>, b: seq<T>, c: seq<T>)
    requires a <= b && b <= c
    ensures a <= c
  {
    assert a == b[..|a|] && b == c[..|b|];
    assert c[..|b|][..|a|] == c[..|a|];
  }
}
