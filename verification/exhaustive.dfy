/** `placeWords` gives up only when nothing could finish: it backtracks over
    every pool word, every open direction and every candidate start, so
    whether it succeeds depends on the board and the pool, not on the
    random order in which it tries them. */
module Exhaustive {
  import opened Wrappers
  import opened Grids
  import opened Random
  import opened Validator
  import opened CandidateGenerator
  import opened GridWrite
  import opened Backtracking

  /** Entry e at candidate start c in open direction d is a placement the
      search commits: canPlace accepts it and, unless it is the first word,
      it crosses a letter on the board. */
  ghost predicate Move(b: Board, e: Entry, d: Dir, c: Pos) {
    WellFormed(b.grid) && Unmet(b, d) &&
    IsCandidate(b.grid, e.word, d, First(b), c) &&
    Addressable(c.0, c.1, |e.word|, d) &&
    var v := CanPlace(b.grid, e.word, c.0, c.1, d);
    v.Accepted? && (First(b) || v.hasIntersection) &&
    Fits(c.0, c.1, |e.word|, d)
  }

  /** c is one of the starts `placeWords` tries: the centre start for the
      first word, otherwise a non-negative start lining a letter of the
      word up with the same letter on the board. */
  ghost predicate IsCandidate(g: Grid, w: string, d: Dir, first: bool, c: Pos)
    requires WellFormed(g)
  {
    if first then c == Centre(|w|) else exists x, y, k :: Anchor(g, w, d, x, y, k, c)
  }

  lemma CandidateIff(g: Grid, w: string, d: Dir, first: bool, c: Pos)
    requires WellFormed(g)
    ensures c in Candidates(g, w, d, first) <==> IsCandidate(g, w, d, first, c)
  {
  }

  /** The board after that placement. */
  function Next(b: Board, e: Entry, d: Dir, c: Pos): Board
    requires WellFormed(b.grid) && Fits(c.0, c.1, |e.word|, d)
  {
    Commit(b, Placed(e, c.0, c.1, d))
  }

  /** Placing pool word i at c in direction d is a move, and the board it
      leaves can still be finished from the rest of the pool. */
  ghost predicate Good(b: Board, pool: seq<Entry>, i: int, d: Dir, c: Pos)
    decreases |pool|, 0
  {
    0 <= i < |pool| && Move(b, pool[i], d, c) &&
    Finishable(Next(b, pool[i], d, c), RemoveAt(pool, i))
  }

  /** Both targets are met, or some move leads to a finishable board. */
  ghost predicate Finishable(b: Board, pool: seq<Entry>)
    decreases |pool|, 1
  {
    TargetsMet(b) || exists i, d, c :: Good(b, pool, i, d, c)
  }

  /** The search succeeds exactly when the board can be finished. */
  lemma SearchExhaustive(b: Board, pool: seq<Entry>, t: Tape, order: seq<Placed>)
    requires Consistent(b, order)
    ensures Search(b, pool, t, order).0.Some? <==> Finishable(b, pool)
  {
    SearchSound(b, pool, t, order);
    if Finishable(b, pool) {
      SearchFinds(b, pool, t, order);
    }
  }

  // A success is only ever reported through a finishing move.

  lemma SearchSound(b: Board, pool: seq<Entry>, t: Tape, order: seq<Placed>)
    requires Consistent(b, order)
    ensures Search(b, pool, t, order).0.Some? ==> Finishable(b, pool)
    decreases |pool|, 3, 0, 0, 0
  {
    if !TargetsMet(b) && pool != [] {
      TryWordsSound(b, pool, 0, t, order);
    }
  }

  lemma TryWordsSound(b: Board, pool: seq<Entry>, i: nat, t: Tape, order: seq<Placed>)
    requires Consistent(b, order) && i <= |pool|
    ensures TryWords(b, pool, i, t, order).0.Some? ==> Finishable(b, pool)
    decreases |pool|, 2, |pool| - i, 0, 0
  {
    if i < |pool| {
      var dt := Directions(b, t);
      var rt := TryDirs(b, pool, i, dt.0, dt.1, order);
      assert TryWords(b, pool, i, t, order) == if rt.0.Some? then rt else TryWords(b, pool, i + 1, rt.1, order);
      TryDirsSound(b, pool, i, dt.0, dt.1, order);
      TryWordsSound(b, pool, i + 1, rt.1, order);
    }
  }

  lemma TryDirsSound(b: Board, pool: seq<Entry>, i: nat, dirs: seq<Dir>, t: Tape, order: seq<Placed>)
    requires Consistent(b, order) && i < |pool|
    requires forall d :: d in dirs ==> Unmet(b, d)
    ensures TryDirs(b, pool, i, dirs, t, order).0.Some? ==> Finishable(b, pool)
    decreases |pool|, 1, |dirs|, 0, 0
  {
    if dirs != [] {
      var d := dirs[0];
      var (cands, t1) := Shuffle(Candidates(b.grid, pool[i].word, d, First(b)), t);
      TryCandsSound(b, pool, i, d, cands, 0, t1, order);
      TryDirsSound(b, pool, i, dirs[1..], TryCands(b, pool, i, d, cands, 0, t1, order).1, order);
    }
  }

  lemma TryCandsSound(b: Board, pool: seq<Entry>, i: nat, d: Dir, cands: seq<Pos>, j: nat, t: Tape,
                      order: seq<Placed>)
    requires Consistent(b, order) && i < |pool| && Unmet(b, d) && j <= |cands|
    requires forall c :: c in cands ==> c in Candidates(b.grid, pool[i].word, d, First(b))
    ensures TryCands(b, pool, i, d, cands, j, t, order).0.Some? ==> Finishable(b, pool)
    decreases |pool|, 0, 0, |cands| - j, 2
  {
    if j < |cands| {
      var t' := TryCandsStep(b, pool, i, d, cands, j, t, order);
      TryCandsSound(b, pool, i, d, cands, j + 1, t', order);
    }
  }

  /** The verdict the candidate loop acts on at start c. */
  predicate Takes(b: Board, w: string, d: Dir, c: Pos)
    requires WellFormed(b.grid) && Addressable(c.0, c.1, |w|, d)
  {
    var v := CanPlace(b.grid, w, c.0, c.1, d);
    v.Accepted? && (First(b) || v.hasIntersection)
  }

  /** One turn of the candidate loop: a success comes from a finishing move
      at start j or from the rest of the loop, run on tape t'; a failure
      is a failure of the rest of the loop. */
  lemma TryCandsStep(b: Board, pool: seq<Entry>, i: nat, d: Dir, cands: seq<Pos>, j: nat, t: Tape,
                     order: seq<Placed>) returns (t': Tape)
    requires Consistent(b, order) && i < |pool| && Unmet(b, d) && j < |cands|
    requires forall c :: c in cands ==> c in Candidates(b.grid, pool[i].word, d, First(b))
    ensures TryCands(b, pool, i, d, cands, j, t, order).0.Some? ==>
              Good(b, pool, i, d, cands[j]) || TryCands(b, pool, i, d, cands, j + 1, t', order).0.Some?
    ensures TryCands(b, pool, i, d, cands, j, t, order).0.None? ==>
              TryCands(b, pool, i, d, cands, j + 1, t', order).0.None?
    decreases |pool|, 0, 0, |cands| - j, 1
  {
    CandidateOnBoard(b.grid, pool[i].word, d, First(b), cands[j]);
    if Takes(b, pool[i].word, d, cands[j]) {
      t' := TryCandsTake(b, pool, i, d, cands, j, t, order);
    } else {
      t' := t;
    }
  }

  lemma TryCandsTake(b: Board, pool: seq<Entry>, i: nat, d: Dir, cands: seq<Pos>, j: nat, t: Tape,
                     order: seq<Placed>) returns (t': Tape)
    requires Consistent(b, order) && i < |pool| && Unmet(b, d) && j < |cands|
    requires forall c :: c in cands ==> c in Candidates(b.grid, pool[i].word, d, First(b))
    requires Addressable(cands[j].0, cands[j].1, |pool[i].word|, d) && Takes(b, pool[i].word, d, cands[j])
    ensures TryCands(b, pool, i, d, cands, j, t, order).0.Some? ==>
              Good(b, pool, i, d, cands[j]) || TryCands(b, pool, i, d, cands, j + 1, t', order).0.Some?
    ensures TryCands(b, pool, i, d, cands, j, t, order).0.None? ==>
              TryCands(b, pool, i, d, cands, j + 1, t', order).0.None?
    decreases |pool|, 0, 0, |cands| - j, 0
  {
    var (x, y) := cands[j];
    var p := Placed(pool[i], x, y, d);
    CommitConsistent(b, order, p);
    var (r, t1) := Search(Commit(b, p), RemoveAt(pool, i), t, order + [p]);
    if r.Some? {
      CandidateIff(b.grid, pool[i].word, d, First(b), cands[j]);
      FoundGood(b, pool, i, d, cands[j], t, order);
    }
    t' := t1;
  }

  /** A committed move below which the search succeeded is a finishing move. */
  lemma FoundGood(b: Board, pool: seq<Entry>, i: nat, d: Dir, c: Pos, t: Tape, order: seq<Placed>)
    requires i < |pool| && Move(b, pool[i], d, c)
    requires Consistent(Next(b, pool[i], d, c), order + [Placed(pool[i], c.0, c.1, d)])
    requires Search(Next(b, pool[i], d, c), RemoveAt(pool, i), t, order + [Placed(pool[i], c.0, c.1, d)]).0.Some?
    ensures Good(b, pool, i, d, c)
    decreases |pool|, 0, 0, 0, 0
  {
    SearchSound(Next(b, pool[i], d, c), RemoveAt(pool, i), t, order + [Placed(pool[i], c.0, c.1, d)]);
  }

  // A finishing move is never missed: each loop reaches the move's word,
  // direction and start unless an earlier branch succeeds first.

  lemma SearchFinds(b: Board, pool: seq<Entry>, t: Tape, order: seq<Placed>)
    requires Consistent(b, order) && Finishable(b, pool)
    ensures Search(b, pool, t, order).0.Some?
    decreases |pool|, 3, 0, 0, 0
  {
    if !TargetsMet(b) {
      var i, d, c :| Good(b, pool, i, d, c);
      TryWordsFinds(b, pool, 0, t, order, i, d, c);
    }
  }

  lemma TryWordsFinds(b: Board, pool: seq<Entry>, k: nat, t: Tape, order: seq<Placed>, i: nat, d: Dir, c: Pos)
    requires Consistent(b, order) && k <= i && Good(b, pool, i, d, c)
    ensures TryWords(b, pool, k, t, order).0.Some?
    decreases |pool|, 2, |pool| - k, 0, 0
  {
    var (dirs, t1) := Directions(b, t);
    var (r, t2) := TryDirs(b, pool, k, dirs, t1, order);
    if r.None? {
      if k == i {
        TryDirsFinds(b, pool, i, dirs, t1, order, d, c);
      } else {
        TryWordsFinds(b, pool, k + 1, t2, order, i, d, c);
      }
    }
  }

  lemma TryDirsFinds(b: Board, pool: seq<Entry>, i: nat, dirs: seq<Dir>, t: Tape, order: seq<Placed>, d: Dir, c: Pos)
    requires Consistent(b, order) && i < |pool|
    requires forall e :: e in dirs ==> Unmet(b, e)
    requires d in dirs && Good(b, pool, i, d, c)
    ensures TryDirs(b, pool, i, dirs, t, order).0.Some?
    decreases |pool|, 1, |dirs|, 0, 1
  {
    var cands, t1, t' := TryDirsStep(b, pool, i, dirs, t, order);
    if TryDirs(b, pool, i, dirs, t, order).0.None? {
      if dirs[0] == d {
        CandidateIff(b.grid, pool[i].word, d, First(b), c);
        TryCandsFindsIn(b, pool, i, d, cands, t1, order, c);
      } else {
        assert d in dirs[1..];
        TryDirsFinds(b, pool, i, dirs[1..], t', order, d, c);
      }
    }
  }

  /** A finishing start among the shuffled candidates is reached. */
  lemma TryCandsFindsIn(b: Board, pool: seq<Entry>, i: nat, d: Dir, cands: seq<Pos>, t: Tape,
                        order: seq<Placed>, c: Pos)
    requires Consistent(b, order) && i < |pool| && Unmet(b, d)
    requires forall c :: c in cands ==> c in Candidates(b.grid, pool[i].word, d, First(b))
    requires c in cands && Good(b, pool, i, d, c)
    ensures TryCands(b, pool, i, d, cands, 0, t, order).0.Some?
    decreases |pool|, 0, |cands| + 1, 0, 0
  {
    var k :| 0 <= k < |cands| && cands[k] == c;
    TryCandsFinds(b, pool, i, d, cands, 0, t, order, k);
  }

  /** One turn of the direction loop: the first direction's shuffled
      candidates are searched on tape t1, and after a failure the remaining
      directions run on tape t'. */
  lemma TryDirsStep(b: Board, pool: seq<Entry>, i: nat, dirs: seq<Dir>, t: Tape, order: seq<Placed>)
    returns (cands: seq<Pos>, t1: Tape, t': Tape)
    requires Consistent(b, order) && i < |pool| && dirs != []
    requires forall e :: e in dirs ==> Unmet(b, e)
    ensures forall c :: c in cands <==> c in Candidates(b.grid, pool[i].word, dirs[0], First(b))
    ensures TryDirs(b, pool, i, dirs, t, order).0.None? ==>
              TryCands(b, pool, i, dirs[0], cands, 0, t1, order).0.None? &&
              TryDirs(b, pool, i, dirs[1..], t', order).0.None?
    decreases |pool|, 1, |dirs|, 0, 0
  {
    var sh := Shuffle(Candidates(b.grid, pool[i].word, dirs[0], First(b)), t);
    cands, t1 := sh.0, sh.1;
    t' := TryCands(b, pool, i, dirs[0], cands, 0, t1, order).1;
  }

  lemma TryCandsFinds(b: Board, pool: seq<Entry>, i: nat, d: Dir, cands: seq<Pos>, j: nat, t: Tape,
                      order: seq<Placed>, k: nat)
    requires Consistent(b, order) && i < |pool| && Unmet(b, d) && j <= k < |cands|
    requires forall c :: c in cands ==> c in Candidates(b.grid, pool[i].word, d, First(b))
    requires Good(b, pool, i, d, cands[k])
    ensures TryCands(b, pool, i, d, cands, j, t, order).0.Some?
    decreases |pool|, 0, 0, |cands| - j, 2
  {
    if j == k {
      TryCandsHit(b, pool, i, d, cands, j, t, order);
    } else {
      var t' := TryCandsStep(b, pool, i, d, cands, j, t, order);
      TryCandsFinds(b, pool, i, d, cands, j + 1, t', order, k);
    }
  }

  /** At the finishing start itself the move is committed and the search
      below it succeeds. */
  lemma TryCandsHit(b: Board, pool: seq<Entry>, i: nat, d: Dir, cands: seq<Pos>, j: nat, t: Tape,
                    order: seq<Placed>)
    requires Consistent(b, order) && i < |pool| && Unmet(b, d) && j < |cands|
    requires forall c :: c in cands ==> c in Candidates(b.grid, pool[i].word, d, First(b))
    requires Good(b, pool, i, d, cands[j])
    ensures TryCands(b, pool, i, d, cands, j, t, order).0.Some?
    decreases |pool|, 0, 0, |cands| - j, 0
  {
    var (x, y) := cands[j];
    var p := Placed(pool[i], x, y, d);
    CandidateOnBoard(b.grid, pool[i].word, d, First(b), cands[j]);
    CommitConsistent(b, order, p);
    SearchFinds(Commit(b, p), RemoveAt(pool, i), t, order + [p]);
  }

  /** Whether a board can be finished depends on the pool only as a
      multiset: the order of the words does not matter. */
  lemma FinishablePerm(b: Board, p1: seq<Entry>, p2: seq<Entry>)
    requires multiset(p1) == multiset(p2)
    ensures Finishable(b, p1) <==> Finishable(b, p2)
  {
    if Finishable(b, p1) {
      FinishableMoves(b, p1, p2);
    }
    if Finishable(b, p2) {
      FinishableMoves(b, p2, p1);
    }
  }

  lemma {:induction false} FinishableMoves(b: Board, p1: seq<Entry>, p2: seq<Entry>)
    requires multiset(p1) == multiset(p2) && Finishable(b, p1)
    ensures Finishable(b, p2)
    decreases |p1|
  {
    if !TargetsMet(b) {
      var i, d, c :| Good(b, p1, i, d, c);
      var e := p1[i];
      var i' := IndexIn(p1, i, p2);
      var r1, r2 := RemoveAt(p1, i), RemoveAt(p2, i');
      RemoveSame(p1, i, p2, i');
      FinishableMoves(Next(b, e, d, c), r1, r2);
      GoodTransfer(b, p1, i, p2, i', d, c);
    }
  }

  lemma RemoveSame(p1: seq<Entry>, i: int, p2: seq<Entry>, i': int)
    requires multiset(p1) == multiset(p2) && 0 <= i < |p1| && 0 <= i' < |p2| && p1[i] == p2[i']
    ensures multiset(RemoveAt(p1, i)) == multiset(RemoveAt(p2, i'))
  {
    var e := p1[i];
    var m1, m2 := multiset(RemoveAt(p1, i)), multiset(RemoveAt(p2, i'));
    assert m1 + multiset{e} == m2 + multiset{e};
    assert m1 == (m1 + multiset{e}) - multiset{e};
    assert m2 == (m2 + multiset{e}) - multiset{e};
  }

  /** An entry of p1 also sits at some index of a permutation p2. */
  lemma IndexIn<T>(p1: seq<T>, i: int, p2: seq<T>) returns (k: int)
    requires multiset(p1) == multiset(p2) && 0 <= i < |p1|
    ensures 0 <= k < |p2| && p2[k] == p1[i]
  {
    assert p1[i] in multiset(p2);
    k :| 0 <= k < |p2| && p2[k] == p1[i];
  }

  lemma GoodTransfer(b: Board, p1: seq<Entry>, i: int, p2: seq<Entry>, i': int, d: Dir, c: Pos)
    requires Good(b, p1, i, d, c) && 0 <= i' < |p2| && p2[i'] == p1[i]
    requires Finishable(Next(b, p1[i], d, c), RemoveAt(p2, i'))
    ensures Good(b, p2, i', d, c)
  {
  }
}
