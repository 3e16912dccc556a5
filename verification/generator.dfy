/** `generateLevel`: category lookup, the retry loop, and what a generated
    level is guaranteed to satisfy. */
module Generator {
  import opened Wrappers
  import opened Grids
  import opened Random
  import opened CandidateGenerator
  import opened Backtracking
  import opened Exhaustive

  /** A word-bank category; description and difficulty pass through untouched. */
  datatype Category = Category(words: seq<Entry>, description: string, difficulty: int)

  /** The generator's output: solution grid, placed words, and the category as theme. */
  datatype Level = Level(grid: Grid, across: seq<Placed>, down: seq<Placed>, theme: Category)

  /** The two errors `generateLevel` throws. */
  datatype GenError = InvalidCategory | Exhausted

  const MaxAttempts: nat := 20

  function BoardOf(l: Level): Board { Board(l.grid, l.across, l.down) }

  /** A finished level built from `words`: both targets met, a valid board,
      and each entry used at most as often as the words supply it. */
  ghost predicate Finished(l: Level, words: seq<Entry>) {
    TargetsMet(BoardOf(l)) && Valid(BoardOf(l)) &&
    multiset(Entries(l.across + l.down)) <= multiset(words)
  }

  lemma EmptyBoardConsistent()
    ensures Consistent(Board(EmptyGrid(), [], []), [])
  {
  }

  /** Attempts `attempt`.. of the retry loop; each reshuffles the pool left
      by the previous one and searches from an empty grid. */
  function Attempts(words: seq<Entry>, theme: Category, attempt: nat, t: Tape): (r: (Result<Level, GenError>, Tape))
    requires attempt <= MaxAttempts
    ensures r.0.Failure? ==> r.0.error == Exhausted
    ensures r.0.Success? ==> Finished(r.0.value, words) && r.0.value.theme == theme
    decreases MaxAttempts - attempt
  {
    if attempt == MaxAttempts then (Failure(Exhausted), t)
    else
      var (shuffled, t1) := Shuffle(words, t);
      EmptyBoardConsistent();
      var (found, t2) := Search(Board(EmptyGrid(), [], []), shuffled, t1, []);
      if found.Some? then
        (Success(Level(found.value.grid, found.value.across, found.value.down, theme)), t2)
      else
        Attempts(shuffled, theme, attempt + 1, t2)
  }

  /** `generateLevel(category)` over an explicit word bank. */
  function GenerateLevel(bank: map<string, Category>, key: string, t: Tape): (r: (Result<Level, GenError>, Tape))
    ensures r.0 == Failure(InvalidCategory) <==> key !in bank
    ensures key !in bank ==> r.1 == t
    ensures r.0.Failure? ==> r.0.error in {InvalidCategory, Exhausted}
    ensures r.0.Success? ==>
              key in bank && r.0.value.theme == bank[key] &&
              Finished(r.0.value, bank[key].words) &&
              |r.0.value.across| + |r.0.value.down| == TargetAcross + TargetDown
  {
    if key !in bank then (Failure(InvalidCategory), t)
    else
      var (words, t1) := Shuffle(bank[key].words, t);
      Attempts(words, bank[key], 0, t1)
  }

  /** The tape left by the search of one attempt, which the next attempt
      reshuffles from. */
  function NextTape(words: seq<Entry>, t: Tape): Tape
  {
    EmptyBoardConsistent();
    Search(Board(EmptyGrid(), [], []), Shuffle(words, t).0, Shuffle(words, t).1, []).1
  }

  /** The retry loop succeeds exactly when a layout can be finished from
      the words: each attempt's search is exhaustive, and reshuffling only
      reorders the same words. */
  lemma {:induction false} AttemptsExhaustive(words: seq<Entry>, theme: Category, attempt: nat, t: Tape)
    requires attempt < MaxAttempts
    ensures Attempts(words, theme, attempt, t).0.Success? <==>
              Finishable(Board(EmptyGrid(), [], []), words)
    decreases MaxAttempts - attempt
  {
    if attempt + 1 < MaxAttempts {
      var shuffled, next, t2 := Shuffle(words, t).0, attempt + 1, NextTape(words, t);
      AttemptsExhaustive(shuffled, theme, next, t2);
      AttemptExhaustiveStep(words, theme, attempt, t, shuffled, next, t2);
    } else {
      LastAttemptExhaustive(words, theme, attempt, t);
    }
  }

  /** One turn of the induction: if the next attempt succeeds exactly when
      its (reshuffled) words can be finished, so does this one. */
  lemma AttemptExhaustiveStep(words: seq<Entry>, theme: Category, attempt: nat, t: Tape,
                              shuffled: seq<Entry>, next: nat, t2: Tape)
    requires next == attempt + 1 < MaxAttempts
    requires shuffled == Shuffle(words, t).0 && t2 == NextTape(words, t)
    requires Attempts(shuffled, theme, next, t2).0.Success? <==>
               Finishable(Board(EmptyGrid(), [], []), shuffled)
    ensures Attempts(words, theme, attempt, t).0.Success? <==>
              Finishable(Board(EmptyGrid(), [], []), words)
  {
    AttemptStep(words, theme, attempt, t);
    ShuffledSearchDecides(words, t);
    FinishablePerm(Board(EmptyGrid(), [], []), words, Shuffle(words, t).0);
  }

  /** The last attempt succeeds exactly when its search does. */
  lemma LastAttemptExhaustive(words: seq<Entry>, theme: Category, attempt: nat, t: Tape)
    requires attempt + 1 == MaxAttempts
    ensures Attempts(words, theme, attempt, t).0.Success? <==>
              Finishable(Board(EmptyGrid(), [], []), words)
  {
    AttemptStep(words, theme, attempt, t);
    LastAttempt(Shuffle(words, t).0, theme, attempt + 1, NextTape(words, t));
    ShuffledSearchDecides(words, t);
  }

  /** With the attempts used up, the loop ends in `Exhausted`. */
  lemma LastAttempt(words: seq<Entry>, theme: Category, attempt: nat, t: Tape)
    requires attempt == MaxAttempts
    ensures Attempts(words, theme, attempt, t).0 == Failure(Exhausted)
  {
  }

  /** One attempt: it succeeds when its search does, and otherwise hands
      the reshuffled words and the tape left by the search to the next
      attempt. */
  lemma AttemptStep(words: seq<Entry>, theme: Category, attempt: nat, t: Tape)
    requires attempt < MaxAttempts
    ensures Attempts(words, theme, attempt, t).0.Success? <==>
              Search(Board(EmptyGrid(), [], []), Shuffle(words, t).0, Shuffle(words, t).1, []).0.Some? ||
              Attempts(Shuffle(words, t).0, theme, attempt + 1, NextTape(words, t)).0.Success?
  {
    EmptyBoardConsistent();
  }

  /** A search over any shuffle of the words succeeds exactly when a layout
      of the words can be finished. */
  lemma ShuffledSearchDecides(words: seq<Entry>, t: Tape)
    ensures Search(Board(EmptyGrid(), [], []), Shuffle(words, t).0, Shuffle(words, t).1, []).0.Some? <==>
            Finishable(Board(EmptyGrid(), [], []), words)
  {
    EmptyBoardConsistent();
    SearchExhaustive(Board(EmptyGrid(), [], []), Shuffle(words, t).0, Shuffle(words, t).1, []);
    FinishablePerm(Board(EmptyGrid(), [], []), words, Shuffle(words, t).0);
  }

  /** A known category yields a level exactly when some layout of its words
      can be finished, and fails with `Exhausted` exactly when none can. */
  lemma GenerateLevelExhaustive(bank: map<string, Category>, key: string, t: Tape)
    ensures GenerateLevel(bank, key, t).0.Success? <==>
              key in bank && Finishable(Board(EmptyGrid(), [], []), bank[key].words)
    ensures GenerateLevel(bank, key, t).0 == Failure(Exhausted) <==>
              key in bank && !Finishable(Board(EmptyGrid(), [], []), bank[key].words)
  {
    if key in bank {
      var (words, t1) := Shuffle(bank[key].words, t);
      AttemptsExhaustive(words, bank[key], 0, t1);
      FinishablePerm(Board(EmptyGrid(), [], []), bank[key].words, words);
    }
  }

  /** Whether a level comes out does not depend on the random draws: the
      same category succeeds on one tape exactly when it does on any other. */
  lemma OutcomeIgnoresTape(bank: map<string, Category>, key: string, t: Tape, t': Tape)
    ensures GenerateLevel(bank, key, t).0.Success? <==> GenerateLevel(bank, key, t').0.Success?
  {
    GenerateLevelExhaustive(bank, key, t);
    GenerateLevelExhaustive(bank, key, t');
  }

  /** Once the first attempt's search has failed, none of the remaining
      attempts can succeed: the loop ends in `Exhausted` after re-running
      the whole search on every later shuffle. */
  lemma RetriesNeverRescue(words: seq<Entry>, theme: Category, t: Tape)
    requires Search(Board(EmptyGrid(), [], []), Shuffle(words, t).0, Shuffle(words, t).1, []).0.None?
    ensures Attempts(words, theme, 0, t).0 == Failure(Exhausted)
  {
    var (shuffled, t1) := Shuffle(words, t);
    SearchExhaustive(Board(EmptyGrid(), [], []), shuffled, t1, []);
    FinishablePerm(Board(EmptyGrid(), [], []), words, shuffled);
    AttemptsExhaustive(words, theme, 0, t);
  }

  /** `generateLevel` with a single search in place of the retry loop: the
      same two shuffles, one exhaustive search, and `Exhausted` when it
      fails. It returns exactly what the loop returns, and it fails only
      when no layout of the category's words can be finished. */
  function GenerateOnce(bank: map<string, Category>, key: string, t: Tape): (r: (Result<Level, GenError>, Tape))
    ensures r.0 == GenerateLevel(bank, key, t).0
    ensures r.0 == Failure(InvalidCategory) <==> key !in bank
    ensures r.0 == Failure(Exhausted) <==>
              key in bank && !Finishable(Board(EmptyGrid(), [], []), bank[key].words)
  {
    if key !in bank then (Failure(InvalidCategory), t)
    else
      var (words, t1) := Shuffle(bank[key].words, t);
      var (shuffled, t2) := Shuffle(words, t1);
      EmptyBoardConsistent();
      var (found, t3) := Search(Board(EmptyGrid(), [], []), shuffled, t2, []);
      GenerateLevelExhaustive(bank, key, t);
      if found.Some? then
        (Success(Level(found.value.grid, found.value.across, found.value.down, bank[key])), t3)
      else
        RetriesNeverRescue(words, bank[key], t1);
        (Failure(Exhausted), t3)
  }

  /** A category with fewer words than the two targets together can never
      produce a level: every attempt fails and the error is `Exhausted`. */
  lemma TooFewWordsExhausted(bank: map<string, Category>, key: string, t: Tape)
    requires key in bank && |bank[key].words| < TargetAcross + TargetDown
    ensures GenerateLevel(bank, key, t).0 == Failure(Exhausted)
  {
    var r := GenerateLevel(bank, key, t).0;
    if r.Success? {
      var l := r.value;
      var used := multiset(Entries(l.across + l.down));
      assert |used| == |l.across + l.down|;
      SubMultisetSize(used, multiset(bank[key].words));
      assert false;
    }
  }

  lemma SubMultisetSize<T>(a: multiset<T>, b: multiset<T>)
    requires a <= b
    ensures |a| <= |b|
  {
    assert b == a + (b - a);
  }

  /** The letters found in the `len` cells from (x0, y0) along d, or None
      if one of them is empty. */
  function ReadWord(g: Grid, x0: int, y0: int, d: Dir, len: nat): Option<string>
    requires WellFormed(g) && Fits(x0, y0, len, d)
  {
    if len == 0 then Some("")
    else match ReadWord(g, x0, y0, d, len - 1)
      case None => None
      case Some(s) =>
        match CellAt(g, x0, y0, d, len - 1)
        case None => None
        case Some(c) => Some(s + [c])
  }

  /** Reading a word back off the grid: re-scanning a placed word's cells
      yields exactly its letters, and only a spelled word reads back so. */
  lemma {:induction false} ReadBack(g: Grid, p: Placed)
    requires WellFormed(g) && Fits(p.x, p.y, Len(p), p.dir)
    ensures ReadWord(g, p.x, p.y, p.dir, Len(p)) == Some(p.entry.word) <==> Spelled(g, p)
  {
    ReadPrefix(g, p.x, p.y, p.dir, p.entry.word, Len(p));
    assert p.entry.word[..Len(p)] == p.entry.word;
  }

  lemma {:induction false} ReadPrefix(g: Grid, x0: int, y0: int, d: Dir, w: string, n: nat)
    requires WellFormed(g) && Fits(x0, y0, |w|, d) && n <= |w|
    ensures ReadWord(g, x0, y0, d, n) == Some(w[..n]) <==>
            forall k :: 0 <= k < n ==> CellAt(g, x0, y0, d, k) == Some(w[k])
  {
    if n > 0 {
      ReadPrefix(g, x0, y0, d, w, n - 1);
      assert w[..n] == w[..n - 1] + [w[n - 1]];
      var prev := ReadWord(g, x0, y0, d, n - 1);
      if ReadWord(g, x0, y0, d, n) == Some(w[..n]) {
        assert prev.Some? && prev.value + [w[n - 1]] == w[..n];
        assert prev.value == w[..n - 1] by {
          assert prev.value == (prev.value + [w[n - 1]])[..n - 1];
        }
      }
    }
  }

  /** In a generated level every placed word reads back from the grid. */
  lemma LevelReadsBack(l: Level, words: seq<Entry>, p: Placed)
    requires Finished(l, words) && p in l.across + l.down
    ensures WellFormed(l.grid) && Fits(p.x, p.y, Len(p), p.dir)
    ensures ReadWord(l.grid, p.x, p.y, p.dir, Len(p)) == Some(p.entry.word)
  {
    var order: seq<Placed> :| Consistent(BoardOf(l), order);
    assert p in multiset(Words(BoardOf(l)));
    assert p in order;
    assert Spelled(l.grid, p);
    ReadBack(l.grid, p);
  }

  /** In a connected history holding words of both directions, some across
      word and some down word share a cell. */
  lemma {:induction false} MixedHistoryCrosses(order: seq<Placed>, k: int)
    requires Connected(order) && 0 <= k < |order| && order[k].dir != order[0].dir
    ensures exists i, j :: 0 <= i < |order| && 0 <= j < |order| &&
              order[i].dir == Across && order[j].dir == Down && Share(order[i], order[j])
    decreases k
  {
    var j :| 0 <= j < k && Share(order[j], order[k]);
    if order[j].dir != order[k].dir {
      var a := if order[j].dir == Across then j else k;
      var dn := if order[j].dir == Across then k else j;
      assert Share(order[a], order[dn]) by {
        var x, y :| Covers(order[j], x, y) && Covers(order[k], x, y);
        assert Covers(order[a], x, y) && Covers(order[dn], x, y);
      }
    } else {
      MixedHistoryCrosses(order, j);
    }
  }

  /** Every generated level has an across word and a down word that cross. */
  lemma LevelCrosses(l: Level, words: seq<Entry>)
    requires Finished(l, words)
    ensures exists a, d :: a in l.across && d in l.down && Share(a, d)
  {
    var b := BoardOf(l);
    var order: seq<Placed> :| Consistent(b, order);
    var ms := multiset(order);
    assert l.across[0] in ms && l.down[0] in ms;
    var ia :| 0 <= ia < |order| && order[ia] == l.across[0];
    var id :| 0 <= id < |order| && order[id] == l.down[0];
    var other := if order[0].dir == Across then id else ia;
    MixedHistoryCrosses(order, other);
    var i, j :| 0 <= i < |order| && 0 <= j < |order| &&
                order[i].dir == Across && order[j].dir == Down && Share(order[i], order[j]);
    assert order[i] in ms && order[j] in ms;
    assert order[i] in l.across && order[j] in l.down;
  }
}
