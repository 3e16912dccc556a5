/** The progress rules of the game page as pure transitions over an
    explicit state: cell selection, the display grid, answer submission
    and hints. */
module Game {
  import opened Wrappers
  import opened Grids
  import opened Numbering

  const InitialHints: int := 3
  const Reward: int := 100
  const Penalty: int := 10

  /** What a cell of the display grid shows: a void (no letter in the
      solution), an empty slot, or a letter. */
  datatype Shown = Void | Blank | Letter(c: char)

  /** The page's state once a level is loaded. */
  datatype State = State(
    grid: Grid,
    across: seq<Placed>,
    down: seq<Placed>,
    solved: seq<string>,
    revealed: seq<Pos>,
    active: Option<string>,
    input: string,
    score: int,
    hintsLeft: int,
    completed: bool)

  function AllWords(st: State): seq<Placed> { st.across + st.down }
  function Total(st: State): nat { |st.across| + |st.down| }

  function Max(a: int, b: int): int { if a >= b then a else b }

  function Placements(cs: seq<Clue>): (r: seq<Placed>)
    ensures |r| == |cs| && forall i :: 0 <= i < |cs| ==> r[i] == cs[i].placed
  {
    if cs == [] then [] else [cs[0].placed] + Placements(cs[1..])
  }

  /** The state right after loading: clue lists in numbered order, nothing
      solved or revealed, no selection, score 0 and three hints. */
  function Start(g: Grid, n: Numbered): (r: State)
    ensures r.grid == g
    ensures |r.across| == |n.across| && forall i :: 0 <= i < |n.across| ==> r.across[i] == n.across[i].placed
    ensures |r.down| == |n.down| && forall i :: 0 <= i < |n.down| ==> r.down[i] == n.down[i].placed
    ensures ActiveWord(r).None? && forall q :: !Visible(r, q)
    ensures r.solved == [] && r.revealed == [] && r.input == ""
    ensures r.score == 0 && r.hintsLeft == InitialHints && !r.completed
  {
    State(g, Placements(n.across), Placements(n.down), [], [], None, "", 0, InitialHints, false)
  }

  /** Letter k of w sits on this cell. */
  function CellOf(w: Placed, k: int): Pos { (Col(w.x, w.dir, k), Row(w.y, w.dir, k)) }

  /** The first word, across list then down list, carrying the given id. */
  function FindById(ws: seq<Placed>, id: string): (r: Option<Placed>)
    ensures r.None? <==> forall w :: w in ws ==> w.entry.id != id
    ensures r.Some? ==> exists i :: 0 <= i < |ws| && ws[i] == r.value && r.value.entry.id == id &&
                                    forall j :: 0 <= j < i ==> ws[j].entry.id != id
  {
    if ws == [] then None
    else if ws[0].entry.id == id then Some(ws[0])
    else
      var r := FindById(ws[1..], id);
      assert forall w :: w in ws <==> w == ws[0] || w in ws[1..];
      if r.Some? then
        var i :| 0 <= i < |ws[1..]| && ws[1..][i] == r.value && r.value.entry.id == id &&
                 forall j :: 0 <= j < i ==> ws[1..][j].entry.id != id;
        assert ws[i + 1] == r.value;
        r
      else r
  }

  /** `getActiveWord()`: no word while the selection is null or empty, or
      when no word carries the selected id; otherwise the first word, across
      list then down list, that carries it. */
  function ActiveWord(st: State): (r: Option<Placed>)
    ensures r.None? <==>
              st.active.None? || st.active.value == "" ||
              forall w :: w in AllWords(st) ==> w.entry.id != st.active.value
    ensures r.Some? ==> r.value in AllWords(st) && st.active == Some(r.value.entry.id)
  {
    if st.active.None? || st.active.value == "" then None else FindById(AllWords(st), st.active.value)
  }

  /** A cell is visible when a hint revealed it or a solved word covers it. */
  ghost predicate Visible(st: State, q: Pos) {
    q in st.revealed ||
    exists w :: w in AllWords(st) && w.entry.id in st.solved && Covers(w, q.0, q.1)
  }

  /** Does some solved word among ws cover (x, y)? */
  function SolvedCovers(ws: seq<Placed>, solved: seq<string>, x: int, y: int): (r: bool)
    ensures r <==> exists w :: w in ws && w.entry.id in solved && Covers(w, x, y)
  {
    if ws == [] then false
    else
      assert forall w :: w in ws <==> w == ws[0] || w in ws[1..];
      (ws[0].entry.id in solved && Covers(ws[0], x, y)) || SolvedCovers(ws[1..], solved, x, y)
  }

  function ShowCell(st: State, x: int, y: int): Shown
    requires WellFormed(st.grid) && OnBoard(x, y)
  {
    match st.grid[y][x]
    case None => Void
    case Some(c) =>
      if (x, y) in st.revealed then Letter(c)
      else if SolvedCovers(AllWords(st), st.solved, x, y) then Letter(c)
      else Blank
  }

  /** `calculateDisplayGrid()`: voids stay void; a letter cell shows its
      solution letter exactly when it is visible, and is blank otherwise. */
  function Display(st: State): (r: seq<seq<Shown>>)
    requires WellFormed(st.grid)
    ensures |r| == N && forall y :: 0 <= y < N ==> |r[y]| == N
    ensures forall x, y :: OnBoard(x, y) ==> (r[y][x] == Void <==> st.grid[y][x] == None)
    ensures forall x, y :: OnBoard(x, y) && st.grid[y][x].Some? ==>
              (r[y][x] == Letter(st.grid[y][x].value) <==> Visible(st, (x, y))) &&
              (r[y][x] == Blank <==> !Visible(st, (x, y)))
  {
    seq(N, y requires 0 <= y < N => seq(N, x requires 0 <= x < N => ShowCell(st, x, y)))
  }

  function UpperChar(c: char): char {
    if Lower(c) then (c as int - 32) as char else c
  }

  predicate Lower(c: char) { 'a' <= c <= 'z' }

  /** `toUpperCase()` on the Latin letters: no lower-case letter survives,
      every other character is kept. */
  function Upper(s: string): (r: string)
    ensures |r| == |s|
    ensures forall i :: 0 <= i < |r| ==> !Lower(r[i])
    ensures forall i :: 0 <= i < |s| && !Lower(s[i]) ==> r[i] == s[i]
    ensures forall i :: 0 <= i < |s| && Lower(s[i]) ==> r[i] as int == s[i] as int - 32
  {
    seq(|s|, i requires 0 <= i < |s| => UpperChar(s[i]))
  }

  /** Upper-casing twice is upper-casing once: the answer box already
      upper-cases what the player types, and the second upper-casing at
      submission leaves such an input as it is. */
  lemma UpperIdempotent(s: string)
    ensures Upper(Upper(s)) == Upper(s)
  {
  }

  /** The typed answer matches the active word, ignoring case. */
  predicate Correct(st: State) {
    ActiveWord(st).Some? && Upper(st.input) == ActiveWord(st).value.entry.word
  }

  /** `handleSubmit()`. */
  function Submit(st: State): (r: State)
    ensures r.grid == st.grid && r.across == st.across && r.down == st.down
    ensures r.revealed == st.revealed && r.active == st.active && r.hintsLeft == st.hintsLeft
    ensures ActiveWord(st).None? ==> r == st
    ensures ActiveWord(st).Some? && !Correct(st) ==>
              r == st.(score := Max(0, st.score - Penalty))
    ensures Correct(st) && ActiveWord(st).value.entry.id in st.solved ==> r == st
    ensures Correct(st) && ActiveWord(st).value.entry.id !in st.solved ==>
              r.solved == st.solved + [ActiveWord(st).value.entry.id] &&
              r.score == st.score + Reward && r.input == "" &&
              (r.completed <==> st.completed || |r.solved| == Total(st))
  {
    match ActiveWord(st)
    case None => st
    case Some(w) =>
      if Upper(st.input) == w.entry.word then
        if w.entry.id in st.solved then st
        else
          var solved := st.solved + [w.entry.id];
          st.(solved := solved, score := st.score + Reward, input := "",
              completed := if |solved| == |st.across| + |st.down| then true else st.completed)
      else
        st.(score := Max(0, st.score - Penalty))
  }

  /** The first letter of w, from index i on, whose cell is not visible. */
  function FirstHidden(st: State, w: Placed, i: nat): (r: Option<nat>)
    requires i <= Len(w)
    ensures r.Some? ==> i <= r.value < Len(w) && !Visible(st, CellOf(w, r.value)) &&
                        forall k :: i <= k < r.value ==> Visible(st, CellOf(w, k))
    ensures r.None? ==> forall k :: i <= k < Len(w) ==> Visible(st, CellOf(w, k))
    decreases Len(w) - i
  {
    if i == Len(w) then None
    else
      var q := CellOf(w, i);
      if q in st.revealed || SolvedCovers(AllWords(st), st.solved, q.0, q.1) then FirstHidden(st, w, i + 1)
      else Some(i)
  }

  /** `handleHint()`. */
  function Hint(st: State): (r: State)
    ensures r.grid == st.grid && r.across == st.across && r.down == st.down
    ensures r.solved == st.solved && r.active == st.active && r.input == st.input && r.completed == st.completed
    ensures ActiveWord(st).None? || st.hintsLeft <= 0 || ActiveWord(st).value.entry.id in st.solved ==> r == st
    ensures r != st ==>
              exists k :: 0 <= k < Len(ActiveWord(st).value) &&
                var w := ActiveWord(st).value;
                !Visible(st, CellOf(w, k)) && (forall j :: 0 <= j < k ==> Visible(st, CellOf(w, j))) &&
                r == st.(revealed := st.revealed + [CellOf(w, k)], hintsLeft := st.hintsLeft - 1,
                         score := Max(0, st.score - Penalty))
    ensures ActiveWord(st).Some? && st.hintsLeft > 0 && ActiveWord(st).value.entry.id !in st.solved &&
            (exists k :: 0 <= k < Len(ActiveWord(st).value) && !Visible(st, CellOf(ActiveWord(st).value, k))) ==>
              r != st
  {
    match ActiveWord(st)
    case None => st
    case Some(w) =>
      if st.hintsLeft <= 0 || w.entry.id in st.solved then st
      else match FirstHidden(st, w, 0)
        case None => st
        case Some(k) =>
          st.(revealed := st.revealed + [CellOf(w, k)], hintsLeft := st.hintsLeft - 1,
              score := Max(0, st.score - Penalty))
  }

  /** The words covering (x, y), in list order. */
  function WordsAt(ws: seq<Placed>, x: int, y: int): (r: seq<Placed>)
    ensures forall w :: w in r <==> w in ws && Covers(w, x, y)
    ensures r != [] ==> exists i :: 0 <= i < |ws| && ws[i] == r[0] && forall j :: 0 <= j < i ==> !Covers(ws[j], x, y)
  {
    if ws == [] then []
    else
      var rest := WordsAt(ws[1..], x, y);
      assert forall w :: w in ws <==> w == ws[0] || w in ws[1..];
      if Covers(ws[0], x, y) then [ws[0]] + rest
      else
        FirstStaysFirst(ws, rest, x, y);
        rest
  }

  /** WordsAt is the order-preserving filter of the covering words: it
      distributes over concatenation, so no word is reordered or repeated,
      and (`WordsAtSingle`) keeps a single word exactly when it covers the cell. */
  lemma {:induction false} WordsAtAppend(a: seq<Placed>, b: seq<Placed>, x: int, y: int)
    ensures WordsAt(a + b, x, y) == WordsAt(a, x, y) + WordsAt(b, x, y)
  {
    if a == [] {
      assert a + b == b;
    } else {
      var head := if Covers(a[0], x, y) then [a[0]] else [];
      WordsAtAppend(a[1..], b, x, y);
      assert (a + b)[0] == a[0] && (a + b)[1..] == a[1..] + b;
      WordsAtStep(a + b, x, y);
      WordsAtStep(a, x, y);
      ConcatAssoc(head, WordsAt(a[1..], x, y), WordsAt(b, x, y));
    }
  }

  /** Regrouping a concatenation, kept apart from WordsAtAppend: proved in
      that lemma's context the same step costs the solver far more. */
  lemma ConcatAssoc<T>(p: seq<T>, q: seq<T>, r: seq<T>)
    ensures p + (q + r) == (p + q) + r
  {
  }

  lemma WordsAtSingle(w: Placed, x: int, y: int)
    ensures WordsAt([w], x, y) == if Covers(w, x, y) then [w] else []
  {
    WordsAtStep([w], x, y);
    assert [w][1..] == [];
  }

  lemma WordsAtStep(ws: seq<Placed>, x: int, y: int)
    requires ws != []
    ensures WordsAt(ws, x, y) == (if Covers(ws[0], x, y) then [ws[0]] else []) + WordsAt(ws[1..], x, y)
  {
  }

  lemma FirstStaysFirst(ws: seq<Placed>, rest: seq<Placed>, x: int, y: int)
    requires ws != [] && !Covers(ws[0], x, y)
    requires rest != [] ==> exists i :: 0 <= i < |ws[1..]| && ws[1..][i] == rest[0] &&
                                        forall j :: 0 <= j < i ==> !Covers(ws[1..][j], x, y)
    ensures rest != [] ==> exists i :: 0 <= i < |ws| && ws[i] == rest[0] &&
                                       forall j :: 0 <= j < i ==> !Covers(ws[j], x, y)
  {
    if rest != [] {
      var i :| 0 <= i < |ws[1..]| && ws[1..][i] == rest[0] && forall j :: 0 <= j < i ==> !Covers(ws[1..][j], x, y);
      assert ws[i + 1] == rest[0];
      assert forall j :: 1 <= j < i + 1 ==> ws[j] == ws[1..][j - 1];
    }
  }

  /** The first word whose id differs from `id`. */
  function FindOther(ws: seq<Placed>, id: string): (r: Option<Placed>)
    ensures r.None? <==> forall w :: w in ws ==> w.entry.id == id
    ensures r.Some? ==> exists i :: 0 <= i < |ws| && ws[i] == r.value && r.value.entry.id != id &&
                                    forall j :: 0 <= j < i ==> ws[j].entry.id == id
  {
    if ws == [] then None
    else if ws[0].entry.id != id then Some(ws[0])
    else
      var r := FindOther(ws[1..], id);
      assert forall w :: w in ws <==> w == ws[0] || w in ws[1..];
      if r.Some? then
        var i :| 0 <= i < |ws[1..]| && ws[1..][i] == r.value && r.value.entry.id != id &&
                 forall j :: 0 <= j < i ==> ws[1..][j].entry.id == id;
        assert ws[i + 1] == r.value;
        r
      else r
  }

  /** Searching the words at a cell for another id finds the first word of
      the whole list that both covers the cell and carries another id. */
  lemma {:induction false} FindOtherAt(ws: seq<Placed>, x: int, y: int, id: string)
    ensures FindOther(WordsAt(ws, x, y), id).None? <==>
              forall w :: w in ws && Covers(w, x, y) ==> w.entry.id == id
    ensures FindOther(WordsAt(ws, x, y), id).Some? ==>
              exists i :: 0 <= i < |ws| && ws[i] == FindOther(WordsAt(ws, x, y), id).value &&
                          Covers(ws[i], x, y) && ws[i].entry.id != id &&
                          forall j :: 0 <= j < i ==> !(Covers(ws[j], x, y) && ws[j].entry.id != id)
  {
    if ws != [] {
      FindOtherAt(ws[1..], x, y, id);
      var rest := WordsAt(ws[1..], x, y);
      if Covers(ws[0], x, y) {
        assert WordsAt(ws, x, y) == [ws[0]] + rest;
        if ws[0].entry.id == id {
          assert ([ws[0]] + rest)[1..] == rest;
          assert FindOther(WordsAt(ws, x, y), id) == FindOther(rest, id);
          if FindOther(rest, id).Some? {
            ShiftFirstOther(ws, x, y, id, FindOther(rest, id).value);
          }
        }
      } else {
        assert WordsAt(ws, x, y) == rest;
        if FindOther(rest, id).Some? {
          ShiftFirstOther(ws, x, y, id, FindOther(rest, id).value);
        }
      }
    }
  }

  lemma ShiftFirstOther(ws: seq<Placed>, x: int, y: int, id: string, o: Placed)
    requires ws != [] && !(Covers(ws[0], x, y) && ws[0].entry.id != id)
    requires exists i :: 0 <= i < |ws[1..]| && ws[1..][i] == o && Covers(o, x, y) && o.entry.id != id &&
                         forall j :: 0 <= j < i ==> !(Covers(ws[1..][j], x, y) && ws[1..][j].entry.id != id)
    ensures exists i :: 0 <= i < |ws| && ws[i] == o && Covers(o, x, y) && o.entry.id != id &&
                        forall j :: 0 <= j < i ==> !(Covers(ws[j], x, y) && ws[j].entry.id != id)
  {
    var t := ws[1..];
    var i :| 0 <= i < |t| && t[i] == o && Covers(o, x, y) && o.entry.id != id &&
             forall j :: 0 <= j < i ==> !(Covers(t[j], x, y) && t[j].entry.id != id);
    assert ws[i + 1] == o;
    forall j | 0 <= j < i + 1
      ensures !(Covers(ws[j], x, y) && ws[j].entry.id != id)
    {
      if j > 0 {
        assert ws[j] == t[j - 1];
      }
    }
  }

  /** `handleCellClick(x, y)`. */
  function Click(st: State, x: int, y: int): (r: State)
    ensures r.grid == st.grid && r.across == st.across && r.down == st.down && r.solved == st.solved
    ensures r.revealed == st.revealed && r.score == st.score && r.hintsLeft == st.hintsLeft && r.completed == st.completed
    ensures (forall w :: w in AllWords(st) ==> !Covers(w, x, y)) ==> r == st
    ensures r.active != st.active ==>
              r.input == "" && r.active.Some? &&
              exists w :: w in AllWords(st) && Covers(w, x, y) && w.entry.id == r.active.value
    ensures st.active.Some? && st.active.value != "" &&
            (exists w :: w in AllWords(st) && Covers(w, x, y) && w.entry.id == st.active.value) ==>
              (r.active == st.active <==>
                 forall w :: w in AllWords(st) && Covers(w, x, y) ==> w.entry.id == st.active.value)
    ensures st.active.Some? && st.active.value != "" &&
            (exists w :: w in AllWords(st) && Covers(w, x, y) && w.entry.id == st.active.value) &&
            (forall w :: w in AllWords(st) && Covers(w, x, y) ==> w.entry.id == st.active.value) ==>
              r == st
    ensures (st.active.None? || st.active.value == "" ||
             forall w :: w in AllWords(st) && Covers(w, x, y) ==> w.entry.id != st.active.value) &&
            (exists w :: w in AllWords(st) && Covers(w, x, y)) ==>
              exists i :: 0 <= i < |AllWords(st)| && Covers(AllWords(st)[i], x, y) &&
                          (forall j :: 0 <= j < i ==> !Covers(AllWords(st)[j], x, y)) &&
                          r.active == Some(AllWords(st)[i].entry.id) && r.input == ""
  {
    var at := WordsAt(AllWords(st), x, y);
    if at == [] then st
    else if st.active.Some? && st.active.value != "" && exists w :: w in at && w.entry.id == st.active.value then
      match FindOther(at, st.active.value)
      case Some(other) => st.(active := Some(other.entry.id), input := "")
      case None => st
    else
      st.(active := Some(at[0].entry.id), input := "")
  }

  /** The toggle: when the active word covers the clicked cell and another
      covering word has a different id, the selection moves to the first
      such word of the across-then-down list, and the input is cleared. */
  lemma ClickToggle(st: State, x: int, y: int)
    requires st.active.Some? && st.active.value != ""
    requires exists w :: w in AllWords(st) && Covers(w, x, y) && w.entry.id == st.active.value
    requires exists w :: w in AllWords(st) && Covers(w, x, y) && w.entry.id != st.active.value
    ensures exists i :: 0 <= i < |AllWords(st)| && Covers(AllWords(st)[i], x, y) &&
                        AllWords(st)[i].entry.id != st.active.value &&
                        (forall j :: 0 <= j < i ==>
                           !(Covers(AllWords(st)[j], x, y) && AllWords(st)[j].entry.id != st.active.value)) &&
                        Click(st, x, y).active == Some(AllWords(st)[i].entry.id) && Click(st, x, y).input == ""
  {
    var ws, id := AllWords(st), st.active.value;
    var at := WordsAt(ws, x, y);
    var w :| w in ws && Covers(w, x, y) && w.entry.id == id;
    assert w in at;
    FindOtherAt(ws, x, y, id);
    var o := FindOther(at, id);
    assert o.Some?;
    assert Click(st, x, y) == st.(active := Some(o.value.entry.id), input := "");
    var i :| 0 <= i < |ws| && ws[i] == o.value && Covers(ws[i], x, y) && ws[i].entry.id != id &&
             forall j :: 0 <= j < i ==> !(Covers(ws[j], x, y) && ws[j].entry.id != id);
  }

  /** What every reachable state satisfies: score and hint budget never
      negative, each solved id solved once and belonging to a word, and a
      completed game has every word solved. */
  ghost predicate Inv(st: State) {
    st.score >= 0 && st.hintsLeft >= 0 && Distinct(st.solved) &&
    (forall id :: id in st.solved ==> exists w :: w in AllWords(st) && w.entry.id == id) &&
    (st.completed ==> forall w :: w in AllWords(st) ==> w.entry.id in st.solved)
  }

  /** No two words carry the same id. */
  predicate DistinctIds(ws: seq<Placed>) {
    forall i, j :: 0 <= i < j < |ws| ==> ws[i].entry.id != ws[j].entry.id
  }

  lemma StartInv(g: Grid, n: Numbered)
    ensures Inv(Start(g, n))
  {
  }

  lemma SubmitKeepsInv(st: State)
    requires Inv(st)
    ensures Inv(Submit(st))
  {
    var r := Submit(st);
    if Correct(st) && ActiveWord(st).value.entry.id !in st.solved {
      var w := ActiveWord(st).value;
      assert w in AllWords(st);
      assert forall id :: id in r.solved ==> id in st.solved || id == w.entry.id;
      if |r.solved| == Total(st) {
        AllSolvedByCount(AllWords(st), r.solved);
      }
    }
  }

  lemma HintKeepsInv(st: State)
    requires Inv(st)
    ensures Inv(Hint(st))
  {
  }

  lemma ClickKeepsInv(st: State, x: int, y: int)
    requires Inv(st)
    ensures Inv(Click(st, x, y))
  {
  }

  /** Solving the answer that brings the solved count to the number of
      words completes the game; under distinct ids that is exactly the
      moment every word is solved. */
  lemma CompletesWhenAllSolved(st: State)
    requires Inv(st) && DistinctIds(AllWords(st)) && !st.completed
    requires Correct(st) && ActiveWord(st).value.entry.id !in st.solved
    ensures Submit(st).completed <==> forall w :: w in AllWords(st) ==> w.entry.id in Submit(st).solved
  {
    var r := Submit(st);
    var w := ActiveWord(st).value;
    assert w in AllWords(st);
    assert forall id :: id in r.solved ==> id in st.solved || id == w.entry.id;
    if r.completed {
      AllSolvedByCount(AllWords(st), r.solved);
    }
    if forall v :: v in AllWords(st) ==> v.entry.id in r.solved {
      var ids := set v | v in AllWords(st) :: v.entry.id;
      var sol := set id | id in r.solved;
      assert ids == sol;
      DistinctIdsCard(AllWords(st));
      DistinctCard(r.solved);
    }
  }

  /** Pigeonhole: as many distinct solved ids as words, all of them word
      ids, means every word's id is solved. */
  lemma AllSolvedByCount(ws: seq<Placed>, solved: seq<string>)
    requires Distinct(solved) && |solved| == |ws|
    requires forall id :: id in solved ==> exists w :: w in ws && w.entry.id == id
    ensures forall w :: w in ws ==> w.entry.id in solved
  {
    var ids := set w | w in ws :: w.entry.id;
    var sol := set id | id in solved;
    DistinctCard(solved);
    IdsCard(ws);
    assert sol <= ids;
    assert |ids| == |sol| + |ids - sol| by {
      assert ids == sol + (ids - sol);
    }
    assert ids - sol == {};
    forall w | w in ws
      ensures w.entry.id in solved
    {
      assert w.entry.id in ids;
    }
  }

  lemma {:induction false} IdsCard(ws: seq<Placed>)
    ensures |set w | w in ws :: w.entry.id| <= |ws|
  {
    if ws != [] {
      IdsCard(ws[1..]);
      var rest := set w | w in ws[1..] :: w.entry.id;
      assert (set w | w in ws :: w.entry.id) == rest + {ws[0].entry.id};
    }
  }

  lemma {:induction false} DistinctIdsCard(ws: seq<Placed>)
    requires DistinctIds(ws)
    ensures |set w | w in ws :: w.entry.id| == |ws|
  {
    if ws != [] {
      assert DistinctIds(ws[1..]);
      DistinctIdsCard(ws[1..]);
      var rest := set w | w in ws[1..] :: w.entry.id;
      assert (set w | w in ws :: w.entry.id) == rest + {ws[0].entry.id};
      assert ws[0].entry.id !in rest;
    }
  }
}
