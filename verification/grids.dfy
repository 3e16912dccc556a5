/** The grid model and the records the generator places on it. */
module Grids {
  import opened Wrappers

  /** Side length of the square board. */
  const N: int := 12
  /** Number of across and down words a finished layout must hold. */
  const TargetAcross: nat := 5
  const TargetDown: nat := 5

  datatype Dir = Across | Down

  /** A board coordinate, column first: (x, y). */
  type Pos = (int, int)

  /** A cell is empty (`None`, the source's `null`) or holds one letter. */
  type Cell = Option<char>
  type Grid = seq<seq<Cell>>

  /** A word-bank entry. The source's `length` field always equals the
      word's length, so the model reads the length off the word. */
  datatype Entry = Entry(id: string, word: string, clue: string)

  /** An entry together with where it was placed. */
  datatype Placed = Placed(entry: Entry, x: int, y: int, dir: Dir)

  function Len(p: Placed): nat { |p.entry.word| }

  predicate WellFormed(g: Grid) {
    |g| == N && forall r :: 0 <= r < |g| ==> |g[r]| == N
  }

  predicate OnBoard(x: int, y: int) { 0 <= x < N && 0 <= y < N }

  /** True when (x, y) is on the board and holds a letter. */
  predicate Filled(g: Grid, x: int, y: int)
    requires WellFormed(g)
  {
    OnBoard(x, y) && g[y][x].Some?
  }

  /** The grid every attempt starts from: all cells empty. */
  function EmptyGrid(): (g: Grid)
    ensures WellFormed(g)
    ensures forall x, y :: OnBoard(x, y) ==> !Filled(g, x, y)
  {
    seq(N, _ => seq(N, _ => None))
  }

  /** Column and row of letter `k` of a word starting at (x0, y0);
      k = -1 is the cell before the start, k = len the cell after the end. */
  function Col(x0: int, d: Dir, k: int): int { if d == Across then x0 + k else x0 }
  function Row(y0: int, d: Dir, k: int): int { if d == Down then y0 + k else y0 }

  /** Every letter of a word of length `len` lands on the board. */
  predicate Fits(x0: int, y0: int, len: nat, d: Dir) {
    0 <= x0 && 0 <= y0 &&
    if d == Across then x0 + len <= N && y0 < N else y0 + len <= N && x0 < N
  }

  /** The content of the cell under letter `k`. */
  function CellAt(g: Grid, x0: int, y0: int, d: Dir, k: int): Cell
    requires WellFormed(g) && OnBoard(Col(x0, d, k), Row(y0, d, k))
  {
    g[Row(y0, d, k)][Col(x0, d, k)]
  }

  /** A word of length `len` at (x0, y0) running in direction d covers
      (x, y): the coverage test the game applies to clicks and reveals. */
  predicate CoversCell(x0: int, y0: int, len: nat, d: Dir, x: int, y: int) {
    if d == Across then y == y0 && x0 <= x < x0 + len
    else x == x0 && y0 <= y < y0 + len
  }

  predicate Covers(p: Placed, x: int, y: int) {
    CoversCell(p.x, p.y, Len(p), p.dir, x, y)
  }

  /** The coverage test agrees with the generator's cell enumeration:
      (x, y) is covered exactly when it is the cell of some letter. */
  lemma CoversIffLetterCell(x0: int, y0: int, len: nat, d: Dir, x: int, y: int)
    ensures CoversCell(x0, y0, len, d, x, y) <==>
            exists k :: 0 <= k < len && Col(x0, d, k) == x && Row(y0, d, k) == y
  {
    if CoversCell(x0, y0, len, d, x, y) {
      var k := if d == Across then x - x0 else y - y0;
      assert Col(x0, d, k) == x && Row(y0, d, k) == y;
    }
  }

  /** The cells of p read p's word, letter by letter. */
  predicate Spelled(g: Grid, p: Placed)
    requires WellFormed(g)
  {
    Fits(p.x, p.y, Len(p), p.dir) &&
    forall k :: 0 <= k < Len(p) ==> CellAt(g, p.x, p.y, p.dir, k) == Some(p.entry.word[k])
  }

  /** Two placed words share a cell. */
  ghost predicate Share(a: Placed, b: Placed) {
    exists x, y :: Covers(a, x, y) && Covers(b, x, y)
  }

  /** Where two spelled words cross, they supply the same letter. */
  lemma CrossingsAgree(g: Grid, a: Placed, b: Placed, i: int, j: int)
    requires WellFormed(g) && Spelled(g, a) && Spelled(g, b)
    requires 0 <= i < Len(a) && 0 <= j < Len(b)
    requires Col(a.x, a.dir, i) == Col(b.x, b.dir, j) && Row(a.y, a.dir, i) == Row(b.y, b.dir, j)
    ensures a.entry.word[i] == b.entry.word[j]
  {
    assert CellAt(g, a.x, a.y, a.dir, i) == Some(a.entry.word[i]);
    assert CellAt(g, b.x, b.y, b.dir, j) == Some(b.entry.word[j]);
  }

  /** The entries of a list of placed words, in order. */
  function Entries(ps: seq<Placed>): (es: seq<Entry>)
    ensures |es| == |ps|
    ensures forall i :: 0 <= i < |ps| ==> es[i] == ps[i].entry
  {
    if ps == [] then [] else Entries(ps[..|ps| - 1]) + [ps[|ps| - 1].entry]
  }

  lemma EntriesAppend(a: seq<Placed>, b: seq<Placed>)
    ensures Entries(a + b) == Entries(a) + Entries(b)
  {
  }
}
