/** The clue numbering computed when a level is loaded: distinct start
    cells numbered 1..k in row-major order, and the clue lists re-sorted by
    number. */
module Numbering {
  import opened Grids

  function StartOf(p: Placed): Pos { (p.x, p.y) }

  /** Row-major order: a comes before b when its row is smaller, or the rows
      are equal and its column is smaller. */
  predicate Before(a: Pos, b: Pos) {
    a.1 < b.1 || (a.1 == b.1 && a.0 < b.0)
  }

  predicate Distinct<T(==)>(s: seq<T>) {
    forall i, j :: 0 <= i < j < |s| ==> s[i] != s[j]
  }

  predicate Increasing(s: seq<Pos>) {
    forall i, j :: 0 <= i < j < |s| ==> Before(s[i], s[j])
  }

  /** Step 1: the start cells of the words, each once, in the order they
      are first met. */
  function Starts(ws: seq<Placed>): (r: seq<Pos>)
    ensures Distinct(r)
    ensures forall q :: q in r <==> exists i :: 0 <= i < |ws| && StartOf(ws[i]) == q
  {
    if ws == [] then []
    else
      var s := Starts(ws[..|ws| - 1]);
      var q := StartOf(ws[|ws| - 1]);
      assert forall i :: 0 <= i < |ws| - 1 ==> ws[..|ws| - 1][i] == ws[i];
      if q in s then s else s + [q]
  }

  function Insert(q: Pos, s: seq<Pos>): (r: seq<Pos>)
    requires Increasing(s) && q !in s
    ensures Increasing(r) && |r| == |s| + 1
    ensures forall e :: e in r <==> e == q || e in s
  {
    if s == [] then [q]
    else if Before(q, s[0]) then [q] + s
    else
      var rest := Insert(q, s[1..]);
      assert Before(s[0], q);
      assert forall e :: e in rest ==> Before(s[0], e);
      [s[0]] + rest
  }

  /** Step 2: the starts sorted top to bottom, then left to right. */
  function SortRowMajor(s: seq<Pos>): (r: seq<Pos>)
    requires Distinct(s)
    ensures Increasing(r) && |r| == |s|
    ensures forall e :: e in r <==> e in s
  {
    if s == [] then []
    else
      assert Distinct(s[1..]);
      Insert(s[0], SortRowMajor(s[1..]))
  }

  /** Any two row-major increasing arrangements of the same cells are equal,
      so any correct sort of the starts yields this one. */
  lemma {:induction false} IncreasingUnique(a: seq<Pos>, b: seq<Pos>)
    requires Increasing(a) && Increasing(b)
    requires forall e :: e in a <==> e in b
    ensures a == b
    decreases |a|
  {
    if a != [] { assert a[0] in a; }
    if b != [] { assert b[0] in b; }
    if a != [] && b != [] {
      assert a[0] in b && b[0] in a;
      if a[0] != b[0] {
        assert false;
      }
      forall e
        ensures e in a[1..] <==> e in b[1..]
      {
        assert a == [a[0]] + a[1..] && b == [b[0]] + b[1..];
        if e in a[1..] {
          var k :| 1 <= k < |a| && a[k] == e;
          assert Before(a[0], e);
          assert e in b && e != b[0];
        }
        if e in b[1..] {
          var k :| 1 <= k < |b| && b[k] == e;
          assert Before(b[0], e);
          assert e in a && e != a[0];
        }
      }
      IncreasingUnique(a[1..], b[1..]);
      assert a == [a[0]] + a[1..] && b == [b[0]] + b[1..];
    } else if a != [] {
      assert false;
    } else if b != [] {
      assert false;
    }
  }

  /** Step 3: sorted start i gets number i + 1. */
  function NumberMap(s: seq<Pos>): (m: map<Pos, int>)
    requires Distinct(s)
    ensures forall q :: q in m <==> q in s
    ensures forall i :: 0 <= i < |s| ==> m[s[i]] == i + 1
  {
    if s == [] then map[]
    else
      var init := s[..|s| - 1];
      assert forall i :: 0 <= i < |s| - 1 ==> init[i] == s[i];
      NumberMap(init)[s[|s| - 1] := |s|]
  }

  /** A word together with the number of its start cell. */
  datatype Clue = Clue(placed: Placed, number: int)

  /** Step 4: each word gets the number of its start. */
  function Attach(ws: seq<Placed>, m: map<Pos, int>): (r: seq<Clue>)
    requires forall w :: w in ws ==> StartOf(w) in m
    ensures |r| == |ws|
    ensures forall i :: 0 <= i < |ws| ==> r[i] == Clue(ws[i], m[StartOf(ws[i])])
  {
    if ws == [] then [] else [Clue(ws[0], m[StartOf(ws[0])])] + Attach(ws[1..], m)
  }

  predicate ByNumber(s: seq<Clue>) {
    forall i, j :: 0 <= i < j < |s| ==> s[i].number <= s[j].number
  }

  /** The clues of s carrying number n, in their order in s. */
  function WithNumber(s: seq<Clue>, n: int): seq<Clue> {
    if s == [] then []
    else (if s[0].number == n then [s[0]] else []) + WithNumber(s[1..], n)
  }

  /** Inserts c before the first clue whose number is not smaller, so c
      lands ahead of every clue that has its number. */
  function InsertClue(c: Clue, s: seq<Clue>): (r: seq<Clue>)
    requires ByNumber(s)
    ensures ByNumber(r) && multiset(r) == multiset(s) + multiset{c}
  {
    if s == [] then [c]
    else if c.number <= s[0].number then [c] + s
    else
      var rest := InsertClue(c, s[1..]);
      assert s == [s[0]] + s[1..];
      NumberBelow(s, c, rest);
      [s[0]] + rest
  }

  lemma NumberBelow(s: seq<Clue>, c: Clue, rest: seq<Clue>)
    requires s != [] && ByNumber(s) && s[0].number <= c.number
    requires multiset(rest) == multiset(s[1..]) + multiset{c}
    ensures forall e :: e in rest ==> s[0].number <= e.number
  {
    forall e | e in rest
      ensures s[0].number <= e.number
    {
      assert e in multiset(rest);
      if e != c {
        assert e in multiset(s[1..]);
        var k :| 0 <= k < |s[1..]| && s[1..][k] == e;
        assert s[k + 1] == e;
      }
    }
  }

  /** Among the clues of any one number, the inserted clue comes first and
      the others keep their order. */
  lemma {:induction false} InsertClueStable(c: Clue, s: seq<Clue>, n: int)
    requires ByNumber(s)
    ensures WithNumber(InsertClue(c, s), n) == if c.number == n then [c] + WithNumber(s, n) else WithNumber(s, n)
  {
    if s == [] {
      WithNumberCons(c, [], n);
      assert [c] + [] == [c];
    } else if c.number <= s[0].number {
      assert InsertClue(c, s) == [c] + s;
      WithNumberCons(c, s, n);
    } else {
      ByNumberTail(s);
      InsertClueStable(c, s[1..], n);
      InsertBehind(c, s, n);
    }
  }

  /** The step of the induction: c goes behind s[0], which has a smaller number. */
  lemma InsertBehind(c: Clue, s: seq<Clue>, n: int)
    requires s != [] && ByNumber(s) && s[0].number < c.number
    requires ByNumber(s[1..])
    requires WithNumber(InsertClue(c, s[1..]), n) ==
               if c.number == n then [c] + WithNumber(s[1..], n) else WithNumber(s[1..], n)
    ensures WithNumber(InsertClue(c, s), n) == if c.number == n then [c] + WithNumber(s, n) else WithNumber(s, n)
  {
    var rest := InsertClue(c, s[1..]);
    assert InsertClue(c, s) == [s[0]] + rest;
    WithNumberCons(s[0], rest, n);
    assert s == [s[0]] + s[1..];
    WithNumberCons(s[0], s[1..], n);
  }

  lemma ByNumberTail(s: seq<Clue>)
    requires s != [] && ByNumber(s)
    ensures ByNumber(s[1..])
  {
    forall i, j | 0 <= i < j < |s| - 1
      ensures s[1..][i].number <= s[1..][j].number
    {
      assert s[1..][i] == s[i + 1] && s[1..][j] == s[j + 1];
    }
  }

  lemma WithNumberCons(c: Clue, s: seq<Clue>, n: int)
    ensures WithNumber([c] + s, n) == if c.number == n then [c] + WithNumber(s, n) else WithNumber(s, n)
  {
    assert ([c] + s)[0] == c && ([c] + s)[1..] == s;
  }

  /** The clue list re-sorted by number: ascending by number, a permutation
      of the input, and stable: clues with equal numbers keep their order. */
  function SortByNumber(s: seq<Clue>): (r: seq<Clue>)
    ensures ByNumber(r) && multiset(r) == multiset(s)
    ensures forall n :: WithNumber(r, n) == WithNumber(s, n)
  {
    if s == [] then []
    else
      assert s == [s[0]] + s[1..];
      var r := InsertClue(s[0], SortByNumber(s[1..]));
      assert forall n :: WithNumber(r, n) == WithNumber(s, n) by {
        forall n ensures WithNumber(r, n) == WithNumber(s, n) {
          InsertClueStable(s[0], SortByNumber(s[1..]), n);
        }
      }
      r
  }

  datatype Numbered = Numbered(across: seq<Clue>, down: seq<Clue>, numbers: map<Pos, int>)

  /** One clue list of step 4: the words numbered, then re-sorted by number. */
  function ClueList(ws: seq<Placed>, m: map<Pos, int>): (r: seq<Clue>)
    requires forall w :: w in ws ==> StartOf(w) in m
    ensures ByNumber(r) && |r| == |ws|
    ensures forall c :: c in r ==> c.placed in ws && StartOf(c.placed) in m && c.number == m[StartOf(c.placed)]
    ensures forall w :: w in ws ==> exists c :: c in r && c.placed == w
    ensures forall n :: WithNumber(r, n) == WithNumber(Attach(ws, m), n)
  {
    var r := SortByNumber(Attach(ws, m));
    AttachFacts(ws, m, r);
    r
  }

  /** The numbering block of the level initialisation. */
  function NumberLevel(across: seq<Placed>, down: seq<Placed>): (r: Numbered)
    ensures forall q :: q in r.numbers <==> exists w :: w in across + down && StartOf(w) == q
    ensures forall n :: n in r.numbers.Values <==> 1 <= n <= |r.numbers.Keys|
    ensures forall p, q :: p in r.numbers && q in r.numbers ==> (Before(p, q) <==> r.numbers[p] < r.numbers[q])
    ensures ByNumber(r.across) && ByNumber(r.down)
    ensures |r.across| == |across| && |r.down| == |down|
    ensures forall c :: c in r.across + r.down ==> StartOf(c.placed) in r.numbers && c.number == r.numbers[StartOf(c.placed)]
    ensures forall w :: w in across ==> exists c :: c in r.across && c.placed == w
    ensures forall w :: w in down ==> exists c :: c in r.down && c.placed == w
    ensures forall c :: c in r.across ==> c.placed in across
    ensures forall c :: c in r.down ==> c.placed in down
    ensures forall n :: WithNumber(r.across, n) == WithNumber(Attach(across, r.numbers), n)
    ensures forall n :: WithNumber(r.down, n) == WithNumber(Attach(down, r.numbers), n)
  {
    var ws := across + down;
    var sorted := SortRowMajor(Starts(ws));
    var m := NumberMap(sorted);
    NumbersFacts(ws, sorted, m);
    assert forall w :: w in across ==> w in ws;
    assert forall w :: w in down ==> w in ws;
    var a := ClueList(across, m);
    var d := ClueList(down, m);
    assert forall c :: c in a + d <==> c in a || c in d;
    Numbered(a, d, m)
  }

  lemma NumbersFacts(ws: seq<Placed>, sorted: seq<Pos>, m: map<Pos, int>)
    requires Increasing(sorted) && Distinct(sorted)
    requires forall q :: q in sorted <==> exists w :: w in ws && StartOf(w) == q
    requires forall q :: q in m <==> q in sorted
    requires forall i :: 0 <= i < |sorted| ==> m[sorted[i]] == i + 1
    ensures |m.Keys| == |sorted|
    ensures forall n :: n in m.Values <==> 1 <= n <= |m.Keys|
    ensures forall p, q :: p in m && q in m ==> (Before(p, q) <==> m[p] < m[q])
  {
    DistinctCard(sorted);
    assert m.Keys == set q | q in sorted;
    forall n | 1 <= n <= |m.Keys|
      ensures n in m.Values
    {
      assert m[sorted[n - 1]] == n;
    }
    forall v | v in m.Values
      ensures 1 <= v <= |m.Keys|
    {
      var q :| q in m && m[q] == v;
      var i :| 0 <= i < |sorted| && sorted[i] == q;
    }
    forall p, q | p in m && q in m
      ensures Before(p, q) <==> m[p] < m[q]
    {
      var i :| 0 <= i < |sorted| && sorted[i] == p;
      var j :| 0 <= j < |sorted| && sorted[j] == q;
      if i < j { assert Before(p, q); }
      else if j < i { assert Before(q, p); }
    }
  }

  lemma {:induction false} DistinctCard<T>(s: seq<T>)
    requires Distinct(s)
    ensures |set q | q in s| == |s|
  {
    if s != [] {
      var rest := s[1..];
      assert Distinct(rest);
      DistinctCard(rest);
      assert (set q | q in s) == (set q | q in rest) + {s[0]};
      assert s[0] !in rest;
    }
  }

  lemma AttachFacts(ws: seq<Placed>, m: map<Pos, int>, r: seq<Clue>)
    requires forall w :: w in ws ==> StartOf(w) in m
    requires multiset(r) == multiset(Attach(ws, m))
    ensures |r| == |ws|
    ensures forall c :: c in r ==> c.placed in ws && StartOf(c.placed) in m && c.number == m[StartOf(c.placed)]
    ensures forall w :: w in ws ==> exists c :: c in r && c.placed == w
  {
    var att := Attach(ws, m);
    assert |multiset(r)| == |multiset(att)|;
    forall c | c in r
      ensures c.placed in ws && c.number == m[StartOf(c.placed)]
    {
      assert c in multiset(att);
      var i :| 0 <= i < |att| && att[i] == c;
    }
    forall w | w in ws
      ensures exists c :: c in r && c.placed == w
    {
      var i :| 0 <= i < |ws| && ws[i] == w;
      assert att[i] in multiset(r);
    }
  }
}
