/** The generator's only impurity, `Math.random`, as an explicit tape of
    draws, and the Fisher-Yates `shuffle` that consumes it. */
module Random {

  /** An infinite sequence of draws and the position of the next one.
      Any run of the source corresponds to some tape. */
  datatype Tape = Tape(source: nat -> nat, pos: nat)

  /** `Math.floor(Math.random() * bound)`: one draw, reduced into [0, bound). */
  function Draw(t: Tape, bound: nat): (r: (nat, Tape))
    requires bound > 0
    ensures r.0 < bound
    ensures r.1 == Tape(t.source, t.pos + 1)
  {
    (t.source(t.pos) % bound, Tape(t.source, t.pos + 1))
  }

  /** `Math.random() > 0.5`: one fair coin. */
  function Coin(t: Tape): (r: (bool, Tape))
    ensures r.1 == Tape(t.source, t.pos + 1)
  {
    var (v, t') := Draw(t, 2);
    (v == 1, t')
  }

  /** The tape that differs from t only in its next draw, moved by one. */
  function Flipped(t: Tape): Tape {
    var s, p := t.source, t.pos;
    Tape((n: nat) => if n == p then s(n) + 1 else s(n), p)
  }

  /** The coin is fair in the sense that tapes pair up: flipping the next
      draw turns every outcome into the other one and leaves every later
      draw as it was. */
  lemma CoinFlips(t: Tape)
    ensures Coin(Flipped(t)).0 == !Coin(t).0
    ensures Coin(Flipped(t)).1.pos == Coin(t).1.pos
    ensures forall n :: n > t.pos ==> Coin(Flipped(t)).1.source(n) == Coin(t).1.source(n)
  {
  }

  /** The Fisher-Yates pass of `shuffle`: for i from `i` down to 1, swap
      position i with a drawn position j in [0, i]. */
  function SwapDown<T>(a: seq<T>, i: int, t: Tape): (r: (seq<T>, Tape))
    requires i < |a|
    ensures |r.0| == |a|
    ensures multiset(r.0) == multiset(a)
    ensures r.1.source == t.source
    ensures r.1.pos == t.pos + (if i > 0 then i else 0)
    decreases i
  {
    if i <= 0 then (a, t)
    else
      var (j, t') := Draw(t, i + 1);
      var swapped := a[i := a[j]][j := a[i]];
      SwapDown(swapped, i - 1, t')
  }

  /** `shuffle(array)`: a permutation of the input; the input itself is a
      value and cannot change. */
  function Shuffle<T(!new)>(a: seq<T>, t: Tape): (r: (seq<T>, Tape))
    ensures |r.0| == |a|
    ensures multiset(r.0) == multiset(a)
    ensures forall x :: x in r.0 <==> x in a
    ensures r.1.source == t.source
  {
    var r := SwapDown(a, |a| - 1, t);
    assert forall x :: x in r.0 <==> x in multiset(r.0);
    r
  }
}
