/** The puzzle that `benchmarks/towers/towers_main.c` solves: pegs as sequences of discs,
    the move list of `towers_solve_h`, and the rule that no disc lies on a smaller one. */
module Hanoi {
  import opened Arith

  /** Three pegs, each with its top disc first. */
  type Config = c: seq<seq<int>> | |c| == 3 witness [[], [], []]

  type Peg = p: nat | p < 3

  datatype Move = Move(from: Peg, to: Peg)

  /** The pegs after a move; from an empty peg nothing moves. */
  function Step(c: Config, m: Move): Config {
    if c[m.from] == [] then c
    else
      var lifted := c[m.from := c[m.from][1..]];
      lifted[m.to := [c[m.from][0]] + lifted[m.to]]
  }

  function Run(c: Config, ms: seq<Move>): Config
    decreases ms
  {
    if ms == [] then c else Run(Step(c, ms[0]), ms[1..])
  }

  /** There is a disc to move, and it goes onto an empty peg or a larger disc. */
  predicate Allowed(c: Config, m: Move) {
    m.from != m.to && c[m.from] != [] && (c[m.to] == [] || c[m.from][0] < c[m.to][0])
  }

  /** Every move of the list obeys the rule when its turn comes. */
  predicate Legal(c: Config, ms: seq<Move>)
    decreases ms
  {
    ms == [] || (Allowed(c, ms[0]) && Legal(Step(c, ms[0]), ms[1..]))
  }

  /** The moves of the recursion of `towers_solve_h`. */
  function Moves(n: nat, s: Peg, t: Peg, d: Peg): (ms: seq<Move>)
    requires n >= 1
  {
    if n == 1 then [Move(s, d)] else Moves(n - 1, s, d, t) + [Move(s, d)] + Moves(n - 1, t, s, d)
  }

  lemma {:induction false} MoveCount(n: nat, s: Peg, t: Peg, d: Peg)
    requires n >= 1
    ensures |Moves(n, s, t, d)| == Pow2(n) - 1
  {
    if n > 1 {
      MoveCount(n - 1, s, d, t);
      MoveCount(n - 1, t, s, d);
    }
  }

  lemma {:induction false} RunAppend(c: Config, xs: seq<Move>, ys: seq<Move>)
    ensures Run(c, xs + ys) == Run(Run(c, xs), ys)
    ensures Legal(c, xs + ys) <==> Legal(c, xs) && Legal(Run(c, xs), ys)
    decreases xs
  {
    if xs == [] {
      assert xs + ys == ys;
    } else {
      assert (xs + ys)[1..] == xs[1..] + ys;
      RunAppend(Step(c, xs[0]), xs[1..], ys);
    }
  }

  /** The `n` top discs of peg `s` lie on peg `d` in the same order, all else is in place. */
  function Carried(c: Config, n: nat, s: Peg, d: Peg): Config
    requires n <= |c[s]| && s != d
  {
    c[s := c[s][n..]][d := c[s][..n] + c[d]]
  }

  /** The recursion carries the `n` top discs over, whatever their order. */
  lemma {:induction false} MovesCarry(c: Config, n: nat, s: Peg, t: Peg, d: Peg)
    requires 1 <= n <= |c[s]| && s != t && t != d && d != s
    ensures Run(c, Moves(n, s, t, d)) == Carried(c, n, s, d)
    decreases n
  {
    hide Step, Run;
    if n == 1 {
      CarryOne(c, s, d);
    } else {
      CarryTwice(c, n, s, t, d);
      hide Carried;
      MovesCarry(c, n - 1, s, d, t);
      var c1 := Carried(c, n - 1, s, t);
      var c2 := Step(c1, Move(s, d));
      MovesCarry(c2, n - 1, t, s, d);
      SplitMoves(c, n, s, t, d, c1, c2);
    }
  }

  lemma CarryOne(c: Config, s: Peg, d: Peg)
    requires c[s] != [] && s != d
    ensures Run(c, [Move(s, d)]) == Carried(c, 1, s, d)
    ensures Legal(c, [Move(s, d)]) <==> Allowed(c, Move(s, d))
  {
    assert [Move(s, d)][1..] == [];
    assert Run(c, [Move(s, d)]) == Step(c, Move(s, d));
    assert c[s][..1] == [c[s][0]];
  }

  lemma SplitMoves(c: Config, n: nat, s: Peg, t: Peg, d: Peg, c1: Config, c2: Config)
    requires n > 1 && c1 == Run(c, Moves(n - 1, s, d, t)) && c2 == Step(c1, Move(s, d))
    ensures Run(c, Moves(n, s, t, d)) == Run(c2, Moves(n - 1, t, s, d))
    ensures Legal(c, Moves(n, s, t, d)) <==>
              Legal(c, Moves(n - 1, s, d, t)) && Allowed(c1, Move(s, d)) && Legal(c2, Moves(n - 1, t, s, d))
  {
    var xs, y, zs := Moves(n - 1, s, d, t), [Move(s, d)], Moves(n - 1, t, s, d);
    RunAppend(c, xs + y, zs);
    RunAppend(c, xs, y);
    assert y[1..] == [];
    assert Run(c1, y) == c2;
  }

  lemma CarryTwice(c: Config, n: nat, s: Peg, t: Peg, d: Peg)
    requires 1 < n <= |c[s]| && s != t && t != d && d != s
    ensures var c2 := Step(Carried(c, n - 1, s, t), Move(s, d));
            |c2[t]| >= n - 1 && Carried(c2, n - 1, t, d) == Carried(c, n, s, d)
  {
    var c1 := Carried(c, n - 1, s, t);
    var c2 := Step(c1, Move(s, d));
    assert c1[s][0] == c[s][n - 1] && c1[s][1..] == c[s][n..];
    assert c2[t] == c[s][..n - 1] + c[t] && c2[d] == [c[s][n - 1]] + c[d] && c2[s] == c[s][n..];
    assert c2[t][..n - 1] == c[s][..n - 1] && c2[t][n - 1..] == c[t];
    assert c[s][..n - 1] + ([c[s][n - 1]] + c[d]) == c[s][..n] + c[d];
    assert Carried(c2, n - 1, t, d)[t] == c[t];
    var l, r := Carried(c2, n - 1, t, d), Carried(c, n, s, d);
    assert l[s] == r[s] && l[t] == r[t] && l[d] == r[d];
  }

  predicate Ascending(s: seq<int>) { forall i, j :: 0 <= i < j < |s| ==> s[i] < s[j] }

  /** The first `n` discs of `s` are smaller than those of `t`. */
  predicate Smaller(s: seq<int>, n: nat, t: seq<int>) {
    n <= |s| && forall i, j :: 0 <= i < n && 0 <= j < |t| ==> s[i] < t[j]
  }

  /** No disc lies on a smaller one, or on an equal one. */
  predicate Stacked(c: Config) { forall p: Peg :: Ascending(c[p]) }

  /** The `n` top discs of peg `s` are smaller than whatever lies on the other pegs. */
  predicate Ready(c: Config, n: nat, s: Peg, t: Peg, d: Peg) {
    Stacked(c) && Smaller(c[s], n, c[t]) && Smaller(c[s], n, c[d])
  }

  /** The recursion never puts a disc onto a smaller one. */
  lemma {:induction false} MovesLegal(c: Config, n: nat, s: Peg, t: Peg, d: Peg)
    requires n >= 1 && s != t && t != d && d != s && Ready(c, n, s, t, d)
    ensures Legal(c, Moves(n, s, t, d))
    decreases n
  {
    hide Step, Run, Legal, Ascending, Carried;
    SmallerFits(c, n, s, t, d);
    if n == 1 {
      CarryOne(c, s, d);
    } else {
      hide Smaller, Allowed;
      LastAllowed(c, n, s, t, d);
      ReadyAgain(c, n, s, t, d);
      var c1 := Carried(c, n - 1, s, t);
      var c2 := Step(c1, Move(s, d));
      ReadyFewer(c, n, s, t, d);
      MovesLegal(c, n - 1, s, d, t);
      MovesCarry(c, n - 1, s, d, t);
      MovesLegal(c2, n - 1, t, s, d);
      SplitMoves(c, n, s, t, d, c1, c2);
    }
  }

  lemma ReadyFewer(c: Config, n: nat, s: Peg, t: Peg, d: Peg)
    requires n > 1 && Ready(c, n, s, t, d)
    ensures Ready(c, n - 1, s, d, t)
  {
    hide Ascending;
  }

  lemma LastAllowed(c: Config, n: nat, s: Peg, t: Peg, d: Peg)
    requires n > 1 && s != t && t != d && d != s && Ready(c, n, s, t, d)
    ensures n <= |c[s]| && Allowed(Carried(c, n - 1, s, t), Move(s, d))
  {
    hide Ascending;
    assert Carried(c, n - 1, s, t)[s][0] == c[s][n - 1];
  }

  lemma ReadyAgain(c: Config, n: nat, s: Peg, t: Peg, d: Peg)
    requires n > 1 && s != t && t != d && d != s && Ready(c, n, s, t, d)
    ensures Ready(Step(Carried(c, n - 1, s, t), Move(s, d)), n - 1, t, s, d)
  {
    hide Ascending, Smaller;
    SmallerFits(c, n, s, t, d);
    var x, k := c[s][..n - 1], c[s][n - 1];
    assert c[s] == x + [k] + c[s][n..];
    CarriedPegs(c, n, s, t, d);
    hide Step, Carried;
    var c2 := Step(Carried(c, n - 1, s, t), Move(s, d));
    Moved(x, k, c[s][n..], c[t], c[d]);
    forall p: Peg ensures Ascending(c2[p]) { assert p == s || p == t || p == d; }
  }

  lemma SmallerFits(c: Config, n: nat, s: Peg, t: Peg, d: Peg)
    requires Ready(c, n, s, t, d)
    ensures n <= |c[s]|
  {
  }

  lemma CarriedPegs(c: Config, n: nat, s: Peg, t: Peg, d: Peg)
    requires 1 < n <= |c[s]| && s != t && t != d && d != s
    ensures var c2 := Step(Carried(c, n - 1, s, t), Move(s, d));
            c2[t] == c[s][..n - 1] + c[t] && c2[d] == [c[s][n - 1]] + c[d] && c2[s] == c[s][n..]
  {
    var c1 := Carried(c, n - 1, s, t);
    assert c1[s][0] == c[s][n - 1] && c1[s][1..] == c[s][n..];
  }

  /** Discs `x` over disc `k` over `rest`, taken apart. */
  lemma Moved(x: seq<int>, k: int, rest: seq<int>, t: seq<int>, d: seq<int>)
    requires var s := x + [k] + rest;
             Ascending(s) && Smaller(s, |x| + 1, t) && Smaller(s, |x| + 1, d) && Ascending(t) && Ascending(d)
    ensures Ascending(x + t) && Ascending([k] + d) && Ascending(rest)
    ensures Smaller(x + t, |x|, rest) && Smaller(x + t, |x|, [k] + d)
  {
    var s := x + [k] + rest;
    assert forall i :: 0 <= i < |x| ==> s[i] == x[i];
    assert s[|x|] == k;
    assert forall i :: 0 <= i < |rest| ==> s[|x| + 1 + i] == rest[i];
  }

  /** An allowed move leaves the pegs stacked; a forbidden one between filled pegs does not. */
  lemma AllowedStacked(c: Config, m: Move)
    requires Stacked(c) && m.from != m.to && c[m.from] != []
    ensures Allowed(c, m) <==> Stacked(Step(c, m))
  {
    var c' := Step(c, m);
    assert c'[m.to] == [c[m.from][0]] + c[m.to] && c'[m.from] == c[m.from][1..];
    assert c'[m.to][0] == c[m.from][0];
    if c[m.to] != [] { assert c'[m.to][1] == c[m.to][0]; }
    forall i, j | 0 <= i < j < |c'[m.to]| && Allowed(c, m) ensures c'[m.to][i] < c'[m.to][j] {
      assert c'[m.to][j] == c[m.to][j - 1];
      if i > 0 { assert c'[m.to][i] == c[m.to][i - 1]; }
    }
  }

  /** At every moment of a legal run the pegs are stacked. */
  lemma {:induction false} LegalStacked(c: Config, ms: seq<Move>, k: nat)
    requires Stacked(c) && Legal(c, ms) && k <= |ms|
    ensures Stacked(Run(c, ms[..k]))
    decreases k
  {
    if k > 0 {
      AllowedStacked(c, ms[0]);
      LegalStacked(Step(c, ms[0]), ms[1..], k - 1);
      assert ms[..k][1..] == ms[1..][..k - 1];
    }
  }
}
