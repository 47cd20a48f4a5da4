/** `benchmarks/mm/mm.c` and `rb.h`: c += a * b with register tiles, and with packed
    cache blocks for large matrices.  A C pointer is an array and an offset; element
    arithmetic is exact. */
module BlockedMatmul {
  import opened Arith
  import opened Matrix
  import opened MatView

  const RBM: nat := 4
  const RBN: nat := 5
  const RBK: nat := 6

  // --------------------------------------------------------------- specification

  /** `c` is `c0` with a * b added inside the window, and unchanged outside it. */
  ghost predicate Added(c0: seq<int>, c: seq<int>, a: View, b: View, p: nat, w: Win) {
    |c| == |c0| && forall x: nat :: x < |c| ==> c[x] == c0[x] + Add(a, b, p, w, x)
  }

  /** `x` is the position of some element of the window. */
  ghost predicate IsElement(w: Win, x: nat) { exists i: nat, j: nat :: i < w.m && j < w.n && x == w.At(i, j) }

  /** The same, element by element: each c[i, j] grows by row i of `a` times column j of `b`. */
  ghost predicate AddedElements(c0: seq<int>, c: seq<int>, a: View, b: View, p: nat, w: Win) {
    && |c| == |c0|
    && (forall i: nat, j: nat :: i < w.m && j < w.n && w.At(i, j) < |c| ==>
          c[w.At(i, j)] == c0[w.At(i, j)] + Dot(a.s, a.o + i * a.ld, b.s, b.o + j, b.ld, p))
    && (forall x: nat :: x < |c| && !IsElement(w, x) ==> c[x] == c0[x])
  }

  /** For a window whose rows do not overlap both descriptions say the same. */
  lemma AddedIsElementwise(c0: seq<int>, c: seq<int>, a: View, b: View, p: nat, w: Win)
    requires w.n <= w.ld
    ensures Added(c0, c, a, b, p, w) <==> AddedElements(c0, c, a, b, p, w)
  {
    hide Dot, Quot, Rem;
    forall x: nat ensures IsElement(w, x) <==> w.Has(x) { ElementHas(w, x); }
    forall i: nat, j: nat | i < w.m && j < w.n
      ensures w.Has(w.At(i, j)) && w.Row(w.At(i, j)) == i && w.Col(w.At(i, j)) == j
    {
      WinAt(w, i, j);
    }
    if AddedElements(c0, c, a, b, p, w) {
      forall x: nat | x < |c| ensures c[x] == c0[x] + Add(a, b, p, w, x) {
        if w.Has(x) { WinOf(w, x); }
      }
    }
  }

  lemma ElementHas(w: Win, x: nat)
    requires w.n <= w.ld
    ensures IsElement(w, x) <==> w.Has(x)
  {
    hide Quot, Rem;
    if IsElement(w, x) {
      var i: nat, j: nat :| i < w.m && j < w.n && x == w.At(i, j);
      WinAt(w, i, j);
    }
    if w.Has(x) { WinOf(w, x); }
  }

  lemma AddedNothing(c: seq<int>, a: View, b: View, p: nat, w: Win)
    requires w.m == 0 || w.n == 0 || p == 0
    ensures Added(c, c, a, b, p, w)
  {
    forall x: nat | x < |c| ensures Add(a, b, p, w, x) == 0 { AddNothing(a, b, p, w, x); }
    hide Add;
  }

  lemma AddedRows(c0: seq<int>, c1: seq<int>, c2: seq<int>, a: View, b: View, p: nat, w: Win, m1: nat, m2: nat)
    requires w.m == m1 + m2
    requires Added(c0, c1, a, b, p, w.Rows(m1)) && Added(c1, c2, a.Down(m1), b, p, w.Down(m1, m2))
    ensures Added(c0, c2, a, b, p, w)
  {
    hide Add;
    forall x: nat | x < |c2| ensures c2[x] == c0[x] + Add(a, b, p, w, x) {
      AddRows(a, b, p, w, m1, m2, x);
    }
  }

  lemma AddedCols(c0: seq<int>, c1: seq<int>, c2: seq<int>, a: View, b: View, p: nat, w: Win, n1: nat, n2: nat)
    requires w.n == n1 + n2 <= w.ld
    requires Added(c0, c1, a, b, p, w.Cols(n1)) && Added(c1, c2, a, b.Right(n1), p, w.Right(n1, n2))
    ensures Added(c0, c2, a, b, p, w)
  {
    hide Add;
    forall x: nat | x < |c2| ensures c2[x] == c0[x] + Add(a, b, p, w, x) {
      AddCols(a, b, p, w, n1, n2, x);
    }
  }

  lemma AddedInner(c0: seq<int>, c1: seq<int>, c2: seq<int>, a: View, b: View, p1: nat, p2: nat, w: Win)
    requires Added(c0, c1, a, b, p1, w) && Added(c1, c2, a.Right(p1), b.Down(p1), p2, w)
    ensures Added(c0, c2, a, b, p1 + p2, w)
  {
    hide Add;
    forall x: nat | x < |c2| ensures c2[x] == c0[x] + Add(a, b, p1 + p2, w, x) {
      AddInner(a, b, p1, p2, w, x);
    }
  }

  /** The same three with the parts added in the other order. */
  lemma AddedRowsBack(c0: seq<int>, c1: seq<int>, c2: seq<int>, a: View, b: View, p: nat, w: Win, m1: nat, m2: nat)
    requires w.m == m1 + m2
    requires Added(c0, c1, a.Down(m1), b, p, w.Down(m1, m2)) && Added(c1, c2, a, b, p, w.Rows(m1))
    ensures Added(c0, c2, a, b, p, w)
  {
    hide Add;
    forall x: nat | x < |c2| ensures c2[x] == c0[x] + Add(a, b, p, w, x) {
      AddRows(a, b, p, w, m1, m2, x);
    }
  }

  lemma AddedColsBack(c0: seq<int>, c1: seq<int>, c2: seq<int>, a: View, b: View, p: nat, w: Win, n1: nat, n2: nat)
    requires w.n == n1 + n2 <= w.ld
    requires Added(c0, c1, a, b.Right(n1), p, w.Right(n1, n2)) && Added(c1, c2, a, b, p, w.Cols(n1))
    ensures Added(c0, c2, a, b, p, w)
  {
    hide Add;
    forall x: nat | x < |c2| ensures c2[x] == c0[x] + Add(a, b, p, w, x) {
      AddCols(a, b, p, w, n1, n2, x);
    }
  }

  lemma AddedInnerBack(c0: seq<int>, c1: seq<int>, c2: seq<int>, a: View, b: View, p1: nat, p2: nat, w: Win)
    requires Added(c0, c1, a.Right(p1), b.Down(p1), p2, w) && Added(c1, c2, a, b, p1, w)
    ensures Added(c0, c2, a, b, p1 + p2, w)
  {
    hide Add;
    forall x: nat | x < |c2| ensures c2[x] == c0[x] + Add(a, b, p1 + p2, w, x) {
      AddInner(a, b, p1, p2, w, x);
    }
  }

  // ----------------------------------------------------------------------- naive

  /** The three operands as the callers of a multiply must pass them. */
  ghost predicate Operands(a: array<int>, ao: nat, lda: nat, b: array<int>, bo: nat, ldb: nat,
                           c: array<int>, co: nat, ldc: nat, m: nat, n: nat, p: nat) {
    && a != c && b != c && n <= ldc
    && Fits(a.Length, ao, lda, m, p) && Fits(b.Length, bo, ldb, p, n) && Fits(c.Length, co, ldc, m, n)
  }

  /** Four partial sums over k, and the rest of k in the first of them. */
  method InnerProduct(p: nat, a: array<int>, ao: nat, b: array<int>, bo: nat, ldb: nat, s: int) returns (r: int)
    requires Fits(a.Length, ao, 0, 1, p) && Fits(b.Length, bo, ldb, p, 1)
    ensures r == s + Dot(a[..], ao, b[..], bo, ldb, p)
  {
    hide Dot, Fits;
    ghost var as_, bs := a[..], b[..];
    var s0, s1, s2, s3 := s, 0, 0, 0;
    DotZero(as_, ao, bs, bo, ldb);
    var k := 0;
    while k < p / 4 * 4
      invariant k <= p && k % 4 == 0
      invariant s0 + s1 + s2 + s3 == s + Dot(as_, ao, bs, bo, ldb, k)
    {
      s0, s1, s2, s3 := FourMore(a, ao + k, b, bo, ldb, k, s0, s1, s2, s3, ao, p);
      k := k + 4;
    }
    while k < p
      invariant k <= p
      invariant s0 + s1 + s2 + s3 == s + Dot(as_, ao, bs, bo, ldb, k)
    {
      s0 := OneMore(a, ao + k, b, bo, ldb, k, s0, ao, p);
      k := k + 1;
    }
    r := (s0 + s1) + (s2 + s3);
  }

  lemma DotZero(a: seq<int>, ao: int, b: seq<int>, bo: int, ldb: int)
    ensures Dot(a, ao, b, bo, ldb, 0) == 0
  {
  }

  method OneMore(a: array<int>, ak: nat, b: array<int>, bo: nat, ldb: nat, k: nat, t: int,
                 ghost ao: nat, ghost p: nat)
    returns (s: int)
    requires ak == ao + k && k < p
    requires Fits(a.Length, ao, 0, 1, p) && Fits(b.Length, bo, ldb, p, 1)
    ensures s - Dot(a[..], ao, b[..], bo, ldb, k + 1) == t - Dot(a[..], ao, b[..], bo, ldb, k)
  {
    FitsAt(b.Length, bo, ldb, p, 1, k, 0);
    DotStep(a[..], ao, b[..], bo, ldb, k);
    hide Dot;
    s := a[ak] * b[bo + k * ldb] + t;
  }

  method FourMore(a: array<int>, ak: nat, b: array<int>, bo: nat, ldb: nat, k: nat,
                  t0: int, t1: int, t2: int, t3: int, ghost ao: nat, ghost p: nat)
    returns (s0: int, s1: int, s2: int, s3: int)
    requires ak == ao + k && k + 4 <= p
    requires Fits(a.Length, ao, 0, 1, p) && Fits(b.Length, bo, ldb, p, 1)
    ensures s0 + s1 + s2 + s3 - Dot(a[..], ao, b[..], bo, ldb, k + 4)
         == t0 + t1 + t2 + t3 - Dot(a[..], ao, b[..], bo, ldb, k)
  {
    FourTerms(a[..], ao, b[..], bo, ldb, k);
    FitsAt(b.Length, bo, ldb, p, 1, k + 3, 0);
    FourBelow(b.Length, bo, ldb, k);
    hide Dot;
    s0 := a[ak] * b[bo + k * ldb] + t0;
    s1 := a[ak + 1] * b[bo + (k + 1) * ldb] + t1;
    s2 := a[ak + 2] * b[bo + (k + 2) * ldb] + t2;
    s3 := a[ak + 3] * b[bo + (k + 3) * ldb] + t3;
  }

  method NaiveElement(p: nat, a: array<int>, ao: nat, b: array<int>, bo: nat, ldb: nat, c: array<int>, ci: nat)
    requires a != c && b != c && ci < c.Length
    requires Fits(a.Length, ao, 0, 1, p) && Fits(b.Length, bo, ldb, p, 1)
    modifies c
    ensures c[..] == old(c[..])[ci := old(c[ci]) + Dot(a[..], ao, b[..], bo, ldb, p)]
  {
    hide Dot;
    ghost var as_, bs := a[..], b[..];
    c[ci] := InnerProduct(p, a, ao, b, bo, ldb, c[ci]);
    assert a[..] == as_ && b[..] == bs;
  }

  lemma FourTerms(a: seq<int>, ao: int, b: seq<int>, bo: int, ldb: int, k: nat)
    ensures Dot(a, ao, b, bo, ldb, k + 4) == Dot(a, ao, b, bo, ldb, k)
            + At(a, ao + k) * At(b, bo + k * ldb)
            + At(a, ao + k + 1) * At(b, bo + (k + 1) * ldb)
            + At(a, ao + k + 2) * At(b, bo + (k + 2) * ldb)
            + At(a, ao + k + 3) * At(b, bo + (k + 3) * ldb)
  {
    assert Dot(a, ao, b, bo, ldb, k + 2) == Dot(a, ao, b, bo, ldb, k)
           + At(a, ao + k) * At(b, bo + k * ldb) + At(a, ao + k + 1) * At(b, bo + (k + 1) * ldb);
  }

  lemma FourBelow(len: nat, bo: nat, ldb: nat, k: nat)
    requires bo + (k + 3) * ldb < len
    ensures bo + k * ldb < len && bo + (k + 1) * ldb < len && bo + (k + 2) * ldb < len
  {
    MulMono(k, k + 3, ldb);
    MulMono(k + 1, k + 3, ldb);
    MulMono(k + 2, k + 3, ldb);
  }

  lemma ElementAdded(c0: seq<int>, ci: nat, a: View, b: View, p: nat, ld: nat)
    requires ci < |c0| && ld > 0
    ensures Added(c0, c0[ci := c0[ci] + Dot(a.s, a.o, b.s, b.o, b.ld, p)], a, b, p, Win(ci, ld, 1, 1))
  {
    forall x: nat | x < |c0|
      ensures Add(a, b, p, Win(ci, ld, 1, 1), x) == if x == ci then Dot(a.s, a.o, b.s, b.o, b.ld, p) else 0
    {
      AddOne(a, b, p, Win(ci, ld, 1, 1), x);
    }
    hide Add, Dot;
  }

  /** The plain multiply. */
  method Naive(m: nat, n: nat, p: nat, a: array<int>, ao: nat, lda: nat,
               b: array<int>, bo: nat, ldb: nat, c: array<int>, co: nat, ldc: nat)
    requires Operands(a, ao, lda, b, bo, ldb, c, co, ldc, m, n, p)
    modifies c
    ensures Added(old(c[..]), c[..], View(a[..], ao, lda), View(b[..], bo, ldb), p, Win(co, ldc, m, n))
  {
    hide Added, Dot;
    ghost var av, bv, w := View(a[..], ao, lda), View(b[..], bo, ldb), Win(co, ldc, m, n);
    ghost var c0 := c[..];
    AddedNothing(c0, av, bv, p, w.Rows(0));
    for i := 0 to m
      invariant Added(c0, c[..], av, bv, p, w.Rows(i))
    {
      ghost var ci := c[..];
      NaiveRow(i, m, n, p, a, ao, lda, b, bo, ldb, c, co, ldc);
      AddedRows(c0, ci, c[..], av, bv, p, w.Rows(i + 1), i, 1);
    }
  }

  method NaiveRow(i: nat, m: nat, n: nat, p: nat, a: array<int>, ao: nat, lda: nat,
                  b: array<int>, bo: nat, ldb: nat, c: array<int>, co: nat, ldc: nat)
    requires Operands(a, ao, lda, b, bo, ldb, c, co, ldc, m, n, p) && i < m
    modifies c
    ensures Added(old(c[..]), c[..], View(a[..], ao, lda).Down(i), View(b[..], bo, ldb), p,
                  Win(co, ldc, m, n).Down(i, 1))
  {
    hide Added, Dot;
    ghost var av, bv, w := View(a[..], ao, lda).Down(i), View(b[..], bo, ldb), Win(co, ldc, m, n).Down(i, 1);
    ghost var c0 := c[..];
    AddedNothing(c0, av, bv, p, w.Cols(0));
    FitsSub(a.Length, ao, lda, m, p, i, 0, 1, p);
    for j := 0 to n
      invariant Added(c0, c[..], av, bv, p, w.Cols(j))
    {
      FitsAt(c.Length, co, ldc, m, n, i, j);
      FitsSub(b.Length, bo, ldb, p, n, 0, j, p, 1);
      ghost var cj := c[..];
      NaiveElement(p, a, ao + i * lda, b, bo + j, ldb, c, co + i * ldc + j);
      ElementAdded(cj, co + i * ldc + j, av, bv.Right(j), p, ldc);
      AddedCols(c0, cj, c[..], av, bv, p, w.Cols(j + 1), j, 1);
    }
  }

  // --------------------------------------------------------------- register tile

  /** The 4 x 5 accumulators before term `k`: number 5i + j belongs to element (i, j). */
  ghost predicate TileAcc(acc: seq<int>, c0: seq<int>, a: View, b: View, w: Win, k: nat) {
    |acc| == RBM * RBN && forall t :: 0 <= t < RBM * RBN ==>
      acc[t] == At(c0, w.At(t / RBN, t % RBN))
              + Dot(a.s, a.o + t / RBN * a.ld, b.s, b.o + t % RBN, b.ld, k)
  }

  method LoadTile(c: array<int>, co: nat, ldc: nat, ghost a: View, ghost b: View) returns (acc: seq<int>)
    requires Fits(c.Length, co, ldc, RBM, RBN)
    ensures TileAcc(acc, c[..], a, b, Win(co, ldc, RBM, RBN), 0)
  {
    acc := [];
    for t := 0 to RBM * RBN
      invariant |acc| == t
      invariant forall u :: 0 <= u < t ==> acc[u] == At(c[..], Win(co, ldc, RBM, RBN).At(u / RBN, u % RBN))
    {
      FitsAt(c.Length, co, ldc, RBM, RBN, t / RBN, t % RBN);
      acc := acc + [c[co + t / RBN * ldc + t % RBN]];
    }
  }

  /** One term of all twenty accumulators: a column of four times a row of five. */
  method RankOne(acc: seq<int>, a: array<int>, ai: nat, lda: nat, b: array<int>, bi: nat) returns (r: seq<int>)
    requires |acc| == RBM * RBN && Fits(a.Length, ai, lda, RBM, 1) && Fits(b.Length, bi, 0, 1, RBN)
    ensures |r| == RBM * RBN
    ensures forall t :: 0 <= t < RBM * RBN ==>
              r[t] == At(a[..], ai + t / RBN * lda) * At(b[..], bi + t % RBN) + acc[t]
  {
    r := [];
    for t := 0 to RBM * RBN
      invariant |r| == t
      invariant forall u :: 0 <= u < t ==>
                  r[u] == At(a[..], ai + u / RBN * lda) * At(b[..], bi + u % RBN) + acc[u]
    {
      FitsAt(a.Length, ai, lda, RBM, 1, t / RBN, 0);
      r := r + [a[ai + t / RBN * lda] * b[bi + t % RBN] + acc[t]];
    }
  }

  lemma RankStep(acc: seq<int>, r: seq<int>, c0: seq<int>, a: View, b: View, w: Win, k: nat)
    requires TileAcc(acc, c0, a, b, w, k) && |r| == RBM * RBN
    requires forall t :: 0 <= t < RBM * RBN ==>
               r[t] == At(a.s, a.o + k + t / RBN * a.ld) * At(b.s, b.o + k * b.ld + t % RBN) + acc[t]
    ensures TileAcc(r, c0, a, b, w, k + 1)
  {
    hide At, Win.At;
    forall t | 0 <= t < RBM * RBN
      ensures r[t] == At(c0, w.At(t / RBN, t % RBN))
                    + Dot(a.s, a.o + t / RBN * a.ld, b.s, b.o + t % RBN, b.ld, k + 1)
    {
      DotStep(a.s, a.o + t / RBN * a.ld, b.s, b.o + t % RBN, b.ld, k);
    }
  }

  lemma DotStep(a: seq<int>, ao: int, b: seq<int>, bo: int, ldb: int, k: nat)
    ensures Dot(a, ao, b, bo, ldb, k + 1) == Dot(a, ao, b, bo, ldb, k) + At(a, ao + k) * At(b, bo + k * ldb)
  {
  }

  /** Term `k` of the tile. */
  method TileTerm(acc: seq<int>, a: array<int>, ai: nat, ghost ao: nat, lda: nat,
                  b: array<int>, bi: nat, ghost bo: nat, ghost ldb: nat, ghost c0: seq<int>, ghost w: Win,
                  ghost k: nat, ghost p: nat)
    returns (r: seq<int>)
    requires k < p && ai == ao + k && bi == bo + k * ldb
    requires Fits(a.Length, ao, lda, RBM, p) && Fits(b.Length, bo, ldb, p, RBN)
    requires TileAcc(acc, c0, View(a[..], ao, lda), View(b[..], bo, ldb), w, k)
    ensures TileAcc(r, c0, View(a[..], ao, lda), View(b[..], bo, ldb), w, k + 1)
  {
    hide Dot;
    FitsSub(a.Length, ao, lda, RBM, p, 0, k, RBM, 1);
    FitsSub(b.Length, bo, ldb, p, RBN, k, 0, 1, RBN);
    r := RankOne(acc, a, ai, lda, b, bi);
    RankStep(acc, r, c0, View(a[..], ao, lda), View(b[..], bo, ldb), w, k);
  }

  /** Six terms, as the unrolled loop takes them. */
  method SixTerms(acc0: seq<int>, a: array<int>, ai: nat, ghost ao: nat, lda: nat,
                  b: array<int>, bi: nat, ghost bo: nat, ldb: nat, ghost c0: seq<int>, ghost w: Win,
                  ghost k: nat, ghost p: nat)
    returns (acc: seq<int>)
    requires k + RBK <= p && ai == ao + k && bi == bo + k * ldb
    requires Fits(a.Length, ao, lda, RBM, p) && Fits(b.Length, bo, ldb, p, RBN)
    requires TileAcc(acc0, c0, View(a[..], ao, lda), View(b[..], bo, ldb), w, k)
    ensures TileAcc(acc, c0, View(a[..], ao, lda), View(b[..], bo, ldb), w, k + RBK)
  {
    hide TileAcc, Fits;
    acc := TileTerm(acc0, a, ai, ao, lda, b, bi, bo, ldb, c0, w, k, p);
    acc := TileTerm(acc, a, ai + 1, ao, lda, b, bi + ldb * 1, bo, ldb, c0, w, k + 1, p);
    acc := TileTerm(acc, a, ai + 2, ao, lda, b, bi + ldb * 2, bo, ldb, c0, w, k + 2, p);
    acc := TileTerm(acc, a, ai + 3, ao, lda, b, bi + ldb * 3, bo, ldb, c0, w, k + 3, p);
    acc := TileTerm(acc, a, ai + 4, ao, lda, b, bi + ldb * 4, bo, ldb, c0, w, k + 4, p);
    acc := TileTerm(acc, a, ai + 5, ao, lda, b, bi + ldb * 5, bo, ldb, c0, w, k + 5, p);
  }

  /** Stores the accumulators. */
  method StoreTile(acc: seq<int>, c: array<int>, co: nat, ldc: nat)
    requires |acc| == RBM * RBN && RBN <= ldc && Fits(c.Length, co, ldc, RBM, RBN)
    modifies c
    ensures Stored(old(c[..]), c[..], acc, Win(co, ldc, RBM, RBN), RBM * RBN)
  {
    ghost var c0, w := c[..], Win(co, ldc, RBM, RBN);
    assert Stored(c0, c[..], acc, w, 0);
    hide Stored;
    for t := 0 to RBM * RBN
      invariant Stored(c0, c[..], acc, w, t)
    {
      FitsAt(c.Length, co, ldc, RBM, RBN, t / RBN, t % RBN);
      StoreStep(c0, c[..], acc, w, t);
      c[co + t / RBN * ldc + t % RBN] := acc[t];
    }
  }

  /** The first `t` accumulators have been stored. */
  ghost predicate Stored(c0: seq<int>, c: seq<int>, acc: seq<int>, w: Win, t: nat) {
    |c| == |c0| && |acc| == RBM * RBN && w.m == RBM && w.n == RBN <= w.ld && t <= RBM * RBN &&
    forall x: nat :: x < |c| ==>
      c[x] == if w.Has(x) && w.Row(x) * RBN + w.Col(x) < t then acc[w.Row(x) * RBN + w.Col(x)] else c0[x]
  }

  lemma StoreStep(c0: seq<int>, c: seq<int>, acc: seq<int>, w: Win, t: nat)
    requires Stored(c0, c, acc, w, t) && t < RBM * RBN && w.At(t / RBN, t % RBN) < |c|
    ensures Stored(c0, c[w.At(t / RBN, t % RBN) := acc[t]], acc, w, t + 1)
  {
    var i, j := t / RBN, t % RBN;
    WinAt(w, i, j);
    forall x: nat | x < |c| && w.Has(x) && w.Row(x) * RBN + w.Col(x) == t ensures x == w.At(i, j) {
      WinOf(w, x);
      DivModUnique(t, RBN, w.Row(x), w.Col(x));
    }
    hide Win.Has, Win.Row, Win.Col, Win.At;
  }

  lemma TileAdded(c0: seq<int>, c: seq<int>, acc: seq<int>, a: View, b: View, w: Win, p: nat)
    requires TileAcc(acc, c0, a, b, w, p) && Stored(c0, c, acc, w, RBM * RBN)
    ensures Added(c0, c, a, b, p, w)
  {
    hide Add, TileAcc, Win.Has, Win.Row, Win.Col;
    forall x: nat | x < |c| ensures c[x] == c0[x] + Add(a, b, p, w, x) {
      TileElement(c0, c, acc, a, b, w, p, x);
    }
  }

  lemma TileElement(c0: seq<int>, c: seq<int>, acc: seq<int>, a: View, b: View, w: Win, p: nat, x: nat)
    requires TileAcc(acc, c0, a, b, w, p) && Stored(c0, c, acc, w, RBM * RBN) && x < |c|
    ensures c[x] == c0[x] + Add(a, b, p, w, x)
  {
    hide Dot;
    if w.Has(x) {
      WinOf(w, x);
      var t := w.Row(x) * RBN + w.Col(x);
      DivModUnique(t, RBN, w.Row(x), w.Col(x));
    }
  }

  /** The register-tile kernel. */
  method Kloop(p: nat, a: array<int>, ao: nat, lda: nat, b: array<int>, bo: nat, ldb: nat,
               c: array<int>, co: nat, ldc: nat)
    requires Operands(a, ao, lda, b, bo, ldb, c, co, ldc, RBM, RBN, p)
    modifies c
    ensures Added(old(c[..]), c[..], View(a[..], ao, lda), View(b[..], bo, ldb), p, Win(co, ldc, RBM, RBN))
  {
    hide TileAcc, Added, Stored, Fits;
    ghost var av, bv, w := View(a[..], ao, lda), View(b[..], bo, ldb), Win(co, ldc, RBM, RBN);
    ghost var c0 := c[..];
    var acc := LoadTile(c, co, ldc, av, bv);
    var ai, bi := ao, bo;
    ghost var k := 0;
    while ai < ao + p / RBK * RBK
      invariant k <= p && k % RBK == 0 && ai == ao + k && bi == bo + k * ldb && c[..] == c0
      invariant TileAcc(acc, c0, av, bv, w, k)
    {
      acc := SixTerms(acc, a, ai, ao, lda, b, bi, bo, ldb, c0, w, k, p);
      ai := ai + RBK;
      bi := bi + RBK * ldb;
      k := k + RBK;
    }
    while ai < ao + p
      invariant k <= p && ai == ao + k && bi == bo + k * ldb && c[..] == c0
      invariant TileAcc(acc, c0, av, bv, w, k)
    {
      acc := TileTerm(acc, a, ai, ao, lda, b, bi, bo, ldb, c0, w, k, p);
      ai := ai + 1;
      bi := bi + ldb;
      k := k + 1;
    }
    TileSize(acc, c0, av, bv, w, k);
    StoreTile(acc, c, co, ldc);
    TileAdded(c0, c[..], acc, av, bv, w, p);
  }

  lemma TileSize(acc: seq<int>, c0: seq<int>, a: View, b: View, w: Win, k: nat)
    requires TileAcc(acc, c0, a, b, w, k)
    ensures |acc| == RBM * RBN
  {
  }

  // ----------------------------------------------------------- register blocking

  /** The tiles of four rows, up to column `nb`. */
  method RbTiles(i: nat, m: nat, n: nat, nb: nat, p: nat, a: array<int>, ao: nat, lda: nat,
                 b: array<int>, bo: nat, ldb: nat, c: array<int>, co: nat, ldc: nat)
    requires Operands(a, ao, lda, b, bo, ldb, c, co, ldc, m, n, p) && i + RBM <= m && nb <= n && nb % RBN == 0
    modifies c
    ensures Added(old(c[..]), c[..], View(a[..], ao, lda).Down(i), View(b[..], bo, ldb), p,
                  Win(co, ldc, m, n).Down(i, RBM).Cols(nb))
  {
    hide Added, Fits;
    ghost var av, bv, w := View(a[..], ao, lda).Down(i), View(b[..], bo, ldb), Win(co, ldc, m, n).Down(i, RBM);
    ghost var c0 := c[..];
    AddedNothing(c0, av, bv, p, w.Cols(0));
    FitsSub(a.Length, ao, lda, m, p, i, 0, RBM, p);
    var j := 0;
    while j < nb
      invariant j <= nb && j % RBN == 0
      invariant Added(c0, c[..], av, bv, p, w.Cols(j))
    {
      FitsSub(b.Length, bo, ldb, p, n, 0, j, p, RBN);
      FitsSub(c.Length, co, ldc, m, n, i, j, RBM, RBN);
      ghost var cj := c[..];
      Kloop(p, a, ao + i * lda, lda, b, bo + j, ldb, c, co + i * ldc + j, ldc);
      AddedCols(c0, cj, c[..], av, bv, p, w.Cols(j + RBN), j, RBN);
      j := j + RBN;
    }
  }

  /** Four rows: tiles of five columns, and the columns left over. */
  method RbRows(i: nat, m: nat, n: nat, p: nat, a: array<int>, ao: nat, lda: nat,
                b: array<int>, bo: nat, ldb: nat, c: array<int>, co: nat, ldc: nat)
    requires Operands(a, ao, lda, b, bo, ldb, c, co, ldc, m, n, p) && i + RBM <= m
    modifies c
    ensures Added(old(c[..]), c[..], View(a[..], ao, lda).Down(i), View(b[..], bo, ldb), p,
                  Win(co, ldc, m, n).Down(i, RBM))
  {
    hide Added, Fits;
    ghost var av, bv, w := View(a[..], ao, lda).Down(i), View(b[..], bo, ldb), Win(co, ldc, m, n).Down(i, RBM);
    ghost var c0 := c[..];
    var nb := n / RBN * RBN;
    RbTiles(i, m, n, nb, p, a, ao, lda, b, bo, ldb, c, co, ldc);
    FitsSub(a.Length, ao, lda, m, p, i, 0, RBM, p);
    FitsSub(b.Length, bo, ldb, p, n, 0, nb, p, n - nb);
    FitsSub(c.Length, co, ldc, m, n, i, nb, RBM, n - nb);
    ghost var cn := c[..];
    Naive(RBM, n - nb, p, a, ao + i * lda, lda, b, bo + nb, ldb, c, co + i * ldc + nb, ldc);
    AddedCols(c0, cn, c[..], av, bv, p, w, nb, n - nb);
  }

  /** The multiply with register tiles. */
  method Rb(m: nat, n: nat, p: nat, a: array<int>, ao: nat, lda: nat,
            b: array<int>, bo: nat, ldb: nat, c: array<int>, co: nat, ldc: nat)
    requires Operands(a, ao, lda, b, bo, ldb, c, co, ldc, m, n, p)
    modifies c
    ensures Added(old(c[..]), c[..], View(a[..], ao, lda), View(b[..], bo, ldb), p, Win(co, ldc, m, n))
  {
    hide Added, Fits;
    ghost var av, bv, w := View(a[..], ao, lda), View(b[..], bo, ldb), Win(co, ldc, m, n);
    ghost var c0 := c[..];
    var mb := m / RBM * RBM;
    WholeGroups(m);
    AddedNothing(c0, av, bv, p, w.Rows(0));
    var i := 0;
    while i < mb
      invariant i <= mb && i % RBM == 0
      invariant Added(c0, c[..], av, bv, p, w.Rows(i))
    {
      ghost var ci := c[..];
      GroupLeft(i, mb);
      RbRows(i, m, n, p, a, ao, lda, b, bo, ldb, c, co, ldc);
      AddedRows(c0, ci, c[..], av, bv, p, w.Rows(i + RBM), i, RBM);
      i := i + RBM;
    }
    ghost var cm := c[..];
    RbRest(mb, m, n, p, a, ao, lda, b, bo, ldb, c, co, ldc);
    AddedRows(c0, cm, c[..], av, bv, p, w, mb, m - mb);
  }

  /** The rows below the last group of four. */
  method RbRest(mb: nat, m: nat, n: nat, p: nat, a: array<int>, ao: nat, lda: nat,
                b: array<int>, bo: nat, ldb: nat, c: array<int>, co: nat, ldc: nat)
    requires Operands(a, ao, lda, b, bo, ldb, c, co, ldc, m, n, p) && mb <= m
    modifies c
    ensures Added(old(c[..]), c[..], View(a[..], ao, lda).Down(mb), View(b[..], bo, ldb), p,
                  Win(co, ldc, m, n).Down(mb, m - mb))
  {
    hide Added, Fits;
    FitsSub(a.Length, ao, lda, m, p, mb, 0, m - mb, p);
    FitsSub(c.Length, co, ldc, m, n, mb, 0, m - mb, n);
    Naive(m - mb, n, p, a, ao + mb * lda, lda, b, bo, ldb, c, co + mb * ldc, ldc);
  }

  lemma WholeGroups(m: nat)
    ensures m / RBM * RBM <= m && m / RBM * RBM % RBM == 0
  {
  }

  lemma GroupLeft(i: nat, mb: nat)
    requires i < mb && i % RBM == 0 && mb % RBM == 0
    ensures i + RBM <= mb && (i + RBM) % RBM == 0
  {
  }

  // --------------------------------------------------------------------- packing

  /** Element `x` of the destination has been copied: its row is before `i`, or it is
      row `i` and its column before `j`. */
  predicate Reached(w: Win, x: nat, i: nat, j: nat) {
    w.Has(x) && (w.Row(x) < i || (w.Row(x) == i && w.Col(x) < j))
  }

  /** The elements reached are those of `src`, the others as before. */
  ghost predicate Copied(t0: seq<int>, t: seq<int>, src: View, w: Win, i: nat, j: nat) {
    |t| == |t0| && forall x: nat :: x < |t| ==>
      t[x] == if Reached(w, x, i, j) then src.Get(w.Row(x), w.Col(x)) else t0[x]
  }

  lemma CopyStep(t0: seq<int>, t: seq<int>, src: View, w: Win, i: nat, j: nat)
    requires Copied(t0, t, src, w, i, j) && i < w.m && j < w.n <= w.ld && w.At(i, j) < |t|
    ensures Copied(t0, t[w.At(i, j) := src.Get(i, j)], src, w, i, j + 1)
  {
    WinAt(w, i, j);
    forall x: nat | x < |t| && w.Has(x) && w.Row(x) == i && w.Col(x) == j ensures x == w.At(i, j) {
      WinOf(w, x);
    }
    hide Win.Has, Win.Row, Win.Col, Win.At, View.Get;
  }

  lemma CopyNextRow(t0: seq<int>, t: seq<int>, src: View, w: Win, i: nat)
    requires Copied(t0, t, src, w, i, w.n)
    ensures Copied(t0, t, src, w, i + 1, 0)
  {
    hide Win.Row, Win.Col, View.Get;
  }

  lemma CopyNothing(t: seq<int>, src: View, w: Win)
    ensures Copied(t, t, src, w, 0, 0)
  {
  }

  method CopyElement(a: array<int>, ao: nat, lda: nat, a0: array<int>, ao0: nat, lda0: nat,
                     i: nat, j: nat, m: nat, p: nat, ghost t0: seq<int>)
    requires a != a0 && i < m && j < p <= lda
    requires Fits(a.Length, ao, lda, m, p) && Fits(a0.Length, ao0, lda0, m, p)
    requires Copied(t0, a[..], View(a0[..], ao0, lda0), Win(ao, lda, m, p), i, j)
    modifies a
    ensures Copied(t0, a[..], View(a0[..], ao0, lda0), Win(ao, lda, m, p), i, j + 1)
  {
    hide Copied;
    FitsAt(a.Length, ao, lda, m, p, i, j);
    FitsAt(a0.Length, ao0, lda0, m, p, i, j);
    CopySize(t0, a[..], View(a0[..], ao0, lda0), Win(ao, lda, m, p), i, j);
    CopyStep(t0, a[..], View(a0[..], ao0, lda0), Win(ao, lda, m, p), i, j);
    ghost var src := a0[..];
    a[ao + i * lda + j] := a0[ao0 + i * lda0 + j];
    assert a0[..] == src;
  }

  lemma CopySize(t0: seq<int>, t: seq<int>, src: View, w: Win, i: nat, j: nat)
    requires Copied(t0, t, src, w, i, j)
    ensures |t| == |t0|
  {
  }

  /** Copies an m x p matrix, eight elements of a row at a time. */
  method Repack(a: array<int>, ao: nat, lda: nat, a0: array<int>, ao0: nat, lda0: nat, m: nat, p: nat)
    requires a != a0 && p <= lda
    requires Fits(a.Length, ao, lda, m, p) && Fits(a0.Length, ao0, lda0, m, p)
    modifies a
    ensures Copied(old(a[..]), a[..], View(a0[..], ao0, lda0), Win(ao, lda, m, p), m, 0)
  {
    hide Copied, Fits;
    ghost var t0, src, w := a[..], View(a0[..], ao0, lda0), Win(ao, lda, m, p);
    CopyNothing(t0, src, w);
    for i := 0 to m
      invariant Copied(t0, a[..], src, w, i, 0) && a0[..] == src.s
    {
      var j := 0;
      while j < p / 8 * 8
        invariant j <= p && j % 8 == 0
        invariant Copied(t0, a[..], src, w, i, j) && a0[..] == src.s
      {
        for u := 0 to 8
          invariant Copied(t0, a[..], src, w, i, j + u) && a0[..] == src.s
        {
          CopyElement(a, ao, lda, a0, ao0, lda0, i, j + u, m, p, t0);
        }
        j := j + 8;
      }
      while j < p
        invariant j <= p
        invariant Copied(t0, a[..], src, w, i, j) && a0[..] == src.s
      {
        CopyElement(a, ao, lda, a0, ao0, lda0, i, j, m, p, t0);
        j := j + 1;
      }
      CopyNextRow(t0, a[..], src, w, i);
    }
  }
}
