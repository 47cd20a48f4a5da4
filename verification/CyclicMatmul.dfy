/** `mt/ck_matmul.c`: each core takes rows in blocks of sixteen and walks their columns
    around the matrix, starting at a column of its own. */
module CyclicMatmul {
  import opened Arith
  import opened Matrix
  import opened MatView
  import opened BlockedMatmul

  const BSIZE: nat := 16

  /** The square matrices of one call. */
  ghost predicate Square(lda: nat, a: array<int>, b: array<int>, c: array<int>) {
    && lda % BSIZE == 0 && a != c && b != c
    && Fits(a.Length, 0, lda, lda, lda) && Fits(b.Length, 0, lda, lda, lda) && Fits(c.Length, 0, lda, lda, lda)
  }

  // ------------------------------------------------------------------ a 4 x 2 tile

  /** The eight accumulators before term `k`: number 2r + q belongs to row r, column q of the tile. */
  ghost predicate Sums(acc: seq<int>, s: seq<int>, a: View, b: View, k: nat) {
    |acc| == |s| == 8 && forall t :: 0 <= t < 8 ==>
      acc[t] == s[t] + Dot(a.s, a.o + t / 2 * a.ld, b.s, b.o + t % 2, b.ld, k)
  }

  lemma SumsStep(acc: seq<int>, r: seq<int>, s: seq<int>, a: View, b: View, k: nat)
    requires Sums(acc, s, a, b, k) && |r| == 8
    requires forall t :: 0 <= t < 8 ==>
               r[t] == acc[t] + At(a.s, a.o + t / 2 * a.ld + k) * At(b.s, b.o + t % 2 + k * b.ld)
    ensures Sums(r, s, a, b, k + 1)
  {
    hide At;
    forall t | 0 <= t < 8
      ensures r[t] == s[t] + Dot(a.s, a.o + t / 2 * a.ld, b.s, b.o + t % 2, b.ld, k + 1)
    {
      DotStep(a.s, a.o + t / 2 * a.ld, b.s, b.o + t % 2, b.ld, k);
    }
  }

  /** Term `k` of all eight sums. */
  method SumTerm(acc: seq<int>, lda: nat, a: array<int>, b: array<int>, j: nat, i: nat, k: nat, ghost s: seq<int>)
    returns (r: seq<int>)
    requires Fits(a.Length, 0, lda, lda, lda) && Fits(b.Length, 0, lda, lda, lda)
    requires j + 4 <= lda && i + 2 <= lda && k < lda
    requires Sums(acc, s, View(a[..], 0, lda).Down(j), View(b[..], 0, lda).Right(i), k)
    ensures Sums(r, s, View(a[..], 0, lda).Down(j), View(b[..], 0, lda).Right(i), k + 1)
  {
    hide *;
    SumsSize(acc, s, View(a[..], 0, lda).Down(j), View(b[..], 0, lda).Right(i), k);
    TermsFit(a.Length, lda, j, k);
    FitsAt(b.Length, 0, lda, lda, lda, k, i + 1);
    r := EightTerms(acc, a, b, j * lda + k, (j + 1) * lda + k, (j + 2) * lda + k, (j + 3) * lda + k, k * lda + i);
    TermsAt(a[..], b[..], lda, j, i, k);
    EightStep(acc, r, s, View(a[..], 0, lda).Down(j), View(b[..], 0, lda).Right(i), k);
  }

  /** `acc` after the products of the elements of A at `p0` to `p3` with two neighbours in B. */
  ghost predicate Eight(acc: seq<int>, r: seq<int>, a: seq<int>, b: seq<int>,
                        p0: nat, p1: nat, p2: nat, p3: nat, q: nat)
  {
    && |acc| == |r| == 8
    && r[0] == acc[0] + At(a, p0) * At(b, q) && r[1] == acc[1] + At(a, p0) * At(b, q + 1)
    && r[2] == acc[2] + At(a, p1) * At(b, q) && r[3] == acc[3] + At(a, p1) * At(b, q + 1)
    && r[4] == acc[4] + At(a, p2) * At(b, q) && r[5] == acc[5] + At(a, p2) * At(b, q + 1)
    && r[6] == acc[6] + At(a, p3) * At(b, q) && r[7] == acc[7] + At(a, p3) * At(b, q + 1)
  }

  method EightTerms(acc: seq<int>, a: array<int>, b: array<int>, p0: nat, p1: nat, p2: nat, p3: nat, q: nat)
    returns (r: seq<int>)
    requires |acc| == 8 && p0 < a.Length && p1 < a.Length && p2 < a.Length && p3 < a.Length && q + 1 < b.Length
    ensures Eight(acc, r, a[..], b[..], p0, p1, p2, p3, q)
  {
    var x0, x1, x2, x3 := a[p0], a[p1], a[p2], a[p3];
    var y0, y1 := b[q], b[q + 1];
    r := [acc[0] + x0 * y0, acc[1] + x0 * y1, acc[2] + x1 * y0, acc[3] + x1 * y1,
          acc[4] + x2 * y0, acc[5] + x2 * y1, acc[6] + x3 * y0, acc[7] + x3 * y1];
  }

  /** Where the elements of one term lie in the views of A and B. */
  lemma TermsAt(a: seq<int>, b: seq<int>, lda: nat, j: nat, i: nat, k: nat)
    ensures var av, bv := View(a, 0, lda).Down(j), View(b, 0, lda).Right(i);
            && av.s == a && bv.s == b && bv.o + k * bv.ld == k * lda + i
            && av.o + k == j * lda + k && av.o + av.ld + k == (j + 1) * lda + k
            && av.o + 2 * av.ld + k == (j + 2) * lda + k && av.o + 3 * av.ld + k == (j + 3) * lda + k
  {
  }

  lemma EightStep(acc: seq<int>, r: seq<int>, s: seq<int>, a: View, b: View, k: nat)
    requires Sums(acc, s, a, b, k)
    requires Eight(acc, r, a.s, b.s, a.o + k, a.o + a.ld + k, a.o + 2 * a.ld + k, a.o + 3 * a.ld + k, b.o + k * b.ld)
    ensures Sums(r, s, a, b, k + 1)
  {
    hide At, Sums;
    var q := b.o + k * b.ld;
    forall t | 0 <= t < 8
      ensures r[t] == acc[t] + At(a.s, a.o + t / 2 * a.ld + k) * At(b.s, b.o + t % 2 + k * b.ld)
    {
      assert t / 2 * a.ld == if t < 2 then 0 else if t < 4 then a.ld else if t < 6 then 2 * a.ld else 3 * a.ld;
      assert b.o + t % 2 + k * b.ld == if t % 2 == 0 then q else q + 1;
    }
    SumsStep(acc, r, s, a, b, k);
  }

  lemma SumsSize(acc: seq<int>, s: seq<int>, a: View, b: View, k: nat)
    requires Sums(acc, s, a, b, k)
    ensures |acc| == 8
  {
  }

  lemma TermsFit(len: nat, lda: nat, j: nat, k: nat)
    requires Fits(len, 0, lda, lda, lda) && j + 4 <= lda && k < lda
    ensures (j + 3) * lda + k < len
    ensures (j + 1) * lda == j * lda + lda && (j + 2) * lda == j * lda + 2 * lda && (j + 3) * lda == j * lda + 3 * lda
  {
    FitsAt(len, 0, lda, lda, lda, j + 3, k);
  }

  /** The tile at row `j`, column `i`: eight sums over all of k, added to C. */
  method Tile(lda: nat, a: array<int>, b: array<int>, c: array<int>, j: nat, i: nat)
    requires Square(lda, a, b, c) && j + 4 <= lda && i + 2 <= lda
    modifies c
    ensures Added(old(c[..]), c[..], View(a[..], 0, lda).Down(j), View(b[..], 0, lda).Right(i), lda,
                  Win(0, lda, lda, lda).Down(j, 4).Right(i, 2))
  {
    hide Sums, Added, Fits;
    ghost var av, bv, c0 := View(a[..], 0, lda).Down(j), View(b[..], 0, lda).Right(i), c[..];
    var s := Load(lda, c, j, i);
    var acc := s;
    NoSums(s, av, bv);
    var k := 0;
    while k < lda
      invariant k <= lda && k % 8 == 0 && c[..] == c0 && Sums(acc, s, av, bv, k)
    {
      for x := 0 to 8
        invariant c[..] == c0 && Sums(acc, s, av, bv, k + x)
      {
        acc := SumTerm(acc, lda, a, b, j, i, k + x, s);
      }
      k := k + 8;
    }
    SumsSize(acc, s, av, bv, lda);
    Store(acc, lda, c, j, i);
    assert a[..] == av.s && b[..] == bv.s;
    TileAddedTo(c0, c[..], s, acc, av, bv, lda, j, i);
  }

  lemma NoSums(s: seq<int>, a: View, b: View)
    requires |s| == 8
    ensures Sums(s, s, a, b, 0)
  {
    forall t | 0 <= t < 8 ensures Dot(a.s, a.o + t / 2 * a.ld, b.s, b.o + t % 2, b.ld, 0) == 0 {
      DotZero(a.s, a.o + t / 2 * a.ld, b.s, b.o + t % 2, b.ld);
    }
  }

  /** Elements of the tile in the order of the accumulators. */
  predicate Loaded(s: seq<int>, c: seq<int>, lda: nat, j: nat, i: nat) {
    var x := j * lda + i;
    && |s| == 8 && x + 3 * lda + 1 < |c|
    && s[0] == c[x] && s[1] == c[x + 1] && s[2] == c[x + lda] && s[3] == c[x + lda + 1]
    && s[4] == c[x + 2 * lda] && s[5] == c[x + 2 * lda + 1] && s[6] == c[x + 3 * lda] && s[7] == c[x + 3 * lda + 1]
  }

  method Load(lda: nat, c: array<int>, j: nat, i: nat) returns (s: seq<int>)
    requires Fits(c.Length, 0, lda, lda, lda) && j + 4 <= lda && i + 2 <= lda
    ensures Loaded(s, c[..], lda, j, i)
  {
    TermsFit(c.Length, lda, j, i + 1);
    s := [c[i + j * lda], c[i + j * lda + 1], c[i + (j + 1) * lda], c[i + (j + 1) * lda + 1],
          c[i + (j + 2) * lda], c[i + (j + 2) * lda + 1], c[i + (j + 3) * lda], c[i + (j + 3) * lda + 1]];
  }

  /** Positions outside the tile. */
  predicate Beside(x: nat, lda: nat, j: nat, i: nat) {
    var o := j * lda + i;
    x !in {o, o + 1, o + lda, o + lda + 1, o + 2 * lda, o + 2 * lda + 1, o + 3 * lda, o + 3 * lda + 1}
  }

  method Store(acc: seq<int>, lda: nat, c: array<int>, j: nat, i: nat)
    requires |acc| == 8 && Fits(c.Length, 0, lda, lda, lda) && j + 4 <= lda && i + 2 <= lda
    modifies c
    ensures Loaded(acc, c[..], lda, j, i)
    ensures forall x: nat :: x < c.Length && Beside(x, lda, j, i) ==> c[x] == old(c[x])
  {
    TermsFit(c.Length, lda, j, i + 1);
    c[i + j * lda] := acc[0];
    c[i + j * lda + 1] := acc[1];
    c[i + (j + 1) * lda] := acc[2];
    c[i + (j + 1) * lda + 1] := acc[3];
    c[i + (j + 2) * lda] := acc[4];
    c[i + (j + 2) * lda + 1] := acc[5];
    c[i + (j + 3) * lda] := acc[6];
    c[i + (j + 3) * lda + 1] := acc[7];
  }

  lemma TileAddedTo(c0: seq<int>, c: seq<int>, s: seq<int>, acc: seq<int>, a: View, b: View, lda: nat, j: nat, i: nat)
    requires |c| == |c0| && i + 2 <= lda && Loaded(s, c0, lda, j, i) && Loaded(acc, c, lda, j, i)
    requires forall x: nat :: x < |c| && Beside(x, lda, j, i) ==> c[x] == c0[x]
    requires Sums(acc, s, a, b, lda)
    ensures Added(c0, c, a, b, lda, Win(0, lda, lda, lda).Down(j, 4).Right(i, 2))
  {
    hide Dot, Loaded, Sums, Beside, Added, IsElement, Win.At, Win.Down, Win.Right;
    var w := Win(0, lda, lda, lda).Down(j, 4).Right(i, 2);
    TileShape(lda, j, i);
    forall r: nat, q: nat | r < 4 && q < 2
      ensures w.At(r, q) < |c| && c[w.At(r, q)] == c0[w.At(r, q)] + Dot(a.s, a.o + r * a.ld, b.s, b.o + q, b.ld, lda)
    {
      CellSum(c0, c, s, acc, a, b, lda, j, i, r, q);
    }
    forall x: nat | x < |c| && !IsElement(w, x) ensures c[x] == c0[x] {
      BesideTile(w, x, lda, j, i);
    }
    AddedIsElementwise(c0, c, a, b, lda, w);
  }

  lemma TileShape(lda: nat, j: nat, i: nat)
    ensures var w := Win(0, lda, lda, lda).Down(j, 4).Right(i, 2); w.m == 4 && w.n == 2 && w.ld == lda
  {
  }

  lemma CellSum(c0: seq<int>, c: seq<int>, s: seq<int>, acc: seq<int>, a: View, b: View, lda: nat, j: nat, i: nat,
                r: nat, q: nat)
    requires |c| == |c0| && Loaded(s, c0, lda, j, i) && Loaded(acc, c, lda, j, i) && Sums(acc, s, a, b, lda)
    requires r < 4 && q < 2
    ensures var x := Win(0, lda, lda, lda).Down(j, 4).Right(i, 2).At(r, q);
            x < |c| && c[x] == c0[x] + Dot(a.s, a.o + r * a.ld, b.s, b.o + q, b.ld, lda)
  {
    hide Dot;
    var t := 2 * r + q;
    assert acc[t] == s[t] + Dot(a.s, a.o + t / 2 * a.ld, b.s, b.o + t % 2, b.ld, lda);
    assert t / 2 == r && t % 2 == q;
    assert r == 0 || r == 1 || r == 2 || r == 3;
  }

  lemma BesideTile(w: Win, x: nat, lda: nat, j: nat, i: nat)
    requires w == Win(0, lda, lda, lda).Down(j, 4).Right(i, 2) && !IsElement(w, x)
    ensures Beside(x, lda, j, i)
  {
    forall r: nat, q: nat | r < 4 && q < 2 ensures x != w.At(r, q) { }
    assert w.At(0, 0) == j * lda + i && w.At(0, 1) == j * lda + i + 1;
    assert w.At(1, 0) == j * lda + i + lda && w.At(1, 1) == j * lda + i + lda + 1;
    assert w.At(2, 0) == j * lda + i + 2 * lda && w.At(2, 1) == j * lda + i + 2 * lda + 1;
    assert w.At(3, 0) == j * lda + i + 3 * lda && w.At(3, 1) == j * lda + i + 3 * lda + 1;
  }

  // ------------------------------------------------------- blocks of sixteen by sixteen

  /** Four rows of a block. */
  method Strip(lda: nat, a: array<int>, b: array<int>, c: array<int>, j: nat, ii: nat)
    requires Square(lda, a, b, c) && j + 4 <= lda && ii + BSIZE <= lda
    modifies c
    ensures Added(old(c[..]), c[..], View(a[..], 0, lda).Down(j), View(b[..], 0, lda).Right(ii), lda,
                  Win(0, lda, lda, lda).Down(j, 4).Right(ii, BSIZE))
  {
    hide Added, Fits;
    ghost var av, bv, w := View(a[..], 0, lda).Down(j), View(b[..], 0, lda).Right(ii),
                         Win(0, lda, lda, lda).Down(j, 4).Right(ii, BSIZE);
    ghost var c0 := c[..];
    AddedNothing(c0, av, bv, lda, w.Cols(0));
    var i := ii;
    while i < lda && i < ii + BSIZE
      invariant ii <= i <= ii + BSIZE && (i - ii) % 2 == 0 && a[..] == av.s && b[..] == bv.s
      invariant Added(c0, c[..], av, bv, lda, w.Cols(i - ii))
    {
      ghost var ci := c[..];
      Tile(lda, a, b, c, j, i);
      AddedCols(c0, ci, c[..], av, bv, lda, w.Cols(i - ii + 2), i - ii, 2);
      i := i + 2;
    }
  }

  method Block(lda: nat, a: array<int>, b: array<int>, c: array<int>, jj: nat, ii: nat)
    requires Square(lda, a, b, c) && jj + BSIZE <= lda && ii + BSIZE <= lda
    modifies c
    ensures Added(old(c[..]), c[..], View(a[..], 0, lda).Down(jj), View(b[..], 0, lda).Right(ii), lda,
                  Win(0, lda, lda, lda).Down(jj, BSIZE).Right(ii, BSIZE))
  {
    hide Added, Fits;
    ghost var av, bv, w := View(a[..], 0, lda).Down(jj), View(b[..], 0, lda).Right(ii),
                         Win(0, lda, lda, lda).Down(jj, BSIZE).Right(ii, BSIZE);
    ghost var c0 := c[..];
    AddedNothing(c0, av, bv, lda, w.Rows(0));
    var j := jj;
    while j < lda && j < jj + BSIZE
      invariant jj <= j <= jj + BSIZE && (j - jj) % 4 == 0 && a[..] == av.s && b[..] == bv.s
      invariant Added(c0, c[..], av, bv, lda, w.Rows(j - jj))
    {
      ghost var cj := c[..];
      Strip(lda, a, b, c, j, ii);
      DownTwice(lda, jj, j - jj, ii);
      AddedRows(c0, cj, c[..], av, bv, lda, w.Rows(j - jj + 4), j - jj, 4);
      j := j + 4;
    }
  }

  lemma DownTwice(lda: nat, jj: nat, d: nat, ii: nat)
    ensures (jj + d) * lda == jj * lda + d * lda
  {
  }

  // -------------------------------------------------------- around the matrix once

  /** The columns from `start` up to `ii` have been seen, or after the turn at the last
      column those from `start` on and those before `ii`. */
  predicate Seen(q: nat, start: nat, ii: nat, turned: bool) {
    if turned then q >= start || q < ii else start <= q < ii
  }

  /** The product has been added to the columns seen. */
  ghost predicate AddedSeen(c0: seq<int>, c: seq<int>, a: View, b: View, p: nat, w: Win,
                            start: nat, ii: nat, turned: bool)
  {
    |c| == |c0| && forall x: nat :: x < |c| ==>
      c[x] == c0[x] + if w.Has(x) && Seen(w.Col(x), start, ii, turned) then Add(a, b, p, w, x) else 0
  }

  /** What a band of columns contributes. */
  lemma AddBand(a: View, b: View, p: nat, w: Win, j: nat, n: nat, x: nat)
    requires j + n <= w.n <= w.ld
    ensures Add(a, b.Right(j), p, w.Right(j, n), x)
         == if w.Has(x) && j <= w.Col(x) < j + n then Add(a, b, p, w, x) else 0
  {
    ColumnBand(w, j, n, x);
    hide Dot, Quot, Rem;
  }

  lemma SeenStep(c0: seq<int>, c1: seq<int>, c2: seq<int>, a: View, b: View, p: nat, w: Win,
                 start: nat, ii: nat, turned: bool)
    requires start < w.n <= w.ld && ii + BSIZE <= w.n && (turned ==> ii + BSIZE <= start) && (!turned ==> start <= ii)
    requires AddedSeen(c0, c1, a, b, p, w, start, ii, turned)
    requires Added(c1, c2, a, b.Right(ii), p, w.Right(ii, BSIZE))
    ensures AddedSeen(c0, c2, a, b, p, w, start, ii + BSIZE, turned)
    ensures ii + BSIZE == w.n ==> AddedSeen(c0, c2, a, b, p, w, start, 0, true)
  {
    hide Win.Has, Win.Col, Add;
    forall x: nat | x < |c2|
      ensures c2[x] == c0[x] + if w.Has(x) && Seen(w.Col(x), start, ii + BSIZE, turned) then Add(a, b, p, w, x) else 0
      ensures ii + BSIZE == w.n ==>
                c2[x] == c0[x] + if w.Has(x) && Seen(w.Col(x), start, 0, true) then Add(a, b, p, w, x) else 0
    {
      AddBand(a, b, p, w, ii, BSIZE, x);
      InWindow(w, x);
    }
  }

  lemma InWindow(w: Win, x: nat)
    ensures w.Has(x) ==> w.Col(x) < w.n
  {
  }

  /** Sixteen rows: the columns in blocks from `start` around the matrix, each once. */
  method Band(lda: nat, a: array<int>, b: array<int>, c: array<int>, jj: nat, start: nat)
    requires Square(lda, a, b, c) && jj + BSIZE <= lda && start < lda && start % BSIZE == 0
    modifies c
    ensures Added(old(c[..]), c[..], View(a[..], 0, lda).Down(jj), View(b[..], 0, lda), lda,
                  Win(0, lda, lda, lda).Down(jj, BSIZE))
  {
    hide AddedSeen, Added, Fits;
    ghost var av, bv, w := View(a[..], 0, lda).Down(jj), View(b[..], 0, lda), Win(0, lda, lda, lda).Down(jj, BSIZE);
    ghost var c0, turned := c[..], false;
    NothingSeen(c0, av, bv, lda, w, start);
    var first := true;
    var ii: nat := start;
    while ii != start || first
      invariant ii < lda && ii % BSIZE == 0 && a[..] == av.s && b[..] == bv.s
      invariant first ==> ii == start && !turned
      invariant if turned then ii <= start else first || start < ii
      invariant AddedSeen(c0, c[..], av, bv, lda, w, start, ii, turned)
      decreases if turned then start - ii else 2 * lda - ii
    {
      first := false;
      ghost var ci := c[..];
      NextBlock(lda, ii);
      NextBlock(start, ii);
      NextColumn(lda, ii);
      Block(lda, a, b, c, jj, ii);
      SeenStep(c0, ci, c[..], av, bv, lda, w, start, ii, turned);
      turned := turned || ii + BSIZE == lda;
      ii := (BSIZE + ii) % lda;
    }
    AllSeen(c0, c[..], av, bv, lda, w, start);
  }

  /** Multiples of the block size are a block apart. */
  lemma NextBlock(n: nat, ii: nat)
    requires n % BSIZE == 0 && ii % BSIZE == 0
    ensures ii < n ==> ii + BSIZE <= n
  {
  }

  lemma NextColumn(lda: nat, ii: nat)
    requires lda % BSIZE == 0 && ii % BSIZE == 0 && ii < lda
    ensures (BSIZE + ii) % lda == if ii + BSIZE == lda then 0 else ii + BSIZE
    ensures (ii + BSIZE) % BSIZE == 0
  {
    NextBlock(lda, ii);
    if ii + BSIZE == lda {
      DivModUnique(BSIZE + ii, lda, 1, 0);
    } else {
      DivModUnique(BSIZE + ii, lda, 0, BSIZE + ii);
    }
  }

  lemma NothingSeen(c: seq<int>, a: View, b: View, p: nat, w: Win, start: nat)
    ensures AddedSeen(c, c, a, b, p, w, start, start, false)
  {
    hide Add, Win.Has, Win.Col;
  }

  lemma AllSeen(c0: seq<int>, c: seq<int>, a: View, b: View, p: nat, w: Win, start: nat)
    requires AddedSeen(c0, c, a, b, p, w, start, start, true)
    ensures Added(c0, c, a, b, p, w)
  {
    hide Dot, Win.Row, Win.Col;
  }

  // ---------------------------------------------------------------------- the cores

  /** The product has been added to the blocks of sixteen rows in `blocks`. */
  ghost predicate AddedBlocks(c0: seq<int>, c: seq<int>, a: View, b: View, p: nat, w: Win, blocks: set<nat>) {
    |c| == |c0| && forall x: nat :: x < |c| ==>
      c[x] == c0[x] + if w.Has(x) && w.Row(x) / BSIZE in blocks then Add(a, b, p, w, x) else 0
  }

  /** The blocks of rows of one core. */
  function Share(core: nat, ncores: nat, lda: nat): set<nat>
    requires ncores > 0
  {
    set jb: nat | jb < lda / BSIZE && jb % ncores == core
  }

  lemma AddRowBand(a: View, b: View, p: nat, w: Win, i: nat, m: nat, x: nat)
    requires i + m <= w.m
    ensures Add(a.Down(i), b, p, w.Down(i, m), x)
         == if w.Has(x) && i <= w.Row(x) < i + m then Add(a, b, p, w, x) else 0
  {
    RowBand(w, i, m, x);
    if w.Down(i, m).Has(x) {
      assert (i + w.Down(i, m).Row(x)) * a.ld == i * a.ld + w.Down(i, m).Row(x) * a.ld;
    }
    hide Dot, Quot, Rem;
  }

  lemma BlocksStep(c0: seq<int>, c1: seq<int>, c2: seq<int>, a: View, b: View, p: nat, w: Win,
                   blocks: set<nat>, jb: nat)
    requires (jb + 1) * BSIZE <= w.m && jb !in blocks
    requires AddedBlocks(c0, c1, a, b, p, w, blocks)
    requires Added(c1, c2, a.Down(jb * BSIZE), b, p, w.Down(jb * BSIZE, BSIZE))
    ensures AddedBlocks(c0, c2, a, b, p, w, blocks + {jb})
  {
    hide Win.Has, Win.Row, Add;
    forall x: nat | x < |c2|
      ensures c2[x] == c0[x] + if w.Has(x) && w.Row(x) / BSIZE in blocks + {jb} then Add(a, b, p, w, x) else 0
    {
      AddRowBand(a, b, p, w, jb * BSIZE, BSIZE, x);
    }
  }

  lemma BlocksUnion(c0: seq<int>, c1: seq<int>, c2: seq<int>, a: View, b: View, p: nat, w: Win,
                    s: set<nat>, t: set<nat>)
    requires s !! t && AddedBlocks(c0, c1, a, b, p, w, s) && AddedBlocks(c1, c2, a, b, p, w, t)
    ensures AddedBlocks(c0, c2, a, b, p, w, s + t)
  {
    hide Win.Has, Win.Row, Add;
  }

  lemma NoBlocks(c: seq<int>, a: View, b: View, p: nat, w: Win)
    ensures AddedBlocks(c, c, a, b, p, w, {})
  {
    hide Win.Has, Win.Row, Add;
  }

  /** `matmul` on one core. */
  method Core(coreid: nat, ncores: nat, lda: nat, a: array<int>, b: array<int>, c: array<int>)
    requires Square(lda, a, b, c) && coreid < ncores
    modifies c
    ensures AddedBlocks(old(c[..]), c[..], View(a[..], 0, lda), View(b[..], 0, lda), lda, Win(0, lda, lda, lda),
                        Share(coreid, ncores, lda))
  {
    hide AddedBlocks, Added, Fits;
    ghost var av, bv, w := View(a[..], 0, lda), View(b[..], 0, lda), Win(0, lda, lda, lda);
    ghost var c0, blocks, jb: nat := c[..], {}, coreid;
    NoBlocks(c0, av, bv, lda, w);
    var start := BSIZE * coreid;
    var jj := start;
    SmallRest(coreid, ncores);
    while jj < lda
      invariant jj == jb * BSIZE && jb % ncores == coreid && a[..] == av.s && b[..] == bv.s
      invariant forall k: nat :: k in blocks <==> k < jb && k < lda / BSIZE && k % ncores == coreid
      invariant AddedBlocks(c0, c[..], av, bv, lda, w, blocks)
      decreases lda - jj
    {
      ghost var cj := c[..];
      NextBlock(lda, jj);
      Band(lda, a, b, c, jj, start);
      BlocksStep(c0, cj, c[..], av, bv, lda, w, blocks, jb);
      forall k: nat ensures k in blocks + {jb} <==> k < jb + ncores && k < lda / BSIZE && k % ncores == coreid {
        NextResidue(ncores, coreid, jb, k);
      }
      NextResidue(ncores, coreid, jb, jb);
      blocks := blocks + {jb};
      jb := jb + ncores;
      jj := jj + BSIZE * ncores;
    }
    assert blocks == Share(coreid, ncores, lda);
  }

  lemma SmallRest(core: nat, ncores: nat)
    requires core < ncores
    ensures core % ncores == core && forall k: nat :: k < core ==> k % ncores != core
  {
    forall k: nat | k <= core ensures k % ncores == k { DivModUnique(k, ncores, 0, k); }
  }

  /** All cores, one after the other in any order; their blocks of C do not meet. */
  method AllCores(order: seq<nat>, ncores: nat, lda: nat, a: array<int>, b: array<int>, c: array<int>)
    requires Square(lda, a, b, c) && ncores > 0
    requires forall t :: 0 <= t < |order| ==> order[t] < ncores
    requires forall t, u :: 0 <= t < u < |order| ==> order[t] != order[u]
    requires forall k: nat :: k < ncores ==> k in order
    modifies c
    ensures Added(old(c[..]), c[..], View(a[..], 0, lda), View(b[..], 0, lda), lda, Win(0, lda, lda, lda))
  {
    hide AddedBlocks, Added, Fits;
    ghost var av, bv, w := View(a[..], 0, lda), View(b[..], 0, lda), Win(0, lda, lda, lda);
    ghost var c0, blocks := c[..], {};
    NoBlocks(c0, av, bv, lda, w);
    for t := 0 to |order|
      invariant a[..] == av.s && b[..] == bv.s
      invariant forall jb: nat :: jb in blocks <==> jb < lda / BSIZE && jb % ncores in order[..t]
      invariant AddedBlocks(c0, c[..], av, bv, lda, w, blocks)
    {
      ghost var ct := c[..];
      Core(order[t], ncores, lda, a, b, c);
      ghost var mine := Share(order[t], ncores, lda);
      assert order[..t + 1] == order[..t] + [order[t]];
      BlocksUnion(c0, ct, c[..], av, bv, lda, w, blocks, mine);
      blocks := blocks + mine;
    }
    assert order[..|order|] == order;
    AllBlocks(c0, c[..], av, bv, lda, w, blocks);
  }

  lemma AllBlocks(c0: seq<int>, c: seq<int>, a: View, b: View, p: nat, w: Win, blocks: set<nat>)
    requires AddedBlocks(c0, c, a, b, p, w, blocks) && w.m % BSIZE == 0
    requires forall jb: nat :: jb < w.m / BSIZE ==> jb in blocks
    ensures Added(c0, c, a, b, p, w)
  {
    hide Dot, Quot, Rem;
  }
}
