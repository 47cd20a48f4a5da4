/** `mt/bh_matmul.c`: core 0 computes the upper half of C with all loops going up, core 1
    the lower half with all loops going down. */
module MirroredMatmul {
  import opened Arith
  import opened Matrix
  import opened MatView
  import opened BlockedMatmul

  /** The square matrices of one call. */
  ghost predicate Square(lda: nat, a: array<int>, b: array<int>, c: array<int>) {
    && lda % 8 == 0 && a != c && b != c
    && Fits(a.Length, 0, lda, lda, lda) && Fits(b.Length, 0, lda, lda, lda) && Fits(c.Length, 0, lda, lda, lda)
  }

  // --------------------------------------------------------------- eight elements of a row

  /** The first `d` terms of the first row of `a` times column `q` of `b`. */
  function Prod(a: View, b: View, q: int, d: nat): int { Dot(a.s, a.o, b.s, b.o + q, b.ld, d) }

  /** The first `d` terms have been added to the eight accumulators. */
  ghost predicate Upward(acc: seq<int>, s: seq<int>, a: View, b: View, d: nat) {
    |acc| == |s| == 8 && forall q :: 0 <= q < 8 ==> acc[q] == s[q] + Prod(a, b, q, d)
  }

  /** All but the first `d` of `h` terms have been added; the accumulators stand for columns
      from right to left. */
  ghost predicate Downward(acc: seq<int>, s: seq<int>, a: View, b: View, h: nat, d: nat) {
    |acc| == |s| == 8 && forall q :: 0 <= q < 8 ==>
      acc[q] + Prod(a, b, 7 - q, d) == s[q] + Prod(a, b, 7 - q, h)
  }

  lemma UpwardStep(acc: seq<int>, r: seq<int>, s: seq<int>, a: View, b: View, d: nat)
    requires Upward(acc, s, a, b, d) && |r| == 8
    requires forall q :: 0 <= q < 8 ==>
               r[q] == acc[q] + (At(a.s, a.o + d) * At(b.s, b.o + q + d * b.ld)
                                 + At(a.s, a.o + (d + 1)) * At(b.s, b.o + q + (d + 1) * b.ld))
    ensures Upward(r, s, a, b, d + 2)
  {
    hide At;
    forall q | 0 <= q < 8 ensures r[q] == s[q] + Prod(a, b, q, d + 2) {
      DotStep(a.s, a.o, b.s, b.o + q, b.ld, d);
      DotStep(a.s, a.o, b.s, b.o + q, b.ld, d + 1);
    }
  }

  lemma DownwardStep(acc: seq<int>, r: seq<int>, s: seq<int>, a: View, b: View, h: nat, d: nat,
                     ai: int, b0: int, b1: int)
    requires Downward(acc, s, a, b, h, d + 2) && |r| == 8
    requires ai == a.o + (d + 1) && b0 == b.o + 7 + (d + 1) * b.ld && b1 == b.o + 7 + d * b.ld
    requires forall q :: 0 <= q < 8 ==>
               r[q] == acc[q] + (At(a.s, ai) * At(b.s, b0 - q) + At(a.s, ai - 1) * At(b.s, b1 - q))
    ensures Downward(r, s, a, b, h, d)
  {
    hide At;
    forall q | 0 <= q < 8
      ensures r[q] + Prod(a, b, 7 - q, d) == s[q] + Prod(a, b, 7 - q, h)
    {
      DotStep(a.s, a.o, b.s, b.o + 7 - q, b.ld, d);
      DotStep(a.s, a.o, b.s, b.o + 7 - q, b.ld, d + 1);
      assert b.o + 7 - q + (d + 1) * b.ld == b0 - q && b.o + 7 - q + d * b.ld == b1 - q;
    }
  }

  /** Two terms of all eight sums, at `ai` in A and from `b0` and `b1` on in B. */
  method TwoTermsUp(acc: seq<int>, a: array<int>, b: array<int>, ai: nat, b0: nat, b1: nat) returns (r: seq<int>)
    requires |acc| == 8 && ai + 1 < a.Length && b0 + 7 < b.Length && b1 + 7 < b.Length
    ensures |r| == 8 && forall q :: 0 <= q < 8 ==>
              r[q] == acc[q] + (At(a[..], ai) * At(b[..], b0 + q) + At(a[..], ai + 1) * At(b[..], b1 + q))
  {
    var x0, x1 := a[ai], a[ai + 1];
    r := [acc[0] + (x0 * b[b0] + x1 * b[b1]), acc[1] + (x0 * b[b0 + 1] + x1 * b[b1 + 1]),
          acc[2] + (x0 * b[b0 + 2] + x1 * b[b1 + 2]), acc[3] + (x0 * b[b0 + 3] + x1 * b[b1 + 3]),
          acc[4] + (x0 * b[b0 + 4] + x1 * b[b1 + 4]), acc[5] + (x0 * b[b0 + 5] + x1 * b[b1 + 5]),
          acc[6] + (x0 * b[b0 + 6] + x1 * b[b1 + 6]), acc[7] + (x0 * b[b0 + 7] + x1 * b[b1 + 7])];
  }

  /** The same from right to left, with the later term first. */
  method TwoTermsDown(acc: seq<int>, a: array<int>, b: array<int>, ai: nat, b0: nat, b1: nat) returns (r: seq<int>)
    requires |acc| == 8 && 1 <= ai < a.Length && 7 <= b0 < b.Length && 7 <= b1 < b.Length
    ensures |r| == 8 && forall q :: 0 <= q < 8 ==>
              r[q] == acc[q] + (At(a[..], ai) * At(b[..], b0 - q) + At(a[..], ai - 1) * At(b[..], b1 - q))
  {
    var x0, x1 := a[ai], a[ai - 1];
    r := [acc[0] + (x0 * b[b0] + x1 * b[b1]), acc[1] + (x0 * b[b0 - 1] + x1 * b[b1 - 1]),
          acc[2] + (x0 * b[b0 - 2] + x1 * b[b1 - 2]), acc[3] + (x0 * b[b0 - 3] + x1 * b[b1 - 3]),
          acc[4] + (x0 * b[b0 - 4] + x1 * b[b1 - 4]), acc[5] + (x0 * b[b0 - 5] + x1 * b[b1 - 5]),
          acc[6] + (x0 * b[b0 - 6] + x1 * b[b1 - 6]), acc[7] + (x0 * b[b0 - 7] + x1 * b[b1 - 7])];
  }

  /** Elements x, x + 1, ... of C; or from right to left. */
  method LoadUp(c: array<int>, x: nat) returns (s: seq<int>)
    requires x + 7 < c.Length
    ensures |s| == 8 && forall q :: 0 <= q < 8 ==> s[q] == c[x + q]
  {
    s := [c[x], c[x + 1], c[x + 2], c[x + 3], c[x + 4], c[x + 5], c[x + 6], c[x + 7]];
  }

  method LoadDown(c: array<int>, x: nat) returns (s: seq<int>)
    requires 7 <= x < c.Length
    ensures |s| == 8 && forall q :: 0 <= q < 8 ==> s[q] == c[x - q]
  {
    s := [c[x], c[x - 1], c[x - 2], c[x - 3], c[x - 4], c[x - 5], c[x - 6], c[x - 7]];
  }

  method StoreUp(c: array<int>, x: nat, acc: seq<int>)
    requires |acc| == 8 && x + 7 < c.Length
    modifies c
    ensures forall q :: 0 <= q < 8 ==> acc[q] == c[x + q]
    ensures forall y :: 0 <= y < c.Length && !(x <= y < x + 8) ==> c[y] == old(c[y])
  {
    c[x], c[x + 1], c[x + 2], c[x + 3] := acc[0], acc[1], acc[2], acc[3];
    c[x + 4], c[x + 5], c[x + 6], c[x + 7] := acc[4], acc[5], acc[6], acc[7];
  }

  method StoreDown(c: array<int>, x: nat, acc: seq<int>)
    requires |acc| == 8 && 7 <= x < c.Length
    modifies c
    ensures forall q :: 0 <= q < 8 ==> acc[q] == c[x - q]
    ensures forall y :: 0 <= y < c.Length && !(x - 8 < y <= x) ==> c[y] == old(c[y])
  {
    c[x], c[x - 1], c[x - 2], c[x - 3] := acc[0], acc[1], acc[2], acc[3];
    c[x - 4], c[x - 5], c[x - 6], c[x - 7] := acc[4], acc[5], acc[6], acc[7];
    forall q | 0 <= q < 8 ensures acc[q] == c[x - q] {
      assert q == 0 || q == 1 || q == 2 || q == 3 || q == 4 || q == 5 || q == 6 || q == 7;
    }
  }

  /** Eight neighbouring elements, from `x` on, that grew by their products are a window with
      the product added. */
  lemma EightAdded(c0: seq<int>, c: seq<int>, s: seq<int>, acc: seq<int>, a: View, b: View, h: nat,
                   lda: nat, j: nat, i: nat, x: nat)
    requires x == j * lda + i && i + 8 <= lda && |c| == |c0| && x + 7 < |c| && |s| == |acc| == 8
    requires forall q :: 0 <= q < 8 ==> s[q] == c0[x + q] && acc[q] == c[x + q]
    requires forall q :: 0 <= q < 8 ==> acc[q] == s[q] + Prod(a, b, q, h)
    requires forall y :: 0 <= y < |c| && !(x <= y < x + 8) ==> c[y] == c0[y]
    ensures Added(c0, c, a, b, h, Win(0, lda, lda, lda).Down(j, 1).Right(i, 8))
  {
    var w := Win(0, lda, lda, lda).Down(j, 1).Right(i, 8);
    hide Dot, Added, IsElement;
    forall r: nat, q: nat | r < 1 && q < 8
      ensures w.At(r, q) < |c| && c[w.At(r, q)] == c0[w.At(r, q)] + Dot(a.s, a.o + r * a.ld, b.s, b.o + q, b.ld, h)
    {
      assert w.At(r, q) == x + q && a.o + r * a.ld == a.o;
      assert acc[q] == s[q] + Prod(a, b, q, h);
    }
    forall y: nat | y < |c| && !IsElement(w, y) ensures c[y] == c0[y] {
      if x <= y < x + 8 { EightElement(w, x, y); }
    }
    AddedIsElementwise(c0, c, a, b, h, w);
  }

  lemma EightElement(w: Win, x: nat, y: nat)
    requires w.m == 1 && w.n == 8 && w.o == x && x <= y < x + 8
    ensures IsElement(w, y)
  {
    assert y == w.At(0, y - x);
  }

  /** The rows of A and B that a step reads are inside. */
  lemma InsideUp(alen: nat, blen: nat, lda: nat, j: nat, i: nat, lo: nat, d: nat)
    requires Fits(alen, 0, lda, lda, lda) && Fits(blen, 0, lda, lda, lda)
    requires j < lda && i + 8 <= lda && lo + d + 2 <= lda
    ensures j * lda + lo + d + 1 < alen && lo * lda + i + d * lda + lda + 7 < blen
    ensures (d + 1) * lda == d * lda + lda && (d + 2) * lda == d * lda + 2 * lda
  {
    FitsAt(alen, 0, lda, lda, lda, j, lo + d + 1);
    FitsAt(blen, 0, lda, lda, lda, lo + d + 1, i + 7);
    assert (lo + d + 1) * lda == lo * lda + d * lda + lda;
  }

  /** Eight elements of row `j` from column `i` on, over `h` terms from `lo` on. */
  method TileUp(lda: nat, a: array<int>, b: array<int>, c: array<int>, j: nat, i: nat, lo: nat, h: nat)
    requires Square(lda, a, b, c) && j < lda && i + 8 <= lda && lo + h <= lda && h % 2 == 0
    modifies c
    ensures Added(old(c[..]), c[..], View(a[..], 0, lda).Down(j).Right(lo), View(b[..], 0, lda).Down(lo).Right(i), h,
                  Win(0, lda, lda, lda).Down(j, 1).Right(i, 8))
  {
    hide Upward, Added, Fits, Prod;
    ghost var av, bv, c0 := View(a[..], 0, lda).Down(j).Right(lo), View(b[..], 0, lda).Down(lo).Right(i), c[..];
    FitsAt(c.Length, 0, lda, lda, lda, j, i + 7);
    var s := LoadUp(c, i + j * lda);
    var acc := SumUp(s, lda, a, b, j, i, lo, h);
    UpwardEnd(acc, s, av, bv, h);
    StoreUp(c, i + j * lda, acc);
    EightAdded(c0, c[..], s, acc, av, bv, h, lda, j, i, i + j * lda);
  }

  /** The loop over k. */
  method SumUp(s: seq<int>, lda: nat, a: array<int>, b: array<int>, j: nat, i: nat, lo: nat, h: nat)
    returns (acc: seq<int>)
    requires Fits(a.Length, 0, lda, lda, lda) && Fits(b.Length, 0, lda, lda, lda) && |s| == 8
    requires j < lda && i + 8 <= lda && lo + h <= lda && h % 2 == 0
    ensures Upward(acc, s, View(a[..], 0, lda).Down(j).Right(lo), View(b[..], 0, lda).Down(lo).Right(i), h)
  {
    hide *;
    ghost var av, bv := View(a[..], 0, lda).Down(j).Right(lo), View(b[..], 0, lda).Down(lo).Right(i);
    acc := s;
    UpwardStart(s, av, bv);
    var iB0 := lo * lda + i;
    var iB1 := iB0 + lda;
    var k := lo;
    ghost var d: nat := 0;
    RowStart(lo * lda + i, lda);
    while k < lo + h
      invariant k == lo + d <= lo + h && d % 2 == 0
      invariant iB0 == RowAt(lo * lda + i, lda, d) && iB1 == iB0 + lda
      invariant Upward(acc, s, av, bv, d)
    {
      EvenLeft(d, h);
      RowIs(lo * lda + i, lda, d);
      acc := StepUp(acc, lda, a, b, j, i, lo, k, h, iB0, iB1, s);
      TwoRowsOn(lo * lda + i, lda, d);
      iB0 := iB0 + 2 * lda;
      iB1 := iB1 + 2 * lda;
      k := k + 2;
      d := d + 2;
    }
  }

  /** Where row `d` starts after offset `o`. */
  function RowAt(o: nat, ld: nat, d: nat): nat { o + d * ld }

  lemma RowStart(o: nat, ld: nat)
    ensures RowAt(o, ld, 0) == o
  {
  }

  lemma RowIs(o: nat, ld: nat, d: nat)
    ensures RowAt(o, ld, d) == o + d * ld
  {
  }

  lemma TwoRowsOn(o: nat, ld: nat, d: nat)
    ensures RowAt(o, ld, d + 2) == RowAt(o, ld, d) + 2 * ld
  {
    assert (d + 2) * ld == d * ld + 2 * ld;
  }

  lemma EvenLeft(d: nat, h: nat)
    requires d % 2 == 0 && h % 2 == 0
    ensures (d + 2) % 2 == 0 && (d < h ==> d + 2 <= h)
  {
  }

  /** The body of the innermost loop. */
  method StepUp(acc: seq<int>, lda: nat, a: array<int>, b: array<int>, j: nat, i: nat, ghost lo: nat, k: nat,
                ghost h: nat, iB0: nat, iB1: nat, ghost s: seq<int>) returns (r: seq<int>)
    requires Fits(a.Length, 0, lda, lda, lda) && Fits(b.Length, 0, lda, lda, lda)
    requires j < lda && i + 8 <= lda && lo + h <= lda && lo <= k && k + 2 <= lo + h
    requires iB0 == lo * lda + i + (k - lo) * lda && iB1 == iB0 + lda
    requires Upward(acc, s, View(a[..], 0, lda).Down(j).Right(lo), View(b[..], 0, lda).Down(lo).Right(i), k - lo)
    ensures Upward(r, s, View(a[..], 0, lda).Down(j).Right(lo), View(b[..], 0, lda).Down(lo).Right(i), k - lo + 2)
  {
    hide Upward, Fits;
    ghost var av, bv := View(a[..], 0, lda).Down(j).Right(lo), View(b[..], 0, lda).Down(lo).Right(i);
    InsideUp(a.Length, b.Length, lda, j, i, lo, k - lo);
    UpwardSize(acc, s, av, bv, k - lo);
    r := TwoTermsUp(acc, a, b, j * lda + k, iB0, iB1);
    UpwardStep(acc, r, s, av, bv, k - lo);
  }

  lemma UpwardStart(s: seq<int>, a: View, b: View)
    requires |s| == 8
    ensures Upward(s, s, a, b, 0)
  {
    forall q | 0 <= q < 8 ensures Prod(a, b, q, 0) == 0 {
      DotZero(a.s, a.o, b.s, b.o + q, b.ld);
    }
  }

  lemma UpwardSize(acc: seq<int>, s: seq<int>, a: View, b: View, d: nat)
    requires Upward(acc, s, a, b, d)
    ensures |acc| == 8
  {
  }

  lemma UpwardEnd(acc: seq<int>, s: seq<int>, a: View, b: View, h: nat)
    requires Upward(acc, s, a, b, h)
    ensures |acc| == |s| == 8 && forall q :: 0 <= q < 8 ==> acc[q] == s[q] + Prod(a, b, q, h)
  {
  }

  /** Eight elements of row `j` up to column `i`, over `h` terms from the last one down. */
  method TileDown(lda: nat, a: array<int>, b: array<int>, c: array<int>, j: nat, i: nat, lo: nat, h: nat)
    requires Square(lda, a, b, c) && j < lda && 7 <= i < lda && lo + h <= lda && h % 2 == 0
    modifies c
    ensures Added(old(c[..]), c[..], View(a[..], 0, lda).Down(j).Right(lo),
                  View(b[..], 0, lda).Down(lo).Right(i - 7), h, Win(0, lda, lda, lda).Down(j, 1).Right(i - 7, 8))
  {
    hide Downward, Added, Fits, Prod;
    ghost var av, bv, c0 := View(a[..], 0, lda).Down(j).Right(lo), View(b[..], 0, lda).Down(lo).Right(i - 7), c[..];
    FitsAt(c.Length, 0, lda, lda, lda, j, i);
    var s := LoadDown(c, i + j * lda);
    var acc := SumDown(s, lda, a, b, j, i, lo, h);
    DownwardEnd(acc, s, av, bv, h);
    StoreDown(c, i + j * lda, acc);
    Mirrored(c0, c[..], s, acc, av, bv, h, i + j * lda - 7);
    EightAdded(c0, c[..], Reversed(s), Reversed(acc), av, bv, h, lda, j, i - 7, i + j * lda - 7);
  }

  function Reversed(s: seq<int>): seq<int>
    requires |s| == 8
  {
    seq(8, q requires 0 <= q < 8 => s[7 - q])
  }

  /** From right to left and from left to right. */
  lemma Mirrored(c0: seq<int>, c: seq<int>, s: seq<int>, acc: seq<int>, a: View, b: View, h: nat, x: nat)
    requires |c| == |c0| && x + 7 < |c| && |s| == |acc| == 8
    requires forall q :: 0 <= q < 8 ==> s[q] == c0[x + 7 - q] && acc[q] == c[x + 7 - q]
    requires forall q :: 0 <= q < 8 ==> acc[q] == s[q] + Prod(a, b, 7 - q, h)
    ensures forall q :: 0 <= q < 8 ==> Reversed(s)[q] == c0[x + q] && Reversed(acc)[q] == c[x + q]
    ensures forall q :: 0 <= q < 8 ==> Reversed(acc)[q] == Reversed(s)[q] + Prod(a, b, q, h)
  {
    hide Prod;
    forall q | 0 <= q < 8
      ensures Reversed(s)[q] == c0[x + q] && Reversed(acc)[q] == c[x + q]
              && Reversed(acc)[q] == Reversed(s)[q] + Prod(a, b, q, h)
    {
      assert Reversed(acc)[q] == acc[7 - q] && Reversed(s)[q] == s[7 - q];
    }
  }

  method SumDown(s: seq<int>, lda: nat, a: array<int>, b: array<int>, j: nat, i: nat, lo: nat, h: nat)
    returns (acc: seq<int>)
    requires Fits(a.Length, 0, lda, lda, lda) && Fits(b.Length, 0, lda, lda, lda) && |s| == 8
    requires j < lda && 7 <= i < lda && lo + h <= lda && h % 2 == 0
    ensures Downward(acc, s, View(a[..], 0, lda).Down(j).Right(lo), View(b[..], 0, lda).Down(lo).Right(i - 7), h, 0)
  {
    hide Downward, Fits;
    ghost var av, bv := View(a[..], 0, lda).Down(j).Right(lo), View(b[..], 0, lda).Down(lo).Right(i - 7);
    acc := s;
    DownwardStart(s, av, bv, h);
    var k := lo + h - 1;
    while k >= lo
      invariant lo - 1 <= k <= lo + h - 1 && (k + 1 - lo) % 2 == 0
      invariant Downward(acc, s, av, bv, h, k + 1 - lo)
    {
      acc := StepDown(acc, lda, a, b, j, i, lo, k, h, s);
      k := k - 2;
    }
  }

  method StepDown(acc: seq<int>, lda: nat, a: array<int>, b: array<int>, j: nat, i: nat, ghost lo: nat, k: nat,
                  ghost h: nat, ghost s: seq<int>) returns (r: seq<int>)
    requires Fits(a.Length, 0, lda, lda, lda) && Fits(b.Length, 0, lda, lda, lda)
    requires j < lda && 7 <= i < lda && lo + h <= lda && lo < k < lo + h
    requires Downward(acc, s, View(a[..], 0, lda).Down(j).Right(lo), View(b[..], 0, lda).Down(lo).Right(i - 7), h,
                      k + 1 - lo)
    ensures Downward(r, s, View(a[..], 0, lda).Down(j).Right(lo), View(b[..], 0, lda).Down(lo).Right(i - 7), h,
                     k - 1 - lo)
  {
    hide *;
    ghost var av, bv := View(a[..], 0, lda).Down(j).Right(lo), View(b[..], 0, lda).Down(lo).Right(i - 7);
    InsideDown(a.Length, b.Length, lda, j, i, lo, k);
    DownwardSize(acc, s, av, bv, h, k + 1 - lo);
    var ai, b0, b1 := j * lda + k, k * lda + i, (k - 1) * lda + i;
    r := TwoTermsDown(acc, a, b, ai, b0, b1);
    DownwardAt(a[..], b[..], lda, j, i, lo, k);
    DownwardStep(acc, r, s, av, bv, h, k - 1 - lo, ai, b0, b1);
  }

  /** Where the two terms lie in the views of A and B. */
  lemma DownwardAt(a: seq<int>, b: seq<int>, lda: nat, j: nat, i: nat, lo: nat, k: nat)
    requires 7 <= i < lda && lo < k
    ensures var av, bv, d := View(a, 0, lda).Down(j).Right(lo), View(b, 0, lda).Down(lo).Right(i - 7), k - 1 - lo;
            && av.s == a && av.o + d == j * lda + k - 1 && bv.s == b && bv.ld == lda
            && bv.o + 7 + (d + 1) * bv.ld == k * lda + i && bv.o + 7 + d * bv.ld == (k - 1) * lda + i
  {
    RowsApart(lda, lo, k - lo);
    RowsApart(lda, lo, k - 1 - lo);
  }

  lemma InsideDown(alen: nat, blen: nat, lda: nat, j: nat, i: nat, lo: nat, k: nat)
    requires Fits(alen, 0, lda, lda, lda) && Fits(blen, 0, lda, lda, lda)
    requires j < lda && 7 <= i < lda && lo < k < lda
    ensures j * lda + k < alen && k * lda + i < blen && (k - 1) * lda + i < blen && (k - 1) * lda >= 0
    ensures k * lda == lo * lda + (k - lo) * lda && (k - 1) * lda == lo * lda + (k - 1 - lo) * lda
  {
    FitsAt(alen, 0, lda, lda, lda, j, k);
    FitsAt(blen, 0, lda, lda, lda, k, i);
    FitsAt(blen, 0, lda, lda, lda, k - 1, i);
    RowsApart(lda, lo, k - lo);
    RowsApart(lda, lo, k - 1 - lo);
    RowsApart(lda, 0, k - 1);
    hide *;
  }

  lemma RowsApart(lda: nat, x: nat, y: nat)
    ensures (x + y) * lda == x * lda + y * lda && y * lda >= 0
  {
  }

  lemma DownwardStart(s: seq<int>, a: View, b: View, h: nat)
    requires |s| == 8
    ensures Downward(s, s, a, b, h, h)
  {
  }

  lemma DownwardSize(acc: seq<int>, s: seq<int>, a: View, b: View, h: nat, d: nat)
    requires Downward(acc, s, a, b, h, d)
    ensures |acc| == 8
  {
  }

  lemma DownwardEnd(acc: seq<int>, s: seq<int>, a: View, b: View, h: nat)
    requires Downward(acc, s, a, b, h, 0)
    ensures |acc| == |s| == 8 && forall q :: 0 <= q < 8 ==> acc[q] == s[q] + Prod(a, b, 7 - q, h)
  {
    forall q | 0 <= q < 8 ensures acc[q] == s[q] + Prod(a, b, 7 - q, h) {
      DotZero(a.s, a.o, b.s, b.o + (7 - q), b.ld);
    }
  }

  // ---------------------------------------------------------------------- the halves

  /** Row `j`, from left to right. */
  method RowUp(lda: nat, a: array<int>, b: array<int>, c: array<int>, j: nat, lo: nat, h: nat)
    requires Square(lda, a, b, c) && j < lda && lo + h <= lda && h % 2 == 0
    modifies c
    ensures Added(old(c[..]), c[..], View(a[..], 0, lda).Down(j).Right(lo), View(b[..], 0, lda).Down(lo), h,
                  Win(0, lda, lda, lda).Down(j, 1))
  {
    hide Added, Fits;
    ghost var av, bv, w := View(a[..], 0, lda).Down(j).Right(lo), View(b[..], 0, lda).Down(lo),
                         Win(0, lda, lda, lda).Down(j, 1);
    ghost var c0 := c[..];
    AddedNothing(c0, av, bv, h, w.Cols(0));
    var i := 0;
    while i < lda
      invariant i <= lda && i % 8 == 0 && a[..] == av.s && b[..] == bv.s
      invariant Added(c0, c[..], av, bv, h, w.Cols(i))
    {
      ghost var ci := c[..];
      TileUp(lda, a, b, c, j, i, lo, h);
      AddedCols(c0, ci, c[..], av, bv, h, w.Cols(i + 8), i, 8);
      i := i + 8;
    }
  }

  /** Row `j`, from right to left. */
  method RowDown(lda: nat, a: array<int>, b: array<int>, c: array<int>, j: nat, lo: nat, h: nat)
    requires Square(lda, a, b, c) && j < lda && lo + h <= lda && h % 2 == 0
    modifies c
    ensures Added(old(c[..]), c[..], View(a[..], 0, lda).Down(j).Right(lo), View(b[..], 0, lda).Down(lo), h,
                  Win(0, lda, lda, lda).Down(j, 1))
  {
    hide Added, Fits;
    ghost var av, bv, w := View(a[..], 0, lda).Down(j).Right(lo), View(b[..], 0, lda).Down(lo),
                         Win(0, lda, lda, lda).Down(j, 1);
    ghost var c0 := c[..];
    AddedNothing(c0, av, bv.Right(lda), h, w.Right(lda, 0));
    var i := lda - 1;
    while i >= 0
      invariant -1 <= i < lda && (i + 1) % 8 == 0 && a[..] == av.s && b[..] == bv.s
      invariant Added(c0, c[..], av, bv.Right(i + 1), h, w.Right(i + 1, lda - i - 1))
    {
      ghost var ci, n := c[..], i - 7;
      TileDown(lda, a, b, c, j, i, lo, h);
      AddedColsBack(c0, ci, c[..], av, bv.Right(n), h, w.Right(n, lda - n), 8, lda - n - 8);
      i := i - 8;
    }
  }

  /** The rows of the upper half, from top to bottom, over one half of the terms. */
  method PassUp(lda: nat, a: array<int>, b: array<int>, c: array<int>, lo: nat, h: nat)
    requires Square(lda, a, b, c) && lo + h <= lda && lda == 2 * h
    modifies c
    ensures Added(old(c[..]), c[..], View(a[..], 0, lda).Right(lo), View(b[..], 0, lda).Down(lo), h,
                  Win(0, lda, lda, lda).Rows(h))
  {
    hide Added, Fits;
    ghost var av, bv, w := View(a[..], 0, lda).Right(lo), View(b[..], 0, lda).Down(lo), Win(0, lda, lda, lda);
    ghost var c0 := c[..];
    AddedNothing(c0, av, bv, h, w.Rows(0));
    for j := 0 to h
      invariant a[..] == av.s && b[..] == bv.s
      invariant Added(c0, c[..], av, bv, h, w.Rows(j))
    {
      ghost var cj := c[..];
      RowUp(lda, a, b, c, j, lo, h);
      RightDown(View(a[..], 0, lda), lo, j);
      AddedRows(c0, cj, c[..], av, bv, h, w.Rows(j + 1), j, 1);
    }
  }

  /** The rows of the lower half, from bottom to top. */
  method PassDown(lda: nat, a: array<int>, b: array<int>, c: array<int>, lo: nat, h: nat)
    requires Square(lda, a, b, c) && lo + h <= lda && lda == 2 * h
    modifies c
    ensures Added(old(c[..]), c[..], View(a[..], 0, lda).Right(lo).Down(h), View(b[..], 0, lda).Down(lo), h,
                  Win(0, lda, lda, lda).Down(h, h))
  {
    hide Added, Fits;
    ghost var av, bv, w := View(a[..], 0, lda).Right(lo), View(b[..], 0, lda).Down(lo), Win(0, lda, lda, lda);
    ghost var c0 := c[..];
    ghost var as_, bs := a[..], b[..];
    AddedNothing(c0, av.Down(lda), bv, h, w.Down(lda, 0));
    hide View.Down, View.Right, Win.Down, Square;
    var j := lda - 1;
    while j >= h
      invariant h - 1 <= j < lda && a[..] == as_ && b[..] == bs
      invariant Added(c0, c[..], av.Down(j + 1), bv, h, w.Down(j + 1, lda - j - 1))
    {
      RowBelow(lda, a, b, c, j, lo, h, c0, av, bv);
      j := j - 1;
    }
  }

  /** One more row on top of those that are done. */
  method RowBelow(lda: nat, a: array<int>, b: array<int>, c: array<int>, j: nat, lo: nat, h: nat,
                  ghost c0: seq<int>, ghost av: View, ghost bv: View)
    requires Square(lda, a, b, c) && lo + h <= lda && lda == 2 * h && j < lda
    requires av == View(a[..], 0, lda).Right(lo) && bv == View(b[..], 0, lda).Down(lo)
    requires Added(c0, c[..], av.Down(j + 1), bv, h, Win(0, lda, lda, lda).Down(j + 1, lda - j - 1))
    modifies c
    ensures a[..] == old(a[..]) && b[..] == old(b[..])
    ensures Added(c0, c[..], av.Down(j), bv, h, Win(0, lda, lda, lda).Down(j, lda - j))
  {
    hide Added, Fits, View.Down, View.Right, Win.Down;
    ghost var cj, w := c[..], Win(0, lda, lda, lda);
    RowDown(lda, a, b, c, j, lo, h);
    RightDown(View(a[..], 0, lda), lo, j);
    DownOne(av, w, j, lda - j, lda - j - 1);
    AddedRowsBack(c0, cj, c[..], av.Down(j), bv, h, w.Down(j, lda - j), 1, lda - j - 1);
  }

  lemma RightDown(a: View, lo: nat, j: nat)
    ensures a.Right(lo).Down(j) == a.Down(j).Right(lo)
  {
  }

  lemma DownOne(a: View, w: Win, j: nat, m: nat, n: nat)
    ensures a.Down(j).Down(1) == a.Down(j + 1)
    ensures w.Down(j, m).Down(1, n) == w.Down(j + 1, n)
    ensures w.Down(j, m).Rows(1) == w.Down(j, 1) && w.Down(j, m).m == m
  {
    assert (j + 1) * a.ld == j * a.ld + a.ld && (j + 1) * w.ld == j * w.ld + w.ld;
  }

  /** `matmul` on one core: the upper half on core 0, the lower on core 1, or both on the only core. */
  method Core(coreid: nat, ncores: nat, lda: nat, a: array<int>, b: array<int>, c: array<int>)
    requires Square(lda, a, b, c) && coreid < ncores
    modifies c
    ensures var av, bv, w, h := View(a[..], 0, lda), View(b[..], 0, lda), Win(0, lda, lda, lda), lda / 2;
            && (ncores == 1 ==> Added(old(c[..]), c[..], av, bv, lda, w))
            && (ncores > 1 && coreid == 0 ==> Added(old(c[..]), c[..], av, bv, lda, w.Rows(h)))
            && (ncores > 1 && coreid == 1 ==> Added(old(c[..]), c[..], av.Down(h), bv, lda, w.Down(h, h)))
            && (coreid > 1 ==> c[..] == old(c[..]))
  {
    hide Added, Fits;
    if coreid > 1 { return; }
    ghost var av, bv, w, h := View(a[..], 0, lda), View(b[..], 0, lda), Win(0, lda, lda, lda), lda / 2;
    ghost var c0 := c[..];
    if coreid == 0 {
      PassUp(lda, a, b, c, 0, lda / 2);
      ghost var c1 := c[..];
      PassUp(lda, a, b, c, lda / 2, lda / 2);
      AddedInner(c0, c1, c[..], av, bv, h, h, w.Rows(h));
    }
    ghost var cm := c[..];
    if coreid == 1 || ncores == 1 {
      PassDown(lda, a, b, c, lda / 2, lda / 2);
      ghost var c1 := c[..];
      PassDown(lda, a, b, c, 0, lda / 2);
      AddedInnerBack(cm, c1, c[..], av.Down(h), bv, h, h, w.Down(h, h));
    }
    if ncores == 1 { AddedRows(c0, cm, c[..], av, bv, lda, w, h, h); }
  }

  /** Two cores or more, the first two in either order. */
  method AllCores(ncores: nat, oneFirst: bool, lda: nat, a: array<int>, b: array<int>, c: array<int>)
    requires Square(lda, a, b, c) && ncores > 0
    modifies c
    ensures Added(old(c[..]), c[..], View(a[..], 0, lda), View(b[..], 0, lda), lda, Win(0, lda, lda, lda))
  {
    hide Added, Fits;
    ghost var av, bv, w, h := View(a[..], 0, lda), View(b[..], 0, lda), Win(0, lda, lda, lda), lda / 2;
    ghost var c0 := c[..];
    if ncores == 1 {
      Core(0, 1, lda, a, b, c);
      return;
    }
    Core(if oneFirst then 1 else 0, ncores, lda, a, b, c);
    ghost var c1 := c[..];
    Core(if oneFirst then 0 else 1, ncores, lda, a, b, c);
    if oneFirst {
      AddedRowsBack(c0, c1, c[..], av, bv, lda, w, h, h);
    } else {
      AddedRows(c0, c1, c[..], av, bv, lda, w, h, h);
    }
    for k := 2 to ncores
      invariant Added(c0, c[..], av, bv, lda, w) && a[..] == av.s && b[..] == bv.s
    {
      Core(k, ncores, lda, a, b, c);
    }
  }
}
