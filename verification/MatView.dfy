/** Submatrices of flat buffers, and what a multiply adds to every position of a
    buffer.  A multiply over a large matrix is a sum of multiplies over blocks. */
module MatView {
  import opened Arith
  import opened Matrix

  /** A matrix inside the buffer `s`: its first element at `o`, rows `ld` apart. */
  datatype View = View(s: seq<int>, o: nat, ld: nat) {
    function Down(i: nat): View { View(s, o + i * ld, ld) }
    function Right(j: nat): View { View(s, o + j, ld) }
    function Get(i: nat, j: nat): int { At(s, o + i * ld + j) }
  }

  /** An m x n window of a buffer. */
  datatype Win = Win(o: nat, ld: nat, m: nat, n: nat) {
    function At(i: nat, j: nat): nat { o + i * ld + j }
    function Row(x: nat): nat { if x < o then 0 else Quot(x - o, ld) }
    function Col(x: nat): nat { if x < o then 0 else Rem(x - o, ld) }
    predicate Has(x: nat) { o <= x && ld > 0 && Row(x) < m && Col(x) < n }
    function Rows(m': nat): Win { Win(o, ld, m', n) }
    function Cols(n': nat): Win { Win(o, ld, m, n') }
    function Down(i: nat, m': nat): Win { Win(o + i * ld, ld, m', n) }
    function Right(j: nat, n': nat): Win { Win(o + j, ld, m, n') }
  }

  /** Every access to an m x n matrix at `o` stays below `len`. */
  predicate Fits(len: nat, o: nat, ld: nat, m: nat, n: nat) {
    m > 0 && n > 0 ==> o + (m - 1) * ld + n <= len
  }

  lemma FitsAt(len: nat, o: nat, ld: nat, m: nat, n: nat, i: nat, j: nat)
    requires Fits(len, o, ld, m, n) && i < m && j < n
    ensures o + i * ld + j < len
  {
    MulMono(i, m - 1, ld);
  }

  /** A submatrix of a matrix that fits does too. */
  lemma FitsSub(len: nat, o: nat, ld: nat, m: nat, n: nat, i: nat, j: nat, m': nat, n': nat)
    requires Fits(len, o, ld, m, n) && i + m' <= m && j + n' <= n
    ensures Fits(len, o + i * ld + j, ld, m', n')
  {
    if m' > 0 && n' > 0 {
      MulMono(i + (m' - 1), m - 1, ld);
      assert (i + (m' - 1)) * ld == i * ld + (m' - 1) * ld;
    }
  }

  /** Row and column of an element of the window. */
  lemma WinAt(w: Win, i: nat, j: nat)
    requires j < w.ld
    ensures w.Row(w.At(i, j)) == i && w.Col(w.At(i, j)) == j
    ensures w.Has(w.At(i, j)) <==> i < w.m && j < w.n
  {
    QuotRem(i * w.ld + j, w.ld, i, j);
  }

  lemma WinOf(w: Win, x: nat)
    requires w.ld > 0 && w.o <= x
    ensures x == w.At(w.Row(x), w.Col(x)) && w.Col(x) < w.ld
  {
    QuotRemSum(x - w.o, w.ld);
  }

  /** What `c += a * b` over the window adds to position `x` of the buffer of `c`. */
  function Add(a: View, b: View, p: nat, w: Win, x: nat): int {
    if w.Has(x) then Dot(a.s, a.o + w.Row(x) * a.ld, b.s, b.o + w.Col(x), b.ld, p) else 0
  }

  // ------------------------------------------------------------------- algebra

  lemma WinRows(w: Win, m1: nat, m2: nat, x: nat)
    requires w.m == m1 + m2
    ensures w.Has(x) <==> w.Rows(m1).Has(x) || w.Down(m1, m2).Has(x)
    ensures !(w.Rows(m1).Has(x) && w.Down(m1, m2).Has(x))
    ensures w.Down(m1, m2).Has(x) ==> w.Row(x) == m1 + w.Down(m1, m2).Row(x) && w.Col(x) == w.Down(m1, m2).Col(x)
  {
    var w2 := w.Down(m1, m2);
    if w.ld > 0 && w.o <= x {
      WinOf(w, x);
      if x >= w2.o {
        WinOf(w2, x);
        WinAt(w, m1 + w2.Row(x), w2.Col(x));
        assert x == w.At(m1 + w2.Row(x), w2.Col(x));
      } else if w.Row(x) >= m1 {
        MulMono(m1, w.Row(x), w.ld);
      }
    }
  }

  /** Row by row. */
  lemma AddRows(a: View, b: View, p: nat, w: Win, m1: nat, m2: nat, x: nat)
    requires w.m == m1 + m2
    ensures Add(a, b, p, w, x) == Add(a, b, p, w.Rows(m1), x) + Add(a.Down(m1), b, p, w.Down(m1, m2), x)
  {
    WinRows(w, m1, m2, x);
    var w2 := w.Down(m1, m2);
    if w2.Has(x) {
      assert a.o + w.Row(x) * a.ld == a.Down(m1).o + w2.Row(x) * a.ld;
    }
    hide Dot, Win.Has, Quot, Rem;
  }

  lemma WinCols(w: Win, n1: nat, n2: nat, x: nat)
    requires w.n == n1 + n2 <= w.ld
    ensures w.Has(x) <==> w.Cols(n1).Has(x) || w.Right(n1, n2).Has(x)
    ensures !(w.Cols(n1).Has(x) && w.Right(n1, n2).Has(x))
    ensures w.Right(n1, n2).Has(x) ==> w.Col(x) == n1 + w.Right(n1, n2).Col(x) && w.Row(x) == w.Right(n1, n2).Row(x)
  {
    var w2 := w.Right(n1, n2);
    if w.ld > 0 && w.o <= x {
      WinOf(w, x);
      if x >= w2.o {
        WinOf(w2, x);
        if w2.Col(x) < n2 {
          WinAt(w, w2.Row(x), n1 + w2.Col(x));
          assert x == w.At(w2.Row(x), n1 + w2.Col(x));
        } else if w.Col(x) >= n1 {
          WinAt(w2, w.Row(x), w.Col(x) - n1);
          assert x == w2.At(w.Row(x), w.Col(x) - n1);
        }
      } else if w.Row(x) > 0 {
        MulMono(1, w.Row(x), w.ld);
      }
    }
  }

  /** Column by column. */
  lemma AddCols(a: View, b: View, p: nat, w: Win, n1: nat, n2: nat, x: nat)
    requires w.n == n1 + n2 <= w.ld
    ensures Add(a, b, p, w, x) == Add(a, b, p, w.Cols(n1), x) + Add(a, b.Right(n1), p, w.Right(n1, n2), x)
  {
    WinCols(w, n1, n2, x);
    hide Dot, Win.Has, Quot, Rem;
  }

  /** Which elements a band of rows, a band of columns and a submatrix hold. */
  lemma RowBand(area: Win, i: nat, m: nat, x: nat)
    requires i + m <= area.m
    ensures area.Down(i, m).Has(x) <==> area.Has(x) && i <= area.Row(x) < i + m
    ensures area.Down(i, m).Has(x) ==>
              area.Row(x) == i + area.Down(i, m).Row(x) && area.Col(x) == area.Down(i, m).Col(x)
  {
    WinRows(area.Rows(i + m), i, m, x);
    hide Quot, Rem;
  }

  lemma ColumnBand(area: Win, j: nat, n: nat, x: nat)
    requires j + n <= area.n && area.n <= area.ld
    ensures area.Right(j, n).Has(x) <==> area.Has(x) && j <= area.Col(x) < j + n
    ensures area.Right(j, n).Has(x) ==>
              area.Col(x) == j + area.Right(j, n).Col(x) && area.Row(x) == area.Right(j, n).Row(x)
  {
    WinCols(area.Cols(j + n), j, n, x);
    hide Quot, Rem;
  }

  lemma Submatrix(area: Win, i: nat, j: nat, m: nat, n: nat, x: nat)
    requires i + m <= area.m && j + n <= area.n && area.n <= area.ld
    ensures var w := area.Down(i, m).Right(j, n);
            && (w.Has(x) <==> area.Has(x) && i <= area.Row(x) < i + m && j <= area.Col(x) < j + n)
            && (w.Has(x) ==> area.Row(x) == i + w.Row(x) && area.Col(x) == j + w.Col(x))
  {
    RowBand(area, i, m, x);
    ColumnBand(area.Down(i, m), j, n, x);
    hide Win.Has, Win.Row, Win.Col;
  }

  lemma {:induction false} DotSplit(a: seq<int>, ao: int, b: seq<int>, bo: int, ldb: int, p1: nat, p2: nat)
    ensures Dot(a, ao, b, bo, ldb, p1 + p2)
         == Dot(a, ao, b, bo, ldb, p1) + Dot(a, ao + p1, b, bo + p1 * ldb, ldb, p2)
    decreases p2
  {
    if p2 > 0 {
      DotSplit(a, ao, b, bo, ldb, p1, p2 - 1);
      assert (p1 + p2 - 1) * ldb == p1 * ldb + (p2 - 1) * ldb;
    }
  }

  /** Term by term. */
  lemma AddInner(a: View, b: View, p1: nat, p2: nat, w: Win, x: nat)
    ensures Add(a, b, p1 + p2, w, x) == Add(a, b, p1, w, x) + Add(a.Right(p1), b.Down(p1), p2, w, x)
  {
    if w.Has(x) {
      DotSplit(a.s, a.o + w.Row(x) * a.ld, b.s, b.o + w.Col(x), b.ld, p1, p2);
    }
    hide Dot, Win.Has;
  }

  lemma AddNothing(a: View, b: View, p: nat, w: Win, x: nat)
    requires w.m == 0 || w.n == 0 || p == 0
    ensures Add(a, b, p, w, x) == 0
  {
  }

  /** A single element. */
  lemma AddOne(a: View, b: View, p: nat, w: Win, x: nat)
    requires w.m == 1 && w.n == 1 && w.ld > 0
    ensures Add(a, b, p, w, x) == if x == w.o then Dot(a.s, a.o, b.s, b.o, b.ld, p) else 0
  {
    WinAt(w, 0, 0);
    if w.o <= x { WinOf(w, x); }
    hide Dot, Win.Has;
  }

  /** Products of equal rows and columns are equal, wherever they are stored. */
  lemma {:induction false} DotSame(a: View, b: View, a': View, b': View, n: nat)
    requires forall k: nat :: k < n ==> a.Get(0, k) == a'.Get(0, k) && b.Get(k, 0) == b'.Get(k, 0)
    ensures Dot(a.s, a.o, b.s, b.o, b.ld, n) == Dot(a'.s, a'.o, b'.s, b'.o, b'.ld, n)
  {
    hide At;
    if n > 0 {
      DotSame(a, b, a', b', n - 1);
      var k := n - 1;
      assert a.Get(0, k) == a'.Get(0, k) && b.Get(k, 0) == b'.Get(k, 0);
    }
  }
}
