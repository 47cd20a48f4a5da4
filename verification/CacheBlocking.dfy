/** `mm_cb` and `mm` of `benchmarks/mm/mm.c`: the multiply of large matrices, with
    24 x 25 x 24 blocks packed one after the other in buffers of their own.

    While the blocks of C are packed, the matrix C is spread over two buffers; its
    content is then the sequence `Virtual`, to which every step of the algorithm
    adds a product. */
module CacheBlocking {
  import opened Arith
  import opened Matrix
  import opened MatView
  import opened BlockedMatmul

  const CBM: nat := 24
  const CBN: nat := 25
  const CBK: nat := 24

  // ---------------------------------------------------------------------- blocks

  /** Where block (i, j) starts in a buffer of blocks of `size` elements, `cols` to a row of blocks. */
  function Blk(cols: nat, i: nat, j: nat, size: nat): nat { (cols * i + j) * size }

  lemma BlkFits(rows: nat, cols: nat, i: nat, j: nat, size: nat)
    requires i < rows && j < cols
    ensures Blk(cols, i, j, size) + size <= (rows * cols) * size
  {
    BlockIndex(rows * cols, rows, cols, i, j);
    var k, n := cols * i + j, rows * cols;
    MulMono(k + 1, n, size);
    assert (k + 1) * size == k * size + size;
  }

  /** Different blocks do not overlap. */
  lemma BlkApart(cols: nat, i: nat, j: nat, i': nat, j': nat, size: nat, x: nat)
    requires j < cols && j' < cols
    requires Blk(cols, i, j, size) <= x < Blk(cols, i, j, size) + size
    requires Blk(cols, i', j', size) <= x < Blk(cols, i', j', size) + size
    ensures i == i' && j == j'
  {
    var n, n' := cols * i + j, cols * i' + j';
    QuotRem(x, size, n, x - n * size);
    QuotRem(x, size, n', x - n' * size);
    QuotRem(n, cols, i, j);
    QuotRem(n, cols, i', j');
  }

  /** The window of a packed block is a contiguous piece of the buffer. */
  lemma BlockWindow(o: nat, rows: nat, cols: nat, x: nat)
    requires cols > 0
    ensures Win(o, cols, rows, cols).Has(x) <==> o <= x < o + rows * cols
  {
    var w := Win(o, cols, rows, cols);
    if o <= x {
      WinOf(w, x);
      if w.Row(x) < rows {
        MulMono(w.Row(x) + 1, rows, cols);
      } else {
        MulMono(rows, w.Row(x), cols);
      }
    }
  }

  /** Two views agree on their first `m` rows and `n` columns. */
  ghost predicate SameBlock(a: View, b: View, m: nat, n: nat) {
    forall i: nat, j: nat :: i < m && j < n ==> a.Get(i, j) == b.Get(i, j)
  }

  /** Block (i, j) of the matrix `src`. */
  function Part(src: View, i: nat, j: nat, m: nat, n: nat): View { src.Down(i * m).Right(j * n) }

  /** Block (i, j) of the packed buffer. */
  function Pack(dst: seq<int>, cols: nat, i: nat, j: nat, m: nat, n: nat): View {
    View(dst, Blk(cols, i, j, m * n), n)
  }

  /** All blocks before (i, j), row by row, are packed. */
  ghost predicate Packed(dst: seq<int>, src: View, cols: nat, i: nat, j: nat, m: nat, n: nat) {
    forall u: nat, v: nat :: v < cols && (u < i || (u == i && v < j)) ==>
      SameBlock(Pack(dst, cols, u, v, m, n), Part(src, u, v, m, n), m, n)
  }

  lemma RepackedBlock(t0: seq<int>, t: seq<int>, src: View, o: nat, m: nat, n: nat)
    requires n > 0 && o + m * n <= |t| && Copied(t0, t, src, Win(o, n, m, n), m, 0)
    ensures SameBlock(View(t, o, n), src, m, n)
  {
    var w := Win(o, n, m, n);
    forall i: nat, j: nat | i < m && j < n ensures View(t, o, n).Get(i, j) == src.Get(i, j) {
      WinAt(w, i, j);
      BlockWindow(o, m, n, w.At(i, j));
      assert Reached(w, w.At(i, j), m, 0);
    }
  }

  lemma OtherBlockStays(t0: seq<int>, t: seq<int>, src: View, cols: nat, i: nat, j: nat, u: nat, v: nat, m: nat, n: nat)
    requires n > 0 && j < cols && v < cols && (u != i || v != j)
    requires Copied(t0, t, src, Win(Blk(cols, i, j, m * n), n, m, n), m, 0)
    requires Blk(cols, u, v, m * n) + m * n <= |t|
    ensures SameBlock(Pack(t, cols, u, v, m, n), Pack(t0, cols, u, v, m, n), m, n)
  {
    var w, ow := Win(Blk(cols, i, j, m * n), n, m, n), Win(Blk(cols, u, v, m * n), n, m, n);
    forall r: nat, q: nat | r < m && q < n
      ensures Pack(t, cols, u, v, m, n).Get(r, q) == Pack(t0, cols, u, v, m, n).Get(r, q)
    {
      var x := ow.At(r, q);
      WinAt(ow, r, q);
      BlockWindow(ow.o, m, n, x);
      BlockWindow(w.o, m, n, x);
      if w.Has(x) { BlkApart(cols, i, j, u, v, m * n, x); }
      assert !Reached(w, x, m, 0);
    }
  }

  /** Packs a matrix of rows x cols blocks, each m x n. */
  method PackBlocks(dst: array<int>, src: array<int>, so: nat, ld: nat, rows: nat, cols: nat, m: nat, n: nat)
    requires dst != src && m > 0 && n > 0 && dst.Length == (rows * cols) * (m * n)
    requires Fits(src.Length, so, ld, rows * m, cols * n)
    modifies dst
    ensures Packed(dst[..], View(src[..], so, ld), cols, rows, 0, m, n)
  {
    hide Packed, Fits;
    ghost var sv := View(src[..], so, ld);
    assert Packed(dst[..], sv, cols, 0, 0, m, n) by { PackedNone(dst[..], sv, cols, m, n); }
    for i := 0 to rows
      invariant Packed(dst[..], sv, cols, i, 0, m, n) && src[..] == sv.s
    {
      for j := 0 to cols
        invariant Packed(dst[..], sv, cols, i, j, m, n) && src[..] == sv.s
      {
        PackOne(dst, src, so, ld, rows, cols, m, n, i, j);
      }
      PackedRow(dst[..], sv, cols, i, m, n);
    }
  }

  lemma PackedNone(dst: seq<int>, src: View, cols: nat, m: nat, n: nat)
    ensures Packed(dst, src, cols, 0, 0, m, n)
  {
  }

  lemma PackedRow(dst: seq<int>, src: View, cols: nat, i: nat, m: nat, n: nat)
    requires Packed(dst, src, cols, i, cols, m, n)
    ensures Packed(dst, src, cols, i + 1, 0, m, n)
  {
    hide SameBlock;
  }

  method PackOne(dst: array<int>, src: array<int>, so: nat, ld: nat, rows: nat, cols: nat, m: nat, n: nat,
                 i: nat, j: nat)
    requires dst != src && m > 0 && n > 0 && dst.Length == (rows * cols) * (m * n)
    requires Fits(src.Length, so, ld, rows * m, cols * n) && i < rows && j < cols
    requires Packed(dst[..], View(src[..], so, ld), cols, i, j, m, n)
    modifies dst
    ensures Packed(dst[..], View(src[..], so, ld), cols, i, j + 1, m, n)
  {
    hide Packed, Copied, Blk, Fits;
    ghost var t0, sv := dst[..], View(src[..], so, ld);
    BlkFits(rows, cols, i, j, m * n);
    var o, s := Blk(cols, i, j, m * n), so + (i * m) * ld + j * n;
    PartFits(src.Length, so, ld, rows, cols, m, n, i, j, s);
    BlockFits(dst.Length, o, m, n);
    assert Part(sv, i, j, m, n) == View(sv.s, s, ld);
    Repack(dst, o, n, src, s, ld, m, n);
    assert src[..] == sv.s;
    PackedStep(t0, dst[..], sv, rows, cols, m, n, i, j);
  }

  lemma PartFits(len: nat, so: nat, ld: nat, rows: nat, cols: nat, m: nat, n: nat, i: nat, j: nat, o: nat)
    requires Fits(len, so, ld, rows * m, cols * n) && i < rows && j < cols && o == so + (i * m) * ld + j * n
    ensures Fits(len, o, ld, m, n)
  {
    MulMono(i + 1, rows, m);
    MulMono(j + 1, cols, n);
    FitsSub(len, so, ld, rows * m, cols * n, i * m, j * n, m, n);
  }

  lemma BlockFits(len: nat, o: nat, m: nat, n: nat)
    requires o + m * n <= len && m > 0
    ensures Fits(len, o, n, m, n)
  {
    assert (m - 1) * n + n == m * n;
  }

  lemma PackedStep(t0: seq<int>, t: seq<int>, src: View, rows: nat, cols: nat, m: nat, n: nat, i: nat, j: nat)
    requires m > 0 && n > 0 && i < rows && j < cols && |t| == |t0| == (rows * cols) * (m * n)
    requires Packed(t0, src, cols, i, j, m, n)
    requires Copied(t0, t, Part(src, i, j, m, n), Win(Blk(cols, i, j, m * n), n, m, n), m, 0)
    ensures Packed(t, src, cols, i, j + 1, m, n)
  {
    BlkFits(rows, cols, i, j, m * n);
    RepackedBlock(t0, t, Part(src, i, j, m, n), Blk(cols, i, j, m * n), m, n);
    hide Copied, Blk;
    forall u: nat, v: nat | v < cols && (u < i || (u == i && v < j + 1))
      ensures SameBlock(Pack(t, cols, u, v, m, n), Part(src, u, v, m, n), m, n)
    {
      if u != i || v != j {
        BlkFits(rows, cols, u, v, m * n);
        OtherBlockStays(t0, t, Part(src, i, j, m, n), cols, i, j, u, v, m, n);
        assert SameBlock(Pack(t0, cols, u, v, m, n), Part(src, u, v, m, n), m, n);
        SameTrans(Pack(t, cols, u, v, m, n), Pack(t0, cols, u, v, m, n), Part(src, u, v, m, n), m, n);
      }
    }
  }

  lemma SameTrans(a: View, b: View, c: View, m: nat, n: nat)
    requires SameBlock(a, b, m, n) && SameBlock(b, c, m, n)
    ensures SameBlock(a, c, m, n)
  {
    hide View.Get;
  }

  /** The product of equal blocks adds the same. */
  lemma AddSame(a: View, b: View, a': View, b': View, p: nat, w: Win, x: nat)
    requires SameBlock(a, a', w.m, p) && SameBlock(b, b', p, w.n)
    ensures Add(a, b, p, w, x) == Add(a', b', p, w, x)
  {
    if w.Has(x) {
      var i, j := w.Row(x), w.Col(x);
      forall k: nat | k < p
        ensures a.Down(i).Get(0, k) == a'.Down(i).Get(0, k) && b.Right(j).Get(k, 0) == b'.Right(j).Get(k, 0)
      {
        assert a.Get(i, k) == a'.Get(i, k) && b.Get(k, j) == b'.Get(k, j);
      }
      DotSame(a.Down(i), b.Right(j), a'.Down(i), b'.Right(j), p);
    }
  }

  lemma AddedSame(c0: seq<int>, c: seq<int>, a: View, b: View, a': View, b': View, p: nat, w: Win)
    requires SameBlock(a, a', w.m, p) && SameBlock(b, b', p, w.n) && Added(c0, c, a, b, p, w)
    ensures Added(c0, c, a', b', p, w)
  {
    hide SameBlock, Add;
    forall x: nat | x < |c| ensures c[x] == c0[x] + Add(a', b', p, w, x) {
      AddSame(a, b, a', b', p, w, x);
    }
  }

  // ------------------------------------------------- the matrix in two buffers

  /** Where element `x` of the area of whole blocks sits in the packed buffer. */
  function Loc(area: Win, cols: nat, x: nat): nat {
    var i, j := area.Row(x), area.Col(x);
    Blk(cols, i / CBM, j / CBN, CBM * CBN) + i % CBM * CBN + j % CBN
  }

  /** The content of C while its whole blocks are packed in `c1`. */
  function Virtual(c: seq<int>, c1: seq<int>, area: Win, cols: nat): (v: seq<int>)
    ensures |v| == |c|
  {
    seq(|c|, x requires 0 <= x < |c| => if area.Has(x) then At(c1, Loc(area, cols, x)) else c[x])
  }

  /** Element `x` of the area, seen from block (i, j): the block has it, in C and in the
      packed buffer alike, if its row and column say so. */
  lemma InBlock(area: Win, cols: nat, i: nat, j: nat, x: nat)
    requires area.Has(x) && area.n == cols * CBN <= area.ld && j < cols && (i + 1) * CBM <= area.m
    ensures var w, pw := area.Down(i * CBM, CBM).Right(j * CBN, CBN), Win(Blk(cols, i, j, CBM * CBN), CBN, CBM, CBN);
            var mine := area.Row(x) / CBM == i && area.Col(x) / CBN == j;
            && (w.Has(x) <==> mine) && (pw.Has(Loc(area, cols, x)) <==> mine)
            && (mine ==> w.Row(x) == pw.Row(Loc(area, cols, x)) == area.Row(x) % CBM)
            && (mine ==> w.Col(x) == pw.Col(Loc(area, cols, x)) == area.Col(x) % CBN)
  {
    InBlockOfC(area, cols, i, j, x);
    InPackedBlock(area, cols, i, j, x);
    hide Loc, Win.Has, Win.Row, Win.Col, Win.Down, Win.Right, Blk;
  }

  lemma InBlockOfC(area: Win, cols: nat, i: nat, j: nat, x: nat)
    requires area.Has(x) && area.n == cols * CBN <= area.ld && j < cols && (i + 1) * CBM <= area.m
    ensures var w := area.Down(i * CBM, CBM).Right(j * CBN, CBN);
            var mine := area.Row(x) / CBM == i && area.Col(x) / CBN == j;
            && (w.Has(x) <==> mine)
            && (mine ==> w.Row(x) == area.Row(x) % CBM && w.Col(x) == area.Col(x) % CBN)
  {
    MulMono(j + 1, cols, CBN);
    Submatrix(area, i * CBM, j * CBN, CBM, CBN, x);
    hide Win.Has, Win.Row, Win.Col, Win.Down, Win.Right;
  }

  lemma InPackedBlock(area: Win, cols: nat, i: nat, j: nat, x: nat)
    requires area.Has(x) && area.n == cols * CBN && j < cols
    ensures var pw := Win(Blk(cols, i, j, CBM * CBN), CBN, CBM, CBN);
            var mine := area.Row(x) / CBM == i && area.Col(x) / CBN == j;
            && (pw.Has(Loc(area, cols, x)) <==> mine)
            && (mine ==> pw.Row(Loc(area, cols, x)) == area.Row(x) % CBM)
            && (mine ==> pw.Col(Loc(area, cols, x)) == area.Col(x) % CBN)
  {
    var pw := Win(Blk(cols, i, j, CBM * CBN), CBN, CBM, CBN);
    var r, q, l := area.Row(x), area.Col(x), Loc(area, cols, x);
    var u, v := r / CBM, q / CBN;
    hide Blk, Win.Has;
    BlockWindow(pw.o, CBM, CBN, l);
    if u == i && v == j {
      WinAt(pw, r % CBM, q % CBN);
    } else if pw.Has(l) {
      BlkApart(cols, i, j, u, v, CBM * CBN, l);
    }
  }

  /** A product added to a packed block is added to the matrix. */
  lemma PackedAdds(c: seq<int>, c1: seq<int>, c1': seq<int>, area: Win, cols: nat, i: nat, j: nat,
                   a: View, b: View, p: nat)
    requires area.n == cols * CBN <= area.ld && j < cols && (i + 1) * CBM <= area.m
    requires |c1| == (area.m / CBM * cols) * (CBM * CBN) && area.m % CBM == 0
    requires Added(c1, c1', a, b, p, Win(Blk(cols, i, j, CBM * CBN), CBN, CBM, CBN))
    ensures Added(Virtual(c, c1, area, cols), Virtual(c, c1', area, cols), a, b, p,
                  area.Down(i * CBM, CBM).Right(j * CBN, CBN))
  {
    hide Add, Blk, Loc, Win.Has, Win.Row, Win.Col, Win.Down, Win.Right;
    var w := area.Down(i * CBM, CBM).Right(j * CBN, CBN);
    var v, v' := Virtual(c, c1, area, cols), Virtual(c, c1', area, cols);
    forall x: nat | x < |c| ensures v'[x] == v[x] + Add(a, b, p, w, x) {
      PackedAddsAt(area, cols, i, j, a, b, p, x);
      if area.Has(x) {
        LocBound(area, cols, x);
        assert c1'[Loc(area, cols, x)] == c1[Loc(area, cols, x)] + Add(a, b, p, w, x);
      }
    }
  }

  lemma PackedAddsAt(area: Win, cols: nat, i: nat, j: nat, a: View, b: View, p: nat, x: nat)
    requires area.n == cols * CBN <= area.ld && j < cols && (i + 1) * CBM <= area.m
    ensures Add(a, b, p, area.Down(i * CBM, CBM).Right(j * CBN, CBN), x)
         == if area.Has(x) then Add(a, b, p, Win(Blk(cols, i, j, CBM * CBN), CBN, CBM, CBN), Loc(area, cols, x)) else 0
  {
    hide Dot, Blk, Loc, Win.Has, Win.Row, Win.Col, Win.Down, Win.Right;
    if area.Has(x) {
      InBlock(area, cols, i, j, x);
    } else {
      MulMono(j + 1, cols, CBN);
      Submatrix(area, i * CBM, j * CBN, CBM, CBN, x);
    }
  }

  lemma LocBound(area: Win, cols: nat, x: nat)
    requires area.Has(x) && area.n == cols * CBN && area.m % CBM == 0
    ensures Loc(area, cols, x) < (area.m / CBM * cols) * (CBM * CBN)
  {
    var i, j := area.Row(x), area.Col(x);
    BlkFits(area.m / CBM, cols, i / CBM, j / CBN, CBM * CBN);
    hide Blk;
  }

  /** A product added outside the area is added to the matrix as it is. */
  lemma EdgeAdds(c: seq<int>, c': seq<int>, c1: seq<int>, area: Win, cols: nat, a: View, b: View, p: nat, w: Win)
    requires Added(c, c', a, b, p, w) && forall x: nat :: w.Has(x) ==> !area.Has(x)
    ensures Added(Virtual(c, c1, area, cols), Virtual(c', c1, area, cols), a, b, p, w)
  {
    hide Win.Has, Loc, Dot, Win.Row, Win.Col;
  }

  /** Right after packing nothing has changed. */
  lemma FreshlyPacked(c: seq<int>, c1: seq<int>, area: Win, cols: nat)
    requires area.n == cols * CBN <= area.ld && area.m % CBM == 0
    requires Packed(c1, View(c, area.o, area.ld), cols, area.m / CBM, 0, CBM, CBN)
    ensures Virtual(c, c1, area, cols) == c
  {
    forall x: nat | x < |c| && area.Has(x) ensures At(c1, Loc(area, cols, x)) == c[x] {
      var i, j := area.Row(x), area.Col(x);
      var u, v := i / CBM, j / CBN;
      WinOf(area, x);
      var cv := View(c, area.o, area.ld);
      assert SameBlock(Pack(c1, cols, u, v, CBM, CBN), Part(cv, u, v, CBM, CBN), CBM, CBN);
      assert Pack(c1, cols, u, v, CBM, CBN).Get(i % CBM, j % CBN) == Part(cv, u, v, CBM, CBN).Get(i % CBM, j % CBN);
      PartAt(cv, u, v, i % CBM, j % CBN);
    }
    hide Loc, Packed;
  }

  lemma PartAt(c: View, u: nat, v: nat, r: nat, q: nat)
    ensures Part(c, u, v, CBM, CBN).Get(r, q) == At(c.s, c.o + (u * CBM + r) * c.ld + v * CBN + q)
  {
    assert (u * CBM + r) * c.ld == u * CBM * c.ld + r * c.ld;
  }

  // -------------------------------------------------------------- the algorithm

  /** One call of `mm_cb`: its arguments and its three packed buffers. */
  datatype Call = Call(m: nat, n: nat, p: nat, a: array<int>, ao: nat, lda: nat, b: array<int>, bo: nat, ldb: nat,
                       c: array<int>, co: nat, ldc: nat, a1: array<int>, b1: array<int>, c1: array<int>)
  {
    ghost function A(): View reads a { View(a[..], ao, lda) }
    ghost function B(): View reads b { View(b[..], bo, ldb) }
    function W(): Win { Win(co, ldc, m, n) }
    function Area(): Win { Win(co, ldc, m / CBM * CBM, n / CBN * CBN) }
    ghost function C(): seq<int> reads c, c1 { Virtual(c[..], c1[..], Area(), n / CBN) }

    predicate Apart() {
      && a != c && b != c && a1 != c && b1 != c && c1 != c
      && a != c1 && b != c1 && a1 != c1 && b1 != c1 && a != a1 && a != b1 && b != a1 && b != b1 && a1 != b1
    }

    predicate Sizes() {
      && a1.Length == (m / CBM * (p / CBK)) * (CBM * CBK)
      && b1.Length == (p / CBK * (n / CBN)) * (CBK * CBN)
      && c1.Length == (m / CBM * (n / CBN)) * (CBM * CBN)
    }

    predicate InBounds() {
      n <= ldc && Fits(a.Length, ao, lda, m, p) && Fits(b.Length, bo, ldb, p, n) && Fits(c.Length, co, ldc, m, n)
    }

    /** The whole blocks of A and B are packed. */
    ghost predicate Ready() reads a, b, a1, b1 {
      && Sizes() && InBounds()
      && Packed(a1[..], A(), p / CBK, m / CBM, 0, CBM, CBK)
      && Packed(b1[..], B(), n / CBN, p / CBK, 0, CBK, CBN)
    }
  }

  /** The block of C at (i, j) of the whole matrix. */
  function Tile(g: Call, i: nat, j: nat): Win { g.W().Down(i * CBM, CBM).Right(j * CBN, CBN) }

  lemma AreaFits(g: Call, i: nat, j: nat)
    requires g.InBounds() && g.Sizes() && i < g.m / CBM && j < g.n / CBN
    ensures g.Area().n == g.n / CBN * CBN <= g.Area().ld && (i + 1) * CBM <= g.Area().m && g.Area().m % CBM == 0
    ensures g.c1.Length == (g.Area().m / CBM * (g.n / CBN)) * (CBM * CBN)
    ensures g.Area().Down(i * CBM, CBM).Right(j * CBN, CBN) == Tile(g, i, j)
    ensures var o := Blk(g.n / CBN, i, j, CBM * CBN); Fits(g.c1.Length, o, CBN, CBM, CBN)
  {
    BlkFits(g.m / CBM, g.n / CBN, i, j, CBM * CBN);
    hide Blk;
  }

  lemma PackedOperands(g: Call, i: nat, j: nat, k: nat)
    requires g.Ready() && i < g.m / CBM && j < g.n / CBN && k < g.p / CBK
    ensures Fits(g.a1.Length, Blk(g.p / CBK, i, k, CBM * CBK), CBK, CBM, CBK)
    ensures Fits(g.b1.Length, Blk(g.n / CBN, k, j, CBK * CBN), CBN, CBK, CBN)
    ensures SameBlock(Pack(g.a1[..], g.p / CBK, i, k, CBM, CBK), Part(g.A(), i, k, CBM, CBK), CBM, CBK)
    ensures SameBlock(Pack(g.b1[..], g.n / CBN, k, j, CBK, CBN), Part(g.B(), k, j, CBK, CBN), CBK, CBN)
  {
    hide Blk, SameBlock;
    BlkFits(g.m / CBM, g.p / CBK, i, k, CBM * CBK);
    BlkFits(g.p / CBK, g.n / CBN, k, j, CBK * CBN);
  }

  /** One product of packed blocks. */
  method AddPacked(g: Call, i: nat, j: nat, k: nat)
    requires g.Apart() && g.Ready() && i < g.m / CBM && j < g.n / CBN && k < g.p / CBK
    modifies g.c1
    ensures Added(old(g.C()), g.C(), g.A().Down(i * CBM).Right(k * CBK), g.B().Right(j * CBN).Down(k * CBK),
                  CBK, Tile(g, i, j))
  {
    hide Blk, Fits, Added, Virtual, SameBlock, Packed;
    ghost var c, c0 := g.c[..], g.c1[..];
    AreaFits(g, i, j);
    PackedOperands(g, i, j, k);
    var ak, bk, ck := Blk(g.p / CBK, i, k, CBM * CBK), Blk(g.n / CBN, k, j, CBK * CBN), Blk(g.n / CBN, i, j, CBM * CBN);
    Rb(CBM, CBN, CBK, g.a1, ak, CBK, g.b1, bk, CBN, g.c1, ck, CBN);
    PackedAdds(c, c0, g.c1[..], g.Area(), g.n / CBN, i, j, View(g.a1[..], ak, CBK), View(g.b1[..], bk, CBN), CBK);
    assert g.c[..] == c;
    AddedSame(Virtual(c, c0, g.Area(), g.n / CBN), g.C(), View(g.a1[..], ak, CBK), View(g.b1[..], bk, CBN),
              Part(g.A(), i, k, CBM, CBK), Part(g.B(), k, j, CBK, CBN), CBK, Tile(g, i, j));
  }

  /** The products of the columns of A, and rows of B, that fill no block. */
  method AddRest(g: Call, i: nat, j: nat)
    requires g.Apart() && g.Ready() && i < g.m / CBM && j < g.n / CBN
    modifies g.c1
    ensures var pb := g.p / CBK * CBK;
            Added(old(g.C()), g.C(), g.A().Down(i * CBM).Right(pb), g.B().Right(j * CBN).Down(pb), g.p - pb,
                  Tile(g, i, j))
  {
    hide Blk, Fits, Added, Virtual, SameBlock, Packed;
    ghost var c, c0 := g.c[..], g.c1[..];
    var pb, ck := g.p / CBK * CBK, Blk(g.n / CBN, i, j, CBM * CBN);
    AreaFits(g, i, j);
    FitsSub(g.a.Length, g.ao, g.lda, g.m, g.p, i * CBM, pb, CBM, g.p - pb);
    FitsSub(g.b.Length, g.bo, g.ldb, g.p, g.n, pb, j * CBN, g.p - pb, CBN);
    Rb(CBM, CBN, g.p - pb, g.a, g.ao + i * CBM * g.lda + pb, g.lda,
       g.b, g.bo + pb * g.ldb + j * CBN, g.ldb, g.c1, ck, CBN);
    PackedAdds(c, c0, g.c1[..], g.Area(), g.n / CBN, i, j,
               View(g.a[..], g.ao + i * CBM * g.lda + pb, g.lda),
               View(g.b[..], g.bo + pb * g.ldb + j * CBN, g.ldb), g.p - pb);
    assert g.c[..] == c;
  }

  /** A whole block of C. */
  method AddBlock(g: Call, i: nat, j: nat)
    requires g.Apart() && g.Ready() && i < g.m / CBM && j < g.n / CBN
    modifies g.c1
    ensures Added(old(g.C()), g.C(), g.A().Down(i * CBM), g.B().Right(j * CBN), g.p, Tile(g, i, j))
  {
    hide Added, Virtual, Call.Ready;
    ghost var c0, av, bv := g.C(), g.A().Down(i * CBM), g.B().Right(j * CBN);
    AddedNothing(c0, av, bv, 0, Tile(g, i, j));
    for k := 0 to g.p / CBK
      invariant g.Ready() && av == g.A().Down(i * CBM) && bv == g.B().Right(j * CBN)
      invariant Added(c0, g.C(), av, bv, k * CBK, Tile(g, i, j))
    {
      ghost var ck := g.C();
      AddPacked(g, i, j, k);
      AddedInner(c0, ck, g.C(), av, bv, k * CBK, CBK, Tile(g, i, j));
    }
    if g.p / CBK * CBK < g.p {
      ghost var ck := g.C();
      AddRest(g, i, j);
      AddedInner(c0, ck, g.C(), av, bv, g.p / CBK * CBK, g.p - g.p / CBK * CBK, Tile(g, i, j));
    }
  }

  function Min(x: nat, y: nat): nat { if x < y then x else y }

  /** Positions right of the whole blocks, or below them, are not in the packed area. */
  lemma OutsideArea(g: Call, i: nat, j: nat, m: nat, n: nat)
    requires g.n <= g.ldc && i + m <= g.m && j + n <= g.n
    requires g.m / CBM * CBM <= i || g.n / CBN * CBN <= j
    ensures forall x: nat :: g.W().Down(i, m).Right(j, n).Has(x) ==> !g.Area().Has(x)
  {
    forall x: nat | g.W().Down(i, m).Right(j, n).Has(x) ensures !g.Area().Has(x) {
      Submatrix(g.W(), i, j, m, n, x);
      hide Quot, Rem;
    }
  }

  /** One product at the right or lower edge, on C itself. */
  method AddEdge(g: Call, i: nat, j: nat, k: nat, m: nat, n: nat, p: nat)
    requires g.Apart() && g.InBounds() && i + m <= g.m && j + n <= g.n && k + p <= g.p
    requires g.m / CBM * CBM <= i || g.n / CBN * CBN <= j
    modifies g.c
    ensures Added(old(g.C()), g.C(), g.A().Down(i).Right(k), g.B().Right(j).Down(k), p, g.W().Down(i, m).Right(j, n))
  {
    hide Fits, Added, Virtual, Win.Has;
    ghost var c0, c1, w := g.c[..], g.c1[..], g.W().Down(i, m).Right(j, n);
    ghost var av, bv := g.A().Down(i).Right(k), g.B().Right(j).Down(k);
    FitsSub(g.a.Length, g.ao, g.lda, g.m, g.p, i, k, m, p);
    FitsSub(g.b.Length, g.bo, g.ldb, g.p, g.n, k, j, p, n);
    FitsSub(g.c.Length, g.co, g.ldc, g.m, g.n, i, j, m, n);
    OutsideArea(g, i, j, m, n);
    var ai, bi, ci := g.ao + i * g.lda + k, g.bo + k * g.ldb + j, g.co + i * g.ldc + j;
    assert av == View(g.a[..], ai, g.lda) && bv == View(g.b[..], bi, g.ldb) && w == Win(ci, g.ldc, m, n);
    RbOn(g, m, n, p, ai, bi, ci);
    EdgeAdds(c0, g.c[..], c1, g.Area(), g.n / CBN, av, bv, p, w);
  }

  /** `Rb` on the matrices of the call, which leaves the packed blocks alone. */
  method RbOn(g: Call, m: nat, n: nat, p: nat, ai: nat, bi: nat, ci: nat)
    requires g.Apart() && Operands(g.a, ai, g.lda, g.b, bi, g.ldb, g.c, ci, g.ldc, m, n, p)
    modifies g.c
    ensures Added(old(g.c[..]), g.c[..], View(g.a[..], ai, g.lda), View(g.b[..], bi, g.ldb), p, Win(ci, g.ldc, m, n))
    ensures g.a[..] == old(g.a[..]) && g.b[..] == old(g.b[..]) && g.c1[..] == old(g.c1[..])
  {
    hide Fits, Added;
    Rb(m, n, p, g.a, ai, g.lda, g.b, bi, g.ldb, g.c, ci, g.ldc);
  }

  /** A strip of the edge, `CBK` terms at a time. */
  method AddStrip(g: Call, i: nat, j: nat, m: nat, n: nat)
    requires g.Apart() && g.InBounds() && i + m <= g.m && j + n <= g.n
    requires g.m / CBM * CBM <= i || g.n / CBN * CBN <= j
    modifies g.c
    ensures Added(old(g.C()), g.C(), g.A().Down(i), g.B().Right(j), g.p, g.W().Down(i, m).Right(j, n))
  {
    hide Added, Virtual, Fits;
    ghost var c0, av, bv, w := g.C(), g.A().Down(i), g.B().Right(j), g.W().Down(i, m).Right(j, n);
    AddedNothing(c0, av, bv, 0, w);
    var k := 0;
    while k < g.p
      invariant av == g.A().Down(i) && bv == g.B().Right(j)
      invariant Added(c0, g.C(), av, bv, Min(k, g.p), w)
    {
      ghost var ck := g.C();
      AddEdge(g, i, j, k, m, n, Min(g.p - k, CBK));
      AddedInner(c0, ck, g.C(), av, bv, k, Min(g.p - k, CBK), w);
      k := k + CBK;
    }
  }

  /** The rows of one row of blocks. */
  method AddBand(g: Call, i: nat)
    requires g.Apart() && g.Ready() && i < g.m / CBM
    modifies g.c, g.c1
    ensures Added(old(g.C()), g.C(), g.A().Down(i * CBM), g.B(), g.p, g.W().Down(i * CBM, CBM))
  {
    hide Added, Virtual, Call.Ready, Fits;
    ReadyInBounds(g);
    ghost var c0, av, bv, w := g.C(), g.A().Down(i * CBM), g.B(), g.W().Down(i * CBM, CBM);
    AddedNothing(c0, av, bv, g.p, w.Cols(0));
    for j := 0 to g.n / CBN
      invariant g.Ready() && av == g.A().Down(i * CBM) && bv == g.B()
      invariant Added(c0, g.C(), av, bv, g.p, w.Cols(j * CBN))
    {
      ghost var cj := g.C();
      AddBlock(g, i, j);
      AddedCols(c0, cj, g.C(), av, bv, g.p, w.Cols((j + 1) * CBN), j * CBN, CBN);
    }
    if g.n / CBN * CBN < g.n {
      ghost var cj := g.C();
      AddStrip(g, i * CBM, g.n / CBN * CBN, CBM, g.n - g.n / CBN * CBN);
      AddedCols(c0, cj, g.C(), av, bv, g.p, w, g.n / CBN * CBN, g.n - g.n / CBN * CBN);
    }
  }

  lemma ReadyInBounds(g: Call)
    requires g.Ready()
    ensures g.InBounds()
  {
  }

  /** The rows below the last whole block. */
  method AddBottom(g: Call)
    requires g.Apart() && g.InBounds()
    modifies g.c
    ensures var mb := g.m / CBM * CBM;
            Added(old(g.C()), g.C(), g.A().Down(mb), g.B(), g.p, g.W().Down(mb, g.m - mb))
  {
    hide Added, Virtual, Fits;
    var mb := g.m / CBM * CBM;
    ghost var c0, av, bv, w := g.C(), g.A().Down(mb), g.B(), g.W().Down(mb, g.m - mb);
    AddedNothing(c0, av, bv, g.p, w.Cols(0));
    var j := 0;
    while j < g.n
      invariant av == g.A().Down(mb) && bv == g.B()
      invariant Added(c0, g.C(), av, bv, g.p, w.Cols(Min(j, g.n)))
    {
      ghost var cj, t := g.C(), Min(g.n - j, CBN);
      AddStrip(g, mb, j, g.m - mb, Min(g.n - j, CBN));
      AddedCols(c0, cj, g.C(), av, bv, g.p, w.Cols(j + t), j, t);
      j := j + CBN;
    }
  }

  /** All products: every row of blocks, and the rows below. */
  method AddAll(g: Call)
    requires g.Apart() && g.Ready()
    modifies g.c, g.c1
    ensures Added(old(g.C()), g.C(), g.A(), g.B(), g.p, g.W())
  {
    hide Added, Virtual, Call.Ready, Fits;
    ReadyInBounds(g);
    ghost var c0, av, bv, w := g.C(), g.A(), g.B(), g.W();
    AddedNothing(c0, av, bv, g.p, w.Rows(0));
    for i := 0 to g.m / CBM
      invariant g.Ready() && av == g.A() && bv == g.B()
      invariant Added(c0, g.C(), av, bv, g.p, w.Rows(i * CBM))
    {
      ghost var ci := g.C();
      AddBand(g, i);
      AddedRows(c0, ci, g.C(), av, bv, g.p, w.Rows((i + 1) * CBM), i * CBM, CBM);
    }
    if g.m / CBM * CBM < g.m {
      ghost var ci := g.C();
      AddBottom(g);
      AddedRows(c0, ci, g.C(), av, bv, g.p, w, g.m / CBM * CBM, g.m - g.m / CBM * CBM);
    }
  }

  // ------------------------------------------------------------------- unpacking

  /** The blocks of C before (i, j) are back in C, which held `c0` before. */
  ghost predicate Unpacked(c0: seq<int>, c: seq<int>, c1: seq<int>, area: Win, cols: nat, i: nat, j: nat) {
    |c| == |c0| && forall x: nat :: x < |c| ==>
      c[x] == if area.Has(x) && BlockBefore(area, x, i, j) then At(c1, Loc(area, cols, x)) else c0[x]
  }

  predicate BlockBefore(area: Win, x: nat, i: nat, j: nat) {
    area.Row(x) / CBM < i || (area.Row(x) / CBM == i && area.Col(x) / CBN < j)
  }

  lemma UnpackStep(c0: seq<int>, c: seq<int>, c': seq<int>, c1: seq<int>, area: Win, cols: nat, i: nat, j: nat)
    requires area.n == cols * CBN <= area.ld && j < cols && (i + 1) * CBM <= area.m
    requires Unpacked(c0, c, c1, area, cols, i, j)
    requires Copied(c, c', Pack(c1, cols, i, j, CBM, CBN), area.Down(i * CBM, CBM).Right(j * CBN, CBN), CBM, 0)
    ensures Unpacked(c0, c', c1, area, cols, i, j + 1)
  {
    hide Loc, Blk, Win.Has, Win.Row, Win.Col, Win.Down, Win.Right, View.Get;
    var w := area.Down(i * CBM, CBM).Right(j * CBN, CBN);
    forall x: nat | x < |c'|
      ensures c'[x] == if area.Has(x) && BlockBefore(area, x, i, j + 1) then At(c1, Loc(area, cols, x)) else c0[x]
    {
      UnpackOne(area, cols, i, j, c1, x);
    }
  }

  lemma UnpackOne(area: Win, cols: nat, i: nat, j: nat, c1: seq<int>, x: nat)
    requires area.n == cols * CBN <= area.ld && j < cols && (i + 1) * CBM <= area.m
    ensures var w := area.Down(i * CBM, CBM).Right(j * CBN, CBN);
            && (Reached(w, x, CBM, 0) <==> area.Has(x) && area.Row(x) / CBM == i && area.Col(x) / CBN == j)
            && (Reached(w, x, CBM, 0) ==>
                  Pack(c1, cols, i, j, CBM, CBN).Get(w.Row(x), w.Col(x)) == At(c1, Loc(area, cols, x)))
  {
    MulMono(j + 1, cols, CBN);
    Submatrix(area, i * CBM, j * CBN, CBM, CBN, x);
    if area.Has(x) { InBlockOfC(area, cols, i, j, x); }
    hide Blk, Quot, Rem, Win.Down, Win.Right;
  }

  method UnpackBlocks(g: Call)
    requires g.Apart() && g.InBounds() && g.Sizes()
    modifies g.c
    ensures g.c[..] == old(g.C())
  {
    hide Unpacked, Copied, Virtual, Blk, Fits;
    ghost var c0, c1, area, cols := g.c[..], g.c1[..], g.Area(), g.n / CBN;
    UnpackedNone(c0, c1, area, cols);
    for i := 0 to g.m / CBM
      invariant g.c1[..] == c1 && Unpacked(c0, g.c[..], c1, area, cols, i, 0)
    {
      for j := 0 to g.n / CBN
        invariant g.c1[..] == c1 && Unpacked(c0, g.c[..], c1, area, cols, i, j)
      {
        ghost var cj := g.c[..];
        AreaFits(g, i, j);
        FitsSub(g.c.Length, g.co, g.ldc, g.m, g.n, i * CBM, j * CBN, CBM, CBN);
        Repack(g.c, g.co + i * CBM * g.ldc + j * CBN, g.ldc, g.c1, Blk(g.n / CBN, i, j, CBM * CBN), CBN, CBM, CBN);
        UnpackStep(c0, cj, g.c[..], c1, area, cols, i, j);
      }
      UnpackedRow(c0, g.c[..], c1, area, cols, i);
    }
    UnpackedAll(c0, g.c[..], c1, area, cols, g.m / CBM);
  }

  lemma UnpackedNone(c: seq<int>, c1: seq<int>, area: Win, cols: nat)
    ensures Unpacked(c, c, c1, area, cols, 0, 0)
  {
    hide Loc, Win.Has, Win.Row, Win.Col;
  }

  lemma UnpackedRow(c0: seq<int>, c: seq<int>, c1: seq<int>, area: Win, cols: nat, i: nat)
    requires Unpacked(c0, c, c1, area, cols, i, cols) && area.n == cols * CBN
    ensures Unpacked(c0, c, c1, area, cols, i + 1, 0)
  {
    hide Loc, Win.Row, Quot, Rem;
  }

  lemma UnpackedAll(c0: seq<int>, c: seq<int>, c1: seq<int>, area: Win, cols: nat, rows: nat)
    requires Unpacked(c0, c, c1, area, cols, rows, 0) && area.m == rows * CBM
    ensures c == Virtual(c0, c1, area, cols)
  {
    hide Loc, Win.Row, Quot, Rem;
  }

  // ------------------------------------------------------------------ the result

  /** The multiply of a large matrix. */
  method Cb(m: nat, n: nat, p: nat, a: array<int>, ao: nat, lda: nat,
            b: array<int>, bo: nat, ldb: nat, c: array<int>, co: nat, ldc: nat)
    requires Operands(a, ao, lda, b, bo, ldb, c, co, ldc, m, n, p)
    modifies c
    ensures Added(old(c[..]), c[..], View(a[..], ao, lda), View(b[..], bo, ldb), p, Win(co, ldc, m, n))
  {
    hide Added, Virtual, Packed, Fits;
    var nmb, nnb, npb := m / CBM, n / CBN, p / CBK;
    var a1 := new int[(nmb * npb) * (CBM * CBK)];
    var b1 := new int[(npb * nnb) * (CBK * CBN)];
    var c1 := new int[(nmb * nnb) * (CBM * CBN)];
    ghost var c0, av, bv := c[..], View(a[..], ao, lda), View(b[..], bo, ldb);
    FitsSub(a.Length, ao, lda, m, p, 0, 0, nmb * CBM, npb * CBK);
    FitsSub(b.Length, bo, ldb, p, n, 0, 0, npb * CBK, nnb * CBN);
    FitsSub(c.Length, co, ldc, m, n, 0, 0, nmb * CBM, nnb * CBN);
    PackBlocks(a1, a, ao, lda, nmb, npb, CBM, CBK);
    PackBlocks(b1, b, bo, ldb, npb, nnb, CBK, CBN);
    PackBlocks(c1, c, co, ldc, nmb, nnb, CBM, CBN);
    var g := Call(m, n, p, a, ao, lda, b, bo, ldb, c, co, ldc, a1, b1, c1);
    assert c[..] == c0 && g.A() == av && g.B() == bv;
    FreshlyPacked(c0, c1[..], g.Area(), nnb);
    AddAll(g);
    UnpackBlocks(g);
  }

  /** c += a * b for matrices of any size: inside the m x n window of C every element
      grows by its inner product, and nothing else changes. */
  method Mm(m: nat, n: nat, p: nat, a: array<int>, ao: nat, lda: nat,
            b: array<int>, bo: nat, ldb: nat, c: array<int>, co: nat, ldc: nat)
    requires Operands(a, ao, lda, b, bo, ldb, c, co, ldc, m, n, p)
    modifies c
    ensures Added(old(c[..]), c[..], View(a[..], ao, lda), View(b[..], bo, ldb), p, Win(co, ldc, m, n))
  {
    if m <= 2 * CBM && n <= 2 * CBN && p <= 2 * CBK {
      Rb(m, n, p, a, ao, lda, b, bo, ldb, c, co, ldc);
    } else {
      Cb(m, n, p, a, ao, lda, b, bo, ldb, c, co, ldc);
    }
  }
}
