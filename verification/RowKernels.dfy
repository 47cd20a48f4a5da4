/** `mt/bs_matmul.c` and `mt/ds_matmul.c`: each core adds the terms of its own rows of the
    product to C in place, four rows at a time. */
module RowKernels {
  import opened Arith
  import opened Matrix
  import opened MatView
  import opened BlockedMatmul

  /** How many terms each element of C has got, row by row. */
  type Terms = seq<seq<nat>>

  ghost predicate Square(lda: nat, t: Terms) { |t| == lda && forall r :: 0 <= r < lda ==> |t[r]| == lda }

  /** Every element has grown by that many terms of its inner product. */
  ghost predicate Grown(c0: seq<int>, c: seq<int>, a: seq<int>, b: seq<int>, lda: nat, t: Terms) {
    && Square(lda, t) && |c| == |c0| == lda * lda
    && forall r: nat, q: nat :: r < lda && q < lda ==>
         At(c, Cell(lda, r, q)) == At(c0, Cell(lda, r, q)) + Dot(a, Cell(lda, r, 0), b, q, lda, t[r][q])
  }

  predicate Arrays(lda: nat, a: array<int>, b: array<int>, c: array<int>) {
    a != c && b != c && a.Length == b.Length == lda * lda
  }

  /** One more term for the element in row `j`, column `i`. */
  function More(t: Terms, j: nat, i: nat): Terms
    requires j < |t| && i < |t[j]|
  {
    var row: seq<nat> := t[j][i := t[j][i] + 1];
    t[j := row]
  }

  lemma CellsApart(lda: nat, r: nat, q: nat, r': nat, q': nat)
    requires q < lda && q' < lda && Cell(lda, r, q) == Cell(lda, r', q')
    ensures r == r' && q == q'
  {
    DivModUnique(Cell(lda, r, q), lda, r, q);
    DivModUnique(Cell(lda, r, q), lda, r', q');
  }

  lemma GrownStep(c0: seq<int>, c: seq<int>, a: seq<int>, b: seq<int>, lda: nat, t: Terms, j: nat, i: nat)
    requires Grown(c0, c, a, b, lda, t) && j < lda && i < lda && Cell(lda, j, i) < |c|
    ensures var k := t[j][i];
            var term := At(a, Cell(lda, j, 0) + k) * At(b, i + k * lda);
            Grown(c0, c[Cell(lda, j, i) := c[Cell(lda, j, i)] + term], a, b, lda, More(t, j, i))
  {
    var k, x := t[j][i], Cell(lda, j, i);
    var c' := c[x := c[x] + At(a, Cell(lda, j, 0) + k) * At(b, i + k * lda)];
    var t' := More(t, j, i);
    DotStep(a, Cell(lda, j, 0), b, i, lda, k);
    hide Dot;
    forall r: nat, q: nat | r < lda && q < lda
      ensures At(c', Cell(lda, r, q)) == At(c0, Cell(lda, r, q)) + Dot(a, Cell(lda, r, 0), b, q, lda, t'[r][q])
    {
      if r != j || q != i {
        if Cell(lda, r, q) == x { CellsApart(lda, r, q, j, i); }
        assert t'[r][q] == t[r][q];
      }
    }
    hide Cell;
  }

  /** `C[i + j*lda] += A[j*lda + k] * B[k*lda + i]` */
  method AddTerm(lda: nat, a: array<int>, b: array<int>, c: array<int>, j: nat, i: nat, k: nat,
                 ghost c0: seq<int>, ghost t: Terms) returns (ghost t': Terms)
    requires Arrays(lda, a, b, c) && j < lda && i < lda && k < lda
    requires Grown(c0, c[..], a[..], b[..], lda, t) && t[j][i] == k
    modifies c
    ensures t' == More(t, j, i)
    ensures Grown(c0, c[..], a[..], b[..], lda, t')
  {
    hide Dot, Grown;
    GrownSize(c0, c[..], a[..], b[..], lda, t);
    CellBound(lda, j, i);
    CellBound(lda, j, k);
    CellBound(lda, k, i);
    ghost var as_, bs, cs := a[..], b[..], c[..];
    GrownStep(c0, cs, as_, bs, lda, t, j, i);
    c[j * lda + i] := c[j * lda + i] + a[j * lda + k] * b[k * lda + i];
    assert a[..] == as_ && b[..] == bs;
    t' := More(t, j, i);
  }

  lemma GrownSize(c0: seq<int>, c: seq<int>, a: seq<int>, b: seq<int>, lda: nat, t: Terms)
    requires Grown(c0, c, a, b, lda, t)
    ensures Square(lda, t) && |c| == lda * lda
  {
  }

  // --------------------------------------------------------------- groups of four rows

  /** The rows of the group have the counts `row`, the others those of `t0`. */
  ghost predicate GroupAt(t: Terms, t0: Terms, lda: nat, rows: seq<nat>, row: seq<nat>) {
    && Square(lda, t0) && |t| == lda && |row| == lda && |rows| == 4
    && (forall u, v :: 0 <= u < v < 4 ==> rows[u] != rows[v])
    && (forall u :: 0 <= u < 4 ==> rows[u] < lda)
    && forall r :: 0 <= r < lda ==> t[r] == if r in rows then row else t0[r]
  }

  /** One term for column `i` of all four rows. */
  method AddFour(lda: nat, a: array<int>, b: array<int>, c: array<int>, rows: seq<nat>, i: nat, k: nat,
                 ghost c0: seq<int>, ghost t0: Terms, ghost t: Terms, ghost row: seq<nat>)
    returns (ghost t': Terms, ghost row': seq<nat>)
    requires Arrays(lda, a, b, c) && i < lda && k < lda
    requires Grown(c0, c[..], a[..], b[..], lda, t) && GroupAt(t, t0, lda, rows, row) && row[i] == k
    modifies c
    ensures row' == row[i := k + 1] && GroupAt(t', t0, lda, rows, row')
    ensures Grown(c0, c[..], a[..], b[..], lda, t')
  {
    hide Grown;
    ghost var as_, bs := a[..], b[..];
    ghost var t1 := AddTerm(lda, a, b, c, rows[0], i, k, c0, t);
    ghost var t2 := AddTerm(lda, a, b, c, rows[1], i, k, c0, t1);
    ghost var t3 := AddTerm(lda, a, b, c, rows[2], i, k, c0, t2);
    t' := AddTerm(lda, a, b, c, rows[3], i, k, c0, t3);
    row' := row[i := k + 1];
    GroupStep(t, t', t0, lda, rows, row, i);
  }

  lemma GroupStep(t: Terms, t': Terms, t0: Terms, lda: nat, rows: seq<nat>, row: seq<nat>, i: nat)
    requires GroupAt(t, t0, lda, rows, row) && i < lda
    requires t' == More(More(More(More(t, rows[0], i), rows[1], i), rows[2], i), rows[3], i)
    ensures GroupAt(t', t0, lda, rows, row[i := row[i] + 1])
  {
  }

  /** The elements before column `i` have `hi` terms, the others `lo`. */
  ghost predicate Split(row: seq<nat>, lda: nat, i: nat, lo: nat, hi: nat) {
    |row| == lda && forall q :: 0 <= q < lda ==> row[q] == if q < i then hi else lo
  }

  ghost predicate Group(lda: nat, rows: seq<nat>) {
    && |rows| == 4 && (forall u, v :: 0 <= u < v < 4 ==> rows[u] != rows[v])
    && (forall u :: 0 <= u < 4 ==> rows[u] < lda)
  }

  /** Each row of `rows` has no terms yet, or all of them. */
  ghost predicate AllRows(t: Terms, lda: nat, rows: seq<nat>, k: nat) {
    Square(lda, t) && forall r :: 0 <= r < lda && r in rows ==> Split(t[r], lda, 0, k, k)
  }

  /** Four rows, `step` terms at a time: the loops over k and i. */
  method AddGroup(lda: nat, a: array<int>, b: array<int>, c: array<int>, rows: seq<nat>, step: nat,
                  ghost c0: seq<int>, ghost t0: Terms) returns (ghost t: Terms)
    requires Arrays(lda, a, b, c) && Group(lda, rows)
    requires step == 1 || (step == 2 && lda % 2 == 0)
    requires Grown(c0, c[..], a[..], b[..], lda, t0) && AllRows(t0, lda, rows, 0)
    modifies c
    ensures Grown(c0, c[..], a[..], b[..], lda, t) && AllRows(t, lda, rows, lda)
    ensures forall r :: 0 <= r < lda && r !in rows ==> t[r] == t0[r]
  {
    hide Grown, GroupAt, AllRows, Split, Group, Square, Arrays;
    GroupStart(t0, lda, rows);
    ghost var row: seq<nat> := t0[rows[0]];
    t := t0;
    var k: nat := 0;
    while k < lda
      invariant k <= lda && (step == 2 ==> k % 2 == 0)
      invariant Grown(c0, c[..], a[..], b[..], lda, t) && GroupAt(t, t0, lda, rows, row) && Split(row, lda, 0, k, k)
    {
      t, row := AddTermRow(lda, a, b, c, rows, k, step, c0, t0, t, row);
      k := k + step;
    }
    GroupEnd(t, t0, lda, rows, row);
  }

  /** The loop over i. */
  method AddTermRow(lda: nat, a: array<int>, b: array<int>, c: array<int>, rows: seq<nat>, k: nat, step: nat,
                    ghost c0: seq<int>, ghost t0: Terms, ghost t: Terms, ghost row: seq<nat>)
    returns (ghost t': Terms, ghost row': seq<nat>)
    requires Arrays(lda, a, b, c)
    requires (step == 1 || step == 2) && k + step <= lda
    requires Grown(c0, c[..], a[..], b[..], lda, t) && GroupAt(t, t0, lda, rows, row) && Split(row, lda, 0, k, k)
    modifies c
    ensures Grown(c0, c[..], a[..], b[..], lda, t') && GroupAt(t', t0, lda, rows, row')
    ensures Split(row', lda, 0, k + step, k + step)
  {
    hide Grown, GroupAt, Split, Arrays;
    t', row' := t, row;
    SplitTurn(row', lda, k, k + step);
    for i := 0 to lda
      invariant Grown(c0, c[..], a[..], b[..], lda, t') && GroupAt(t', t0, lda, rows, row')
      invariant Split(row', lda, i, k, k + step)
    {
      t', row' := AddColumn(lda, a, b, c, rows, i, k, step, c0, t0, t', row');
    }
    SplitTurn(row', lda, k, k + step);
  }

  lemma SplitTurn(row: seq<nat>, lda: nat, lo: nat, hi: nat)
    ensures Split(row, lda, 0, lo, lo) ==> Split(row, lda, 0, lo, hi)
    ensures Split(row, lda, lda, lo, hi) ==> Split(row, lda, 0, hi, hi)
  {
  }

  /** The body of the innermost loop: one term for column `i`, or two. */
  method AddColumn(lda: nat, a: array<int>, b: array<int>, c: array<int>, rows: seq<nat>, i: nat, k: nat, step: nat,
                   ghost c0: seq<int>, ghost t0: Terms, ghost t: Terms, ghost row: seq<nat>)
    returns (ghost t': Terms, ghost row': seq<nat>)
    requires Arrays(lda, a, b, c)
    requires i < lda && (step == 1 || step == 2) && k + step <= lda
    requires Grown(c0, c[..], a[..], b[..], lda, t) && GroupAt(t, t0, lda, rows, row) && Split(row, lda, i, k, k + step)
    modifies c
    ensures Grown(c0, c[..], a[..], b[..], lda, t') && GroupAt(t', t0, lda, rows, row')
    ensures Split(row', lda, i + 1, k, k + step)
  {
    hide Grown, GroupAt, Arrays;
    t', row' := AddFour(lda, a, b, c, rows, i, k, c0, t0, t, row);
    if step == 2 {
      t', row' := AddFour(lda, a, b, c, rows, i, k + 1, c0, t0, t', row');
    }
  }

  lemma GroupStart(t0: Terms, lda: nat, rows: seq<nat>)
    requires Group(lda, rows) && AllRows(t0, lda, rows, 0)
    ensures |rows| == 4 && rows[0] < |t0| == lda
    ensures GroupAt(t0, t0, lda, rows, t0[rows[0]]) && Split(t0[rows[0]], lda, 0, 0, 0)
  {
    assert rows[0] in rows;
    forall r | 0 <= r < lda && r in rows ensures t0[r] == t0[rows[0]] {
      assert forall q :: 0 <= q < lda ==> t0[r][q] == t0[rows[0]][q];
    }
  }

  lemma GroupEnd(t: Terms, t0: Terms, lda: nat, rows: seq<nat>, row: seq<nat>)
    requires GroupAt(t, t0, lda, rows, row) && Split(row, lda, 0, lda, lda)
    ensures AllRows(t, lda, rows, lda) && |t| == lda
    ensures forall r :: 0 <= r < lda && r !in rows ==> t[r] == t0[r]
  {
  }

  // ------------------------------------------------------------------------ the cores

  /** The rows in `done` have all their terms, the others none. */
  ghost predicate Done(t: Terms, lda: nat, done: set<nat>) {
    Square(lda, t) && forall r: nat :: r < lda ==>
      var k := if r in done then lda else 0; Split(t[r], lda, 0, k, k)
  }

  function Members(rows: seq<nat>): set<nat> { set r | r in rows }

  lemma DoneStep(t: Terms, t': Terms, lda: nat, done: set<nat>, rows: seq<nat>)
    requires Done(t, lda, done) && AllRows(t', lda, rows, lda)
    requires forall r :: 0 <= r < lda && r !in rows ==> t'[r] == t[r]
    ensures Done(t', lda, done + Members(rows))
  {
    hide Split;
  }

  lemma DoneRows(t: Terms, lda: nat, done: set<nat>, rows: seq<nat>)
    requires Done(t, lda, done) && forall r :: r in rows ==> r !in done
    ensures AllRows(t, lda, rows, 0)
  {
    hide Split;
  }

  /** What the core of `bs_matmul.c` works on: rows `ncores` apart. */
  function Strided(lda: nat, ncores: nat, core: nat, upTo: nat): set<nat>
    requires ncores > 0
  {
    set r: nat | r < lda && r < upTo && Mine(ncores, core, r)
  }

  predicate Mine(ncores: nat, core: nat, r: nat)
    requires ncores > 0
  {
    r % ncores == core
  }

  method StridedCore(coreid: nat, ncores: nat, lda: nat, a: array<int>, b: array<int>, c: array<int>,
                     ghost c0: seq<int>, ghost t0: Terms, ghost done: set<nat>) returns (ghost t: Terms)
    requires Arrays(lda, a, b, c) && coreid < ncores && lda % (4 * ncores) == 0
    requires Grown(c0, c[..], a[..], b[..], lda, t0) && Done(t0, lda, done)
    requires done !! Strided(lda, ncores, coreid, lda)
    modifies c
    ensures Grown(c0, c[..], a[..], b[..], lda, t) && Done(t, lda, done + Strided(lda, ncores, coreid, lda))
  {
    hide Grown, Done, AllRows, Group, Strided, Members, Arrays;
    t := t0;
    ghost var mine: set<nat> := {};
    var j: nat := coreid;
    StridedStart(lda, ncores, coreid);
    DivModUnique(0, 4 * ncores, 0, 0);
    assert done + mine == done;
    while j < lda
      invariant j % ncores == coreid && (j - coreid) % (4 * ncores) == 0
      invariant mine == Strided(lda, ncores, coreid, j)
      invariant Grown(c0, c[..], a[..], b[..], lda, t) && Done(t, lda, done + mine)
      decreases lda - j
    {
      var rows: seq<nat> := [j, j + 1 * ncores, j + 2 * ncores, j + 3 * ncores];
      StridedStep(lda, ncores, coreid, j);
      DoneRows(t, lda, done + mine, rows);
      ghost var t1 := t;
      t := AddGroup(lda, a, b, c, rows, 1, c0, t1);
      DoneStep(t1, t, lda, done + mine, rows);
      assert (done + mine) + Members(rows) == done + (mine + Members(rows));
      mine := mine + Members(rows);
      j := j + 4 * ncores;
    }
    StridedAll(lda, ncores, coreid, j);
  }

  lemma StridedAll(lda: nat, ncores: nat, core: nat, j: nat)
    requires ncores > 0 && lda <= j
    ensures Strided(lda, ncores, core, j) == Strided(lda, ncores, core, lda)
  {
  }

  lemma StridedStart(lda: nat, ncores: nat, core: nat)
    requires core < ncores
    ensures core % ncores == core && Strided(lda, ncores, core, core) == {}
  {
    forall k: nat | k <= core ensures k % ncores == k { DivModUnique(k, ncores, 0, k); }
  }

  lemma StridedStep(lda: nat, ncores: nat, core: nat, j: nat)
    requires core < ncores && lda % (4 * ncores) == 0 && j < lda
    requires j % ncores == core && j >= core && (j - core) % (4 * ncores) == 0
    ensures var rows := [j, j + 1 * ncores, j + 2 * ncores, j + 3 * ncores];
            && Group(lda, rows)
            && Strided(lda, ncores, core, j + 4 * ncores) == Strided(lda, ncores, core, j) + Members(rows)
            && (forall r :: r in rows ==> r in Strided(lda, ncores, core, lda) && r !in Strided(lda, ncores, core, j))
    ensures (j + 4 * ncores) % ncores == core && (j + 4 * ncores - core) % (4 * ncores) == 0
  {
    NextResidue(4 * ncores, 0, j - core, j - core);
    StrideFits(lda, ncores, core, j);
    FourInStride(ncores, core, j);
    hide Mine;
    forall r: nat | j <= r < j + 4 * ncores
      ensures Mine(ncores, core, r) <==> r in [j, j + 1 * ncores, j + 2 * ncores, j + 3 * ncores]
    {
      RowInStride(ncores, core, j, r);
    }
  }

  lemma FourInStride(ncores: nat, core: nat, j: nat)
    requires ncores > 0 && j % ncores == core
    ensures forall r :: r in [j, j + 1 * ncores, j + 2 * ncores, j + 3 * ncores] ==> Mine(ncores, core, r)
    ensures (j + 4 * ncores) % ncores == core
  {
    NextResidue(ncores, core, j, j);
    NextResidue(ncores, core, j + ncores, j);
    NextResidue(ncores, core, j + 2 * ncores, j);
    NextResidue(ncores, core, j + 3 * ncores, j);
  }

  lemma RowInStride(ncores: nat, core: nat, j: nat, r: nat)
    requires ncores > 0 && j % ncores == core && j <= r < j + 4 * ncores
    ensures Mine(ncores, core, r) <==> r in [j, j + 1 * ncores, j + 2 * ncores, j + 3 * ncores]
  {
    FourInStride(ncores, core, j);
    NextResidue(ncores, core, j, r);
    NextResidue(ncores, core, j + ncores, r);
    NextResidue(ncores, core, j + 2 * ncores, r);
    NextResidue(ncores, core, j + 3 * ncores, r);
  }

  lemma StrideFits(lda: nat, ncores: nat, core: nat, j: nat)
    requires core < ncores && lda % (4 * ncores) == 0 && core <= j < lda && (j - core) % (4 * ncores) == 0
    ensures j + 3 * ncores < lda
  {
    var m := 4 * ncores;
    var q, n := (j - core) / m, lda / m;
    QuotRemSum(j - core, m);
    QuotRemSum(lda, m);
    if q >= n { MulMono(n, q, m); }
    MulMono(q + 1, n, m);
  }

  /** What the core of `ds_matmul.c` works on: every `ncores`-th group of four rows. */
  function Quads(lda: nat, ncores: nat, core: nat, upTo: nat): set<nat>
    requires ncores > 0
  {
    set r: nat | r < lda && r < upTo && r / 4 % ncores == core
  }

  method QuadCore(coreid: nat, ncores: nat, lda: nat, a: array<int>, b: array<int>, c: array<int>,
                  ghost c0: seq<int>, ghost t0: Terms, ghost done: set<nat>) returns (ghost t: Terms)
    requires Arrays(lda, a, b, c) && coreid < ncores && lda % 4 == 0
    requires Grown(c0, c[..], a[..], b[..], lda, t0) && Done(t0, lda, done)
    requires done !! Quads(lda, ncores, coreid, lda)
    modifies c
    ensures Grown(c0, c[..], a[..], b[..], lda, t) && Done(t, lda, done + Quads(lda, ncores, coreid, lda))
  {
    hide Grown, Done, AllRows, Group, Quads, Members, Arrays;
    t := t0;
    ghost var mine: set<nat> := {};
    ghost var jb: nat := coreid;
    var j: nat := coreid * 4;
    QuadStart(lda, ncores, coreid);
    assert done + mine == done;
    while j < lda
      invariant j == 4 * jb && jb % ncores == coreid && mine == Quads(lda, ncores, coreid, j)
      invariant Grown(c0, c[..], a[..], b[..], lda, t) && Done(t, lda, done + mine)
      decreases lda - j
    {
      var rows: seq<nat> := [j, j + 1, j + 2, j + 3];
      QuadStep(lda, ncores, coreid, jb);
      DoneRows(t, lda, done + mine, rows);
      ghost var t1 := t;
      t := AddGroup(lda, a, b, c, rows, 2, c0, t1);
      DoneStep(t1, t, lda, done + mine, rows);
      assert (done + mine) + Members(rows) == done + (mine + Members(rows));
      mine := mine + Members(rows);
      j := j + 4 * ncores;
      jb := jb + ncores;
    }
    QuadAll(lda, ncores, coreid, j);
  }

  lemma QuadStart(lda: nat, ncores: nat, core: nat)
    requires core < ncores
    ensures core % ncores == core && Quads(lda, ncores, core, 4 * core) == {}
  {
    forall k: nat | k <= core ensures k % ncores == k { DivModUnique(k, ncores, 0, k); }
  }

  lemma QuadAll(lda: nat, ncores: nat, core: nat, j: nat)
    requires ncores > 0 && lda <= j
    ensures Quads(lda, ncores, core, j) == Quads(lda, ncores, core, lda)
  {
  }

  lemma QuadStep(lda: nat, ncores: nat, core: nat, jb: nat)
    requires core < ncores && lda % 4 == 0 && 4 * jb < lda && jb % ncores == core
    ensures var j := 4 * jb;
            var rows := [j, j + 1, j + 2, j + 3];
            && Group(lda, rows)
            && Quads(lda, ncores, core, j + 4 * ncores) == Quads(lda, ncores, core, j) + Members(rows)
            && (forall r :: r in rows ==> r in Quads(lda, ncores, core, lda) && r !in Quads(lda, ncores, core, j))
    ensures (jb + ncores) % ncores == core
  {
    var j := 4 * jb;
    NextResidue(ncores, core, jb, jb);
    forall r: nat | j <= r < j + 4 * ncores ensures r / 4 % ncores == core <==> r < j + 4 {
      NextResidue(ncores, core, jb, r / 4);
    }
    forall r: nat | j <= r < j + 4 ensures r / 4 == jb { }
  }

  // ---------------------------------------------------------------------- the result

  /** When all rows are done, C has grown by the product. */
  lemma AllDone(c0: seq<int>, c: seq<int>, a: seq<int>, b: seq<int>, lda: nat, t: Terms, done: set<nat>)
    requires Grown(c0, c, a, b, lda, t) && Done(t, lda, done)
    requires forall r: nat :: r < lda ==> r in done
    ensures forall r: nat, q: nat :: r < lda && q < lda ==>
              At(c, Cell(lda, r, q)) == At(c0, Cell(lda, r, q)) + Entry(a, b, lda, r, q)
  {
    hide Dot, At, Cell;
    forall r: nat, q: nat | r < lda && q < lda
      ensures At(c, Cell(lda, r, q)) == At(c0, Cell(lda, r, q)) + Entry(a, b, lda, r, q)
    {
      assert t[r][q] == lda;
    }
  }

  lemma NoTerms(c: seq<int>, a: seq<int>, b: seq<int>, lda: nat) returns (t: Terms)
    requires |c| == lda * lda
    ensures Grown(c, c, a, b, lda, t) && Done(t, lda, {})
  {
    t := seq(lda, r => seq(lda, q => 0));
    hide At, Cell;
  }

  /** Each core once. */
  ghost predicate Order(order: seq<nat>, ncores: nat) {
    && (forall u :: 0 <= u < |order| ==> order[u] < ncores)
    && (forall u, v :: 0 <= u < v < |order| ==> order[u] != order[v])
    && (forall k: nat :: k < ncores ==> k in order)
  }

  /** `bs_matmul.c` on all cores, one after the other in any order; their rows do not meet. */
  method StridedAllCores(order: seq<nat>, ncores: nat, lda: nat, a: array<int>, b: array<int>, c: array<int>)
    requires Arrays(lda, a, b, c) && c.Length == lda * lda && ncores > 0 && lda % (4 * ncores) == 0
    requires Order(order, ncores)
    modifies c
    ensures forall r: nat, q: nat :: r < lda && q < lda ==>
              At(c[..], Cell(lda, r, q)) == At(old(c[..]), Cell(lda, r, q)) + Entry(a[..], b[..], lda, r, q)
  {
    hide Grown, Done;
    ghost var c0, as_, bs := c[..], a[..], b[..];
    ghost var t := NoTerms(c0, as_, bs, lda);
    ghost var done: set<nat> := {};
    for u := 0 to |order|
      invariant a[..] == as_ && b[..] == bs
      invariant forall r: nat :: r in done <==> r < lda && r % ncores in order[..u]
      invariant Grown(c0, c[..], as_, bs, lda, t) && Done(t, lda, done)
    {
      t := StridedCore(order[u], ncores, lda, a, b, c, c0, t, done);
      assert order[..u + 1] == order[..u] + [order[u]];
      done := done + Strided(lda, ncores, order[u], lda);
    }
    assert order[..|order|] == order;
    AllDone(c0, c[..], as_, bs, lda, t, done);
  }

  /** `ds_matmul.c` on all cores. */
  method QuadAllCores(order: seq<nat>, ncores: nat, lda: nat, a: array<int>, b: array<int>, c: array<int>)
    requires Arrays(lda, a, b, c) && c.Length == lda * lda && ncores > 0 && lda % 4 == 0
    requires Order(order, ncores)
    modifies c
    ensures forall r: nat, q: nat :: r < lda && q < lda ==>
              At(c[..], Cell(lda, r, q)) == At(old(c[..]), Cell(lda, r, q)) + Entry(a[..], b[..], lda, r, q)
  {
    hide Grown, Done;
    ghost var c0, as_, bs := c[..], a[..], b[..];
    ghost var t := NoTerms(c0, as_, bs, lda);
    ghost var done: set<nat> := {};
    for u := 0 to |order|
      invariant a[..] == as_ && b[..] == bs
      invariant forall r: nat :: r in done <==> r < lda && r / 4 % ncores in order[..u]
      invariant Grown(c0, c[..], as_, bs, lda, t) && Done(t, lda, done)
    {
      t := QuadCore(order[u], ncores, lda, a, b, c, c0, t, done);
      assert order[..u + 1] == order[..u] + [order[u]];
      done := done + Quads(lda, ncores, order[u], lda);
    }
    assert order[..|order|] == order;
    AllDone(c0, c[..], as_, bs, lda, t, done);
  }
}
