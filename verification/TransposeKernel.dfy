/** `mt/ae_matmul.c`: the cores first transpose B together into the shared buffer
    BB, one barrier per column, and then multiply rows of A by rows of BB, one
    barrier per 1 x 4 strip of C.

    The kernel is cut into phases, a phase being the work between two barrier
    calls, and each phase into steps with at most one access to shared memory.
  */
module TransposeKernel {
  import opened Arith
  import opened Matrix
  import opened SharedJob

  /** The core count divides the matrix size, and so does eight. */
  ghost predicate Ok(job: Job) {
    && job.ncores > 0 && job.lda == job.ncores * job.per && job.lda % 8 == 0
    && |job.a| == |job.b| == |job.c0| == job.lda * job.lda
  }

  /** Barrier calls made by each core. */
  function Calls(job: Job): nat {
    job.lda + Strips(job)
  }

  /** The 1 x 4 strips of C that each core computes. */
  function Strips(job: Job): nat { (job.lda / 4) * job.per }

  /** Steps of the work of phase `p`; after the last barrier there is none. */
  function Len(job: Job, p: nat): nat {
    if p < job.lda then job.per
    else if p < Calls(job) then 4 * job.lda + 4
    else 0
  }

  /** In strip number `m` core `t` computes row `StripRow` of C, columns `StripCol` .. +3. */
  function StripCol(job: Job, m: nat): nat {
    4 * Quot(m, job.per)
  }

  function StripRow(job: Job, t: nat, m: nat): nat {
    t * job.per + Rem(m, job.per)
  }

  lemma StripBounds(job: Job, t: nat, p: nat)
    requires Ok(job) && t < job.ncores && job.lda <= p < Calls(job)
    ensures StripRow(job, t, p - job.lda) < job.lda
    ensures StripCol(job, p - job.lda) + 3 < job.lda
  {
    var m := p - job.lda;
    QuotBound(m, job.per, job.lda / 4);
    BlockIndex(job.lda, job.ncores, job.per, t, Rem(m, job.per));
  }

  /** The accumulation step `x` of a strip adds the term `TermK` to accumulator `TermAcc`:
      eight terms to c1, the same eight to c2, c3, c4, then the next eight. */
  function TermAcc(x: nat): nat { x % 32 / 8 }
  function TermK(x: nat): nat { 8 * (x / 32) + x % 8 }

  /** Terms already in accumulator `r` before step `x`. */
  function Terms(x: nat, r: nat): nat {
    var w := x % 32;
    8 * (x / 32) + if w <= 8 * r then 0 else if w >= 8 * r + 8 then 8 else w - 8 * r
  }

  lemma TermsStep(x: nat, r: nat)
    requires r < 4
    ensures Terms(x + 1, r) == Terms(x, r) + if r == TermAcc(x) then 1 else 0
    ensures r == TermAcc(x) ==> Terms(x, r) == TermK(x)
  {
    var b, c, e := Split(x);
    TermsAt(b, c, e, r);
    if e < 7 { TermsAt(b, c, e + 1, r); }
    else if c < 3 { TermsAt(b, c + 1, 0, r); }
    else { TermsAt(b + 1, 0, 0, r); }
    hide Terms, TermAcc, TermK;
  }

  lemma Split(x: nat) returns (b: nat, c: nat, e: nat)
    ensures x == 32 * b + 8 * c + e && c < 4 && e < 8
  {
    b, c, e := x / 32, x % 32 / 8, x % 32 % 8;
  }

  lemma TermsAt(b: nat, c: nat, e: nat, r: nat)
    requires c < 4 && e < 8 && r < 4
    ensures var x := 32 * b + 8 * c + e;
            && TermAcc(x) == c && TermK(x) == 8 * b + e
            && Terms(x, r) == 8 * b + if r < c then 8 else if r == c then e else 0
  {
    var x := 32 * b + 8 * c + e;
    DivModUnique(x, 32, b, 8 * c + e);
    DivModUnique(8 * c + e, 8, c, e);
    DivModUnique(x, 8, 4 * b + c, e);
  }

  /** The position in BB of the `y`-th entry core `t` writes of column `k`. */
  function FillCell(job: Job, t: nat, k: nat, y: nat): nat {
    Cell(job.lda, t * job.per + y, k)
  }

  /** The buffer, and the C, position that step `x` of phase `p` touches, if any. */
  function BufIndex(job: Job, t: nat, p: nat, x: nat): nat {
    if p < job.lda then FillCell(job, t, p, x)
    else Cell(job.lda, StripCol(job, p - job.lda) + TermAcc(x), TermK(x))
  }

  function CIndex(job: Job, t: nat, p: nat, r: nat): nat requires job.lda <= p {
    Cell(job.lda, StripRow(job, t, p - job.lda), StripCol(job, p - job.lda) + r)
  }

  function Start(): seq<int> { [0, 0, 0, 0] }

  /** Step `x` of phase `p` on core `t`, with the accumulators c1..c4 in `acc`. */
  function Op(job: Job, t: nat, p: nat, x: nat, acc: seq<int>, m: Mem): (seq<int>, Mem)
  {
    if p < job.lda then
      (acc, m.(buf := Put(m.buf, BufIndex(job, t, p, x),
                          At(job.b, Cell(job.lda, p, t * job.per + x)))))
    else if x < 4 * job.lda then
      var r := TermAcc(x);
      var term := At(job.a, Cell(job.lda, StripRow(job, t, p - job.lda), 0) + TermK(x))
                * At(m.buf, BufIndex(job, t, p, x));
      (Put(acc, r, At(acc, r) + term), m)
    else
      var r := x - 4 * job.lda;
      (acc, m.(c := Put(m.c, CIndex(job, t, p, r), At(acc, r))))
  }

  /** Every read and write of a step lies inside its matrix, and every accumulator exists. */
  lemma StaysInside(job: Job, t: nat, p: nat, x: nat)
    requires Ok(job) && t < job.ncores && x < Len(job, p)
    ensures p < job.lda ==>
              Cell(job.lda, p, t * job.per + x) < |job.b| && BufIndex(job, t, p, x) < job.lda * job.lda
    ensures p >= job.lda && x < 4 * job.lda ==>
              && Cell(job.lda, StripRow(job, t, p - job.lda), 0) + TermK(x) < |job.a|
              && BufIndex(job, t, p, x) < job.lda * job.lda && TermAcc(x) < 4
    ensures p >= job.lda && x >= 4 * job.lda ==>
              CIndex(job, t, p, x - 4 * job.lda) < |job.c0| && x - 4 * job.lda < 4
  {
    hide Cell, StripRow, StripCol, TermK, TermAcc;
    if p < job.lda {
      BlockIndex(job.lda, job.ncores, job.per, t, x);
      CellBound(job.lda, p, t * job.per + x);
      CellBound(job.lda, t * job.per + x, p);
    } else {
      StripBounds(job, t, p);
      var row, col := StripRow(job, t, p - job.lda), StripCol(job, p - job.lda);
      if x < 4 * job.lda {
        TermKBound(job.lda, x);
        CellBound(job.lda, row, TermK(x));
        RowStart(job.lda, row, TermK(x));
        CellBound(job.lda, col + TermAcc(x), TermK(x));
      } else {
        CellBound(job.lda, row, col + (x - 4 * job.lda));
      }
    }
  }

  lemma RowStart(ld: nat, row: nat, k: nat)
    ensures Cell(ld, row, 0) + k == Cell(ld, row, k)
  {
  }

  lemma TermKBound(lda: nat, x: nat)
    requires lda % 8 == 0 && x < 4 * lda
    ensures TermK(x) < lda && TermAcc(x) < 4
  {
  }

  // ------------------------------------------------------- what each core knows

  /** What the position `i` of BB, and of C, must end up holding. */
  function BufTarget(job: Job, i: nat): int {
    At(job.b, Cell(job.lda, Rem(i, job.lda), Quot(i, job.lda)))
  }

  function CTarget(job: Job, i: nat): int {
    Entry(job.a, job.b, job.lda, Quot(i, job.lda), Rem(i, job.lda))
  }

  /** Core `t` has written its part of the columns below `p`, and `x` positions of column `p`. */
  ghost predicate Filled(job: Job, t: nat, p: nat, x: nat, buf: seq<int>) {
    forall k: nat, y: nat :: k < job.lda && y < job.per && (k < p || (k == p && y < x)) ==>
      At(buf, FillCell(job, t, k, y)) == BufTarget(job, FillCell(job, t, k, y))
  }

  /** Core `t` has stored its strips of the phases below `p`, and `n` entries of the one of phase `p`. */
  ghost predicate Stored(job: Job, t: nat, p: nat, n: int, c: seq<int>) {
    forall q: nat, r: nat ::
      job.lda <= q < Calls(job) && r < 4 && (q < p || (q == p && r < n)) ==>
        At(c, CIndex(job, t, q, r)) == CTarget(job, CIndex(job, t, q, r))
  }

  /** What accumulator `r` holds before accumulation step `x` of phase `p`. */
  function AccValue(job: Job, t: nat, p: nat, x: nat, r: nat): int
    requires job.lda <= p
  {
    Dot(job.a, Cell(job.lda, StripRow(job, t, p - job.lda), 0),
        job.b, StripCol(job, p - job.lda) + r, job.lda, Terms(x, r))
  }

  ghost predicate AccOk(job: Job, t: nat, p: nat, x: nat, acc: seq<int>) {
    |acc| == 4 && (job.lda <= p < Calls(job) ==>
      forall r :: 0 <= r < 4 ==>
        acc[r] == AccValue(job, t, p, if x <= 4 * job.lda then x else 4 * job.lda, r))
  }

  /** The assertion of core `t` before step `x` of phase `p`. */
  ghost predicate Own(job: Job, t: nat, p: nat, x: nat, acc: seq<int>, m: Mem) {
    && t < job.ncores && x <= Len(job, p)
    && |m.buf| == |job.b| && |m.c| == |job.c0|
    && Filled(job, t, p, x, m.buf)
    && Stored(job, t, p, x - 4 * job.lda, m.c)
    && AccOk(job, t, p, x, acc)
  }

  /** What core `u` has done for the others once it is past its first `p` phases. */
  ghost predicate Done(job: Job, u: nat, p: nat, m: Mem) {
    Filled(job, u, p, 0, m.buf)
  }

  ghost predicate Ready(job: Job, p: nat, m: Mem) {
    forall u :: 0 <= u < job.ncores ==> Done(job, u, p, m)
  }

  /** The value a core reads from BB is the transposed entry of B. */
  lemma ReadsTransposed(job: Job, p: nat, m: Mem, i: nat, k: nat)
    requires Ok(job) && job.lda <= p && Ready(job, p, m) && i < job.lda && k < job.lda
    ensures At(m.buf, Cell(job.lda, i, k)) == At(job.b, Cell(job.lda, k, i))
  {
    QuotBound(i, job.per, job.ncores);
    QuotRemSum(i, job.per);
    var u, y := Quot(i, job.per), Rem(i, job.per);
    assert Done(job, u, p, m);
    assert FillCell(job, u, k, y) == Cell(job.lda, i, k);
    QuotRem(Cell(job.lda, i, k), job.lda, i, k);
  }

  lemma FillStep(job: Job, t: nat, p: nat, x: nat, acc: seq<int>, m: Mem)
    requires Ok(job) && Own(job, t, p, x, acc, m) && p < job.lda && x < Len(job, p)
    ensures var i := BufIndex(job, t, p, x);
            && i < |m.buf|
            && Op(job, t, p, x, acc, m) == (acc, m.(buf := m.buf[i := BufTarget(job, i)]))
  {
    BlockIndex(job.lda, job.ncores, job.per, t, x);
    QuotRem(FillCell(job, t, p, x), job.lda, t * job.per + x, p);
    CellBound(job.lda, t * job.per + x, p);
  }

  /** The term that accumulation step `x` adds. */
  function Term(job: Job, t: nat, p: nat, x: nat): int
    requires job.lda <= p
  {
    At(job.a, Cell(job.lda, StripRow(job, t, p - job.lda), 0) + TermK(x))
    * At(job.b, Cell(job.lda, TermK(x), StripCol(job, p - job.lda) + TermAcc(x)))
  }

  lemma AccValueStep(job: Job, t: nat, p: nat, x: nat, r: nat)
    requires job.lda <= p && r < 4
    ensures AccValue(job, t, p, x + 1, r) == AccValue(job, t, p, x, r)
            + if r == TermAcc(x) then Term(job, t, p, x) else 0
  {
    TermsStep(x, r);
    hide Terms, TermK, TermAcc, StripRow, StripCol;
    var bo := StripCol(job, p - job.lda) + r;
    assert Cell(job.lda, TermK(x), bo) == bo + TermK(x) * job.lda;
  }

  /** The read of step `x` is inside the buffer, and returns the entry of B. */
  lemma ReadStep(job: Job, t: nat, p: nat, x: nat, m: Mem)
    requires Ok(job) && t < job.ncores && job.lda <= p < Calls(job) && x < 4 * job.lda
    requires |m.buf| == |job.b| && Ready(job, p, m)
    ensures BufIndex(job, t, p, x) < |m.buf|
    ensures At(m.buf, BufIndex(job, t, p, x))
         == At(job.b, Cell(job.lda, TermK(x), StripCol(job, p - job.lda) + TermAcc(x)))
  {
    var i, k := StripCol(job, p - job.lda) + TermAcc(x), TermK(x);
    assert i < job.lda by { StripBounds(job, t, p); }
    assert k < job.lda by { TermKBound(job.lda, x); }
    ReadsTransposed(job, p, m, i, k);
    CellBound(job.lda, i, k);
    hide TermK, StripCol, Ready, Cell, Quot;
  }

  lemma AccStep(job: Job, t: nat, p: nat, x: nat, acc: seq<int>, m: Mem)
    requires Ok(job) && Own(job, t, p, x, acc, m) && job.lda <= p < Calls(job) && x < 4 * job.lda
    requires Ready(job, p, m)
    ensures AccOk(job, t, p, x + 1, Op(job, t, p, x, acc, m).0)
    ensures Op(job, t, p, x, acc, m).1 == m
  {
    OpAcc(job, t, p, x, acc, m);
    hide Op, Term, AccValue, TermAcc, Ready, Filled, Stored, Ok, Calls;
    forall r | 0 <= r < 4
      ensures Op(job, t, p, x, acc, m).0[r] == AccValue(job, t, p, x + 1, r)
    {
      AccValueStep(job, t, p, x, r);
    }
  }

  lemma TermAccBound(x: nat)
    ensures TermAcc(x) < 4
  {
  }

  lemma AtIndex(s: seq<int>, i: nat)
    requires i < |s|
    ensures At(s, i) == s[i]
  {
  }

  lemma OpAcc(job: Job, t: nat, p: nat, x: nat, acc: seq<int>, m: Mem)
    requires Ok(job) && t < job.ncores && job.lda <= p < Calls(job) && x < 4 * job.lda
    requires |m.buf| == |job.b| && Ready(job, p, m) && |acc| == 4
    ensures TermAcc(x) < 4
    ensures Op(job, t, p, x, acc, m)
         == (acc[TermAcc(x) := acc[TermAcc(x)] + Term(job, t, p, x)], m)
  {
    assert TermAcc(x) < 4 by { TermAccBound(x); }
    ReadStep(job, t, p, x, m);
    hide TermAcc, BufIndex, Cell, StripRow, StripCol, TermK, Ok, Ready, Calls, At;
    assert At(acc, TermAcc(x)) == acc[TermAcc(x)] by { AtIndex(acc, TermAcc(x)); }
  }

  lemma StoreStep(job: Job, t: nat, p: nat, x: nat, acc: seq<int>, m: Mem)
    requires Ok(job) && Own(job, t, p, x, acc, m) && job.lda <= p && 4 * job.lda <= x < Len(job, p)
    ensures var i := CIndex(job, t, p, x - 4 * job.lda);
            && i < |m.c|
            && Op(job, t, p, x, acc, m) == (acc, m.(c := m.c[i := CTarget(job, i)]))
  {
    var r := x - 4 * job.lda;
    StoreTarget(job, t, p, r);
    hide CTarget, AccValue, CIndex, Ok, Filled, Stored;
    assert acc[r] == AccValue(job, t, p, 4 * job.lda, r);
  }

  /** The full accumulator is the entry of the product. */
  lemma StoreTarget(job: Job, t: nat, p: nat, r: nat)
    requires Ok(job) && t < job.ncores && job.lda <= p < Calls(job) && r < 4
    ensures CIndex(job, t, p, r) < |job.c0|
    ensures CTarget(job, CIndex(job, t, p, r)) == AccValue(job, t, p, 4 * job.lda, r)
  {
    var row, col := StripRow(job, t, p - job.lda), StripCol(job, p - job.lda) + r;
    StripBounds(job, t, p);
    QuotRem(Cell(job.lda, row, col), job.lda, row, col);
    CellBound(job.lda, row, col);
    assert Terms(4 * job.lda, r) == job.lda by { TermsFull(job.lda, r); }
    hide StripRow, StripCol, Terms, Quot, Rem, Dot;
  }

  lemma TermsFull(lda: nat, r: nat)
    requires lda % 8 == 0 && r < 4
    ensures Terms(4 * lda, r) == lda
  {
  }

  /** Writing its target value into a position spoils no assertion of any core. */
  lemma BufWriteStable(job: Job, u: nat, q: nat, y: nat, buf: seq<int>, i: nat)
    requires i < |buf| && Filled(job, u, q, y, buf)
    ensures Filled(job, u, q, y, buf[i := BufTarget(job, i)])
  {
  }

  lemma CWriteStable(job: Job, u: nat, q: nat, n: int, c: seq<int>, i: nat)
    requires i < |c| && Stored(job, u, q, n, c)
    ensures Stored(job, u, q, n, c[i := CTarget(job, i)])
  {
  }

  // --------------------------------------------------- the four proof obligations

  lemma OwnInit(job: Job, t: nat, m: Mem)
    requires Ok(job) && t < job.ncores && |m.buf| == |job.b| && m.c == job.c0
    ensures Own(job, t, 0, 0, Start(), m)
  {
    if job.lda == 0 {
      assert Calls(job) == 0;
    }
  }

  lemma FillOwn(job: Job, t: nat, p: nat, x: nat, acc: seq<int>, m: Mem)
    requires Own(job, t, p, x, acc, m) && p < job.lda && x < Len(job, p)
    requires BufIndex(job, t, p, x) < |m.buf|
    ensures var i := BufIndex(job, t, p, x);
            Own(job, t, p, x + 1, acc, m.(buf := m.buf[i := BufTarget(job, i)]))
  {
    BufWriteStable(job, t, p, x, m.buf, BufIndex(job, t, p, x));
  }

  lemma StoreOwn(job: Job, t: nat, p: nat, x: nat, acc: seq<int>, m: Mem)
    requires Own(job, t, p, x, acc, m) && job.lda <= p && 4 * job.lda <= x < Len(job, p)
    requires CIndex(job, t, p, x - 4 * job.lda) < |m.c|
    ensures var i := CIndex(job, t, p, x - 4 * job.lda);
            Own(job, t, p, x + 1, acc, m.(c := m.c[i := CTarget(job, i)]))
  {
    CWriteStable(job, t, p, x - 4 * job.lda, m.c, CIndex(job, t, p, x - 4 * job.lda));
  }

  lemma AccOwn(job: Job, t: nat, p: nat, x: nat, acc: seq<int>, acc': seq<int>, m: Mem)
    requires Own(job, t, p, x, acc, m) && job.lda <= p && x < Len(job, p) && x < 4 * job.lda
    requires AccOk(job, t, p, x + 1, acc')
    ensures Own(job, t, p, x + 1, acc', m)
  {
  }

  /** A core's step takes its assertion to the next position. */
  lemma OwnStep(job: Job, t: nat, p: nat, x: nat, acc: seq<int>, m: Mem)
    requires Ok(job) && Own(job, t, p, x, acc, m) && x < Len(job, p) && Ready(job, p, m)
    ensures var (acc', m') := Op(job, t, p, x, acc, m); Own(job, t, p, x + 1, acc', m')
  {
    if p < job.lda {
      FillStep(job, t, p, x, acc, m);
      FillOwn(job, t, p, x, acc, m);
    } else if x < 4 * job.lda {
      AccStep(job, t, p, x, acc, m);
      AccOwn(job, t, p, x, acc, Op(job, t, p, x, acc, m).0, m);
    } else {
      StoreStep(job, t, p, x, acc, m);
      StoreOwn(job, t, p, x, acc, m);
    }
  }

  /** ... and leaves the assertions of the others alone. */
  lemma OwnStable(job: Job, t: nat, p: nat, x: nat, acc: seq<int>, m: Mem,
                  u: nat, q: nat, y: nat, other: seq<int>)
    requires Ok(job) && Own(job, t, p, x, acc, m) && x < Len(job, p) && Ready(job, p, m)
    requires Own(job, u, q, y, other, m)
    ensures Own(job, u, q, y, other, Op(job, t, p, x, acc, m).1)
  {
    if p < job.lda {
      FillStep(job, t, p, x, acc, m);
      BufWriteStable(job, u, q, y, m.buf, BufIndex(job, t, p, x));
    } else if x < 4 * job.lda {
      AccStep(job, t, p, x, acc, m);
    } else {
      StoreStep(job, t, p, x, acc, m);
      CWriteStable(job, u, q, y - 4 * job.lda, m.c, CIndex(job, t, p, x - 4 * job.lda));
    }
  }

  /** Passing a barrier starts the next phase. */
  lemma OwnNext(job: Job, t: nat, p: nat, acc: seq<int>, m: Mem)
    requires Ok(job) && p < Calls(job) && Own(job, t, p, Len(job, p), acc, m)
    ensures Own(job, t, p + 1, 0, Start(), m)
  {
  }

  /** Whoever has done its work of the first `p` phases has filled its part of BB. */
  lemma OwnDone(job: Job, u: nat, q: nat, y: nat, acc: seq<int>, m: Mem, p: nat)
    requires Own(job, u, q, y, acc, m)
    requires p <= q || (p == q + 1 && y == Len(job, q))
    ensures Done(job, u, p, m)
  {
  }

  /** Every entry of the core's rows belongs to one of its strips. */
  lemma StripOf(job: Job, t: nat, row: nat, col: nat)
    requires Ok(job) && row < job.lda && col < job.lda && Quot(row, job.per) == t
    ensures var strip := Cell(job.per, col / 4, Rem(row, job.per));
            strip < Strips(job) && CIndex(job, t, job.lda + strip, col % 4) == Cell(job.lda, row, col)
  {
    var y, per := Rem(row, job.per), job.per;
    assert per > 0;
    QuotRemSum(row, per);
    assert col / 4 < job.lda / 4;
    BlockIndex(Strips(job), job.lda / 4, per, col / 4, y);
    QuotRem(Cell(per, col / 4, y), per, col / 4, y);
    hide Quot, Rem, Ok;
    assert StripRow(job, t, Cell(per, col / 4, y)) == row;
  }

  /** When core `t` has made all its calls, its rows of C are those of A * B. */
  lemma OwnFinal(job: Job, t: nat, x: nat, acc: seq<int>, m: Mem, row: nat, col: nat)
    requires Ok(job) && Own(job, t, Calls(job), x, acc, m)
    requires row < job.lda && col < job.lda && Quot(row, job.per) == t
    ensures At(m.c, Cell(job.lda, row, col)) == Entry(job.a, job.b, job.lda, row, col)
  {
    StripOf(job, t, row, col);
    var strip := Cell(job.per, col / 4, Rem(row, job.per));
    QuotRem(Cell(job.lda, row, col), job.lda, row, col);
    hide Quot, Rem, Cell, Dot, Filled, Ok, CIndex, AccOk;
    assert At(m.c, CIndex(job, t, job.lda + strip, col % 4)) == CTarget(job, CIndex(job, t, job.lda + strip, col % 4));
  }
}
