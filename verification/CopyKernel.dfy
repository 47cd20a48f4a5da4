/** `mt/dm_matmul.c`: before the one barrier the last core copies the first
    lda*lda/ncores entries of B into the shared buffer B1 and every other core
    copies all the rest; after it each core adds to its own rows of C, 4 x 4 tile
    by 4 x 4 tile, the last core reading B1 and the others B itself.
  */
module CopyKernel {
  import opened Arith
  import opened Matrix
  import opened SharedJob

  /** Each core's share of rows is an exact multiple of four. */
  ghost predicate Ok(job: Job) {
    && job.ncores > 0 && job.lda == job.ncores * job.per && job.per % 4 == 0
    && |job.a| == |job.b| == |job.c0| == job.lda * job.lda
  }

  function Calls(job: Job): nat { 1 }

  predicate IsLast(job: Job, t: nat) { t + 1 == job.ncores }

  function FillFrom(job: Job, t: nat): nat { if IsLast(job, t) then 0 else job.lda * job.per }

  function FillTo(job: Job, t: nat): nat {
    if IsLast(job, t) then job.lda * job.per else job.lda * job.lda
  }

  /** A tile takes 16 loads of C, four reads of B for every k, and 16 stores. */
  function TileLen(job: Job): nat { 32 + 4 * job.lda }
  function StoreBase(job: Job): nat { 16 + 4 * job.lda }

  function Tiles(job: Job): nat { (job.per / 4) * (job.lda / 4) }

  function Len(job: Job, t: nat, p: nat): nat {
    if p == 0 then (if FillFrom(job, t) <= FillTo(job, t) then FillTo(job, t) - FillFrom(job, t) else 0)
    else if p == 1 then Tiles(job) * TileLen(job)
    else 0
  }

  /** Upper left corner of tile number `tile` of core `t`. */
  function TileRow(job: Job, t: nat, tile: nat): nat {
    t * job.per + 4 * Quot(tile, job.lda / 4)
  }

  function TileCol(job: Job, tile: nat): nat {
    4 * Rem(tile, job.lda / 4)
  }

  /** Accumulator `q` belongs to row `q % 4` and column `q / 4` of the tile. */
  function AccRow(job: Job, t: nat, tile: nat, q: nat): nat { TileRow(job, t, tile) + q % 4 }
  function AccCol(job: Job, tile: nat, q: nat): nat { TileCol(job, tile) + q / 4 }

  function AccCell(job: Job, t: nat, tile: nat, q: nat): nat {
    Cell(job.lda, AccRow(job, t, tile, q), AccCol(job, tile, q))
  }

  lemma TileBounds(job: Job, t: nat, tile: nat)
    requires Ok(job) && t < job.ncores && tile < Tiles(job)
    ensures 4 * Quot(tile, job.lda / 4) + 3 < job.per && TileCol(job, tile) + 3 < job.lda
    ensures TileRow(job, t, tile) + 3 < job.lda
  {
    QuotBound(tile, job.lda / 4, job.per / 4);
    BlockIndex(job.lda, job.ncores, job.per, t, 4 * Quot(tile, job.lda / 4) + 3);
  }

  function Start(): seq<int> { seq(16, i => 0) }

  /** acc[4x + r] += a[row + r][k] * v for r = 0..3. */
  function AddTerms(job: Job, row: nat, x: nat, k: nat, v: int, acc: seq<int>): seq<int> {
    seq(|acc|, q requires 0 <= q < |acc| =>
      if q / 4 == x then acc[q] + At(job.a, Cell(job.lda, row + q % 4, k)) * v else acc[q])
  }

  /** The step that fills, loads, accumulates or stores. */
  function Op(job: Job, t: nat, p: nat, x: nat, acc: seq<int>, m: Mem): (seq<int>, Mem) {
    if p == 0 then
      var i := FillFrom(job, t) + x;
      (acc, m.(buf := Put(m.buf, i, At(job.b, i))))
    else
      TileOp(job, t, Quot(x, TileLen(job)), Rem(x, TileLen(job)), acc, m)
  }

  function TileOp(job: Job, t: nat, tile: nat, y: nat, acc: seq<int>, m: Mem): (seq<int>, Mem) {
    if y < 16 then
      (Put(acc, y, At(m.c, AccCell(job, t, tile, y))), m)
    else if y < StoreBase(job) then
      var x, k := (y - 16) % 4, (y - 16) / 4;
      var source := if IsLast(job, t) then m.buf else job.b;
      var v := At(source, Cell(job.lda, k, TileCol(job, tile) + x));
      (AddTerms(job, TileRow(job, t, tile), x, k, v, acc), m)
    else
      var q := y - StoreBase(job);
      (acc, m.(c := Put(m.c, AccCell(job, t, tile, q), At(acc, q))))
  }

  /** Every read and write of a step lies inside its matrix. */
  lemma StaysInside(job: Job, t: nat, p: nat, x: nat)
    requires Ok(job) && t < job.ncores && x < Len(job, t, p)
    ensures p == 0 ==> FillFrom(job, t) + x < |job.b|
    ensures p == 1 ==> Quot(x, TileLen(job)) < Tiles(job)
                       && TileInside(job, t, Quot(x, TileLen(job)), Rem(x, TileLen(job)))
  {
    if p == 0 {
      FillRange(job, t);
    } else {
      QuotBound(x, TileLen(job), Tiles(job));
      QuotRemSum(x, TileLen(job));
      TileStaysInside(job, t, Quot(x, TileLen(job)), Rem(x, TileLen(job)));
    }
  }

  /** The elements of C, or of A and B, that step `y` of a tile touches. */
  ghost predicate TileInside(job: Job, t: nat, tile: nat, y: nat) {
    if y < 16 then AccCell(job, t, tile, y) < |job.c0|
    else if y < StoreBase(job) then
      var x, k := (y - 16) % 4, (y - 16) / 4;
      && Cell(job.lda, k, TileCol(job, tile) + x) < |job.b|
      && forall q: nat :: q < 16 ==> Cell(job.lda, TileRow(job, t, tile) + q % 4, k) < |job.a|
    else y - StoreBase(job) < 16 && AccCell(job, t, tile, y - StoreBase(job)) < |job.c0|
  }

  lemma TileStaysInside(job: Job, t: nat, tile: nat, y: nat)
    requires Ok(job) && t < job.ncores && tile < Tiles(job) && y < TileLen(job)
    ensures TileInside(job, t, tile, y)
  {
    TileBounds(job, t, tile);
    hide TileRow, TileCol, Cell;
    if 16 <= y < StoreBase(job) {
      var x, k := (y - 16) % 4, (y - 16) / 4;
      CellBound(job.lda, k, TileCol(job, tile) + x);
      forall q: nat | q < 16 ensures Cell(job.lda, TileRow(job, t, tile) + q % 4, k) < |job.a| {
        CellBound(job.lda, TileRow(job, t, tile) + q % 4, k);
      }
    } else {
      var q := if y < 16 then y else y - StoreBase(job);
      CellBound(job.lda, AccRow(job, t, tile, q), AccCol(job, tile, q));
    }
  }

  // ------------------------------------------------------- what each core knows

  function CTarget(job: Job, i: nat): int {
    At(job.c0, i) + Entry(job.a, job.b, job.lda, Quot(i, job.lda), Rem(i, job.lda))
  }

  /** The number of the tile that covers row `row` of a core's rows and column `col`. */
  function TileAt(job: Job, row: nat, col: nat): nat { (row / 4) * (job.lda / 4) + col / 4 }

  /** The core whose rows hold position `i` of C, and the step at which it stores there. */
  function Owner(job: Job, i: nat): nat {
    Quot(Quot(i, job.lda), job.per)
  }

  function StoreTime(job: Job, i: nat): nat {
    var row, col := Rem(Quot(i, job.lda), job.per), Rem(i, job.lda);
    TileAt(job, row, col) * TileLen(job) + StoreBase(job) + 4 * (col % 4) + row % 4
  }

  /** Terms already added to the accumulators of tile column `x` before step `y` of the tile. */
  function Terms(job: Job, y: nat, x: nat): nat {
    if y < 16 || x > 3 then 0
    else if y - 13 - x < 4 * job.lda then (y - 13 - x) / 4
    else job.lda
  }

  /** What accumulator `q` holds before step `y`, once loaded. */
  function AccValue(job: Job, t: nat, tile: nat, y: nat, q: nat): int {
    At(job.c0, AccCell(job, t, tile, q))
    + Dot(job.a, Cell(job.lda, AccRow(job, t, tile, q), 0),
          job.b, AccCol(job, tile, q), job.lda, Terms(job, y, q / 4))
  }

  ghost predicate Filled(job: Job, t: nat, n: nat, buf: seq<int>) {
    forall i :: FillFrom(job, t) <= i < FillFrom(job, t) + n ==> At(buf, i) == At(job.b, i)
  }

  /** The rows of core `t` before its step `x`: stored entries are final, the others untouched. */
  ghost predicate Rows(job: Job, t: nat, x: nat, c: seq<int>) {
    forall i: nat :: i < |job.c0| && Owner(job, i) == t ==>
      At(c, i) == if StoreTime(job, i) < x then CTarget(job, i) else At(job.c0, i)
  }

  ghost predicate AccOk(job: Job, t: nat, tile: nat, y: nat, acc: seq<int>) {
    |acc| == 16 &&
    forall q :: 0 <= q < 16 && q < y ==>
      acc[q] == AccValue(job, t, tile, y, q)
  }

  ghost predicate Own(job: Job, t: nat, p: nat, x: nat, acc: seq<int>, m: Mem) {
    && t < job.ncores && p <= 1 && x <= Len(job, t, p)
    && |m.buf| == |job.b| && |m.c| == |job.c0|
    && Filled(job, t, if p == 0 then x else Len(job, t, 0), m.buf)
    && Rows(job, t, if p == 0 then 0 else x, m.c)
    && |acc| == 16
    && (p == 1 ==> AccOk(job, t, Quot(x, TileLen(job)), Rem(x, TileLen(job)), acc))
  }

  ghost predicate Done(job: Job, u: nat, p: nat, m: Mem) {
    p >= 1 ==> Filled(job, u, Len(job, u, 0), m.buf)
  }

  ghost predicate Ready(job: Job, p: nat, m: Mem) {
    forall u :: 0 <= u < job.ncores ==> Done(job, u, p, m)
  }

  lemma FillRange(job: Job, t: nat)
    requires Ok(job) && t < job.ncores
    ensures FillFrom(job, t) + Len(job, t, 0) == FillTo(job, t) <= job.lda * job.lda
  {
    MulMono(1, job.ncores, job.per);
    MulMono(job.per, job.lda, job.lda);
  }

  /** After the barrier every entry of B1 is the entry of B. */
  lemma BufferFull(job: Job, m: Mem, i: nat)
    requires Ok(job) && Ready(job, 1, m) && i < job.lda * job.lda
    ensures At(m.buf, i) == At(job.b, i)
  {
    var last := job.ncores - 1;
    assert Done(job, last, 1, m);
    FillRange(job, last);
    if last > 0 {
      assert Done(job, 0, 1, m);
      FillRange(job, 0);
    }
  }

  /** A tile's store steps happen at its owner's rows, at their appointed times. */
  lemma StoreTimeOf(job: Job, t: nat, tile: nat, q: nat)
    requires Ok(job) && t < job.ncores && tile < Tiles(job) && q < 16
    ensures var i := AccCell(job, t, tile, q);
            && i < job.lda * job.lda && Owner(job, i) == t
            && StoreTime(job, i) == tile * TileLen(job) + StoreBase(job) + q
            && Quot(i, job.lda) == AccRow(job, t, tile, q) && Rem(i, job.lda) == AccCol(job, tile, q)
  {
    TileBounds(job, t, tile);
    var w := job.lda / 4;
    var row, col := AccRow(job, t, tile, q), AccCol(job, tile, q);
    QuotRem(AccCell(job, t, tile, q), job.lda, row, col);
    CellBound(job.lda, row, col);
    var rr := 4 * Quot(tile, w) + q % 4;
    QuotRem(row, job.per, t, rr);
    QuotRemSum(tile, w);
    assert TileAt(job, rr, col) == tile;
  }

  /** The only entry of a core's rows whose time is `x` is the one step `x` stores. */
  lemma StoreTimeUnique(job: Job, t: nat, x: nat, i: nat)
    requires Ok(job) && i < job.lda * job.lda && Owner(job, i) == t && StoreTime(job, i) == x
    ensures var tile, y := Quot(x, TileLen(job)), Rem(x, TileLen(job));
            y >= StoreBase(job) && i == AccCell(job, t, tile, y - StoreBase(job))
  {
    var row, col := Quot(i, job.lda), Rem(i, job.lda);
    var rr := Rem(row, job.per);
    FourDivides(job);
    assert i < job.lda * job.lda && job.lda > 0;
    var tile, q := TileAt(job, rr, col), 4 * (col % 4) + rr % 4;
    QuotRem(x, TileLen(job), tile, StoreBase(job) + q);
    QuotRem(tile, job.lda / 4, rr / 4, col / 4);
    QuotRemSum(row, job.per);
    assert AccRow(job, t, tile, q) == row;
    QuotRemSum(i, job.lda);
  }

  lemma FourDivides(job: Job)
    requires Ok(job)
    ensures job.lda % 4 == 0 && (job.lda > 0 ==> job.per > 0)
  {
    var n := job.ncores * (job.per / 4);
    assert job.per == 4 * (job.per / 4);
    assert job.lda == 4 * n;
  }

  lemma NextSlot(x: nat, len: nat)
    requires len > 0
    ensures if Rem(x, len) + 1 < len
            then Quot(x + 1, len) == Quot(x, len) && Rem(x + 1, len) == Rem(x, len) + 1
            else Quot(x + 1, len) == Quot(x, len) + 1 && Rem(x + 1, len) == 0
  {
    QuotRemSum(x, len);
    if Rem(x, len) + 1 < len {
      QuotRem(x + 1, len, Quot(x, len), Rem(x, len) + 1);
    } else {
      QuotRem(x + 1, len, Quot(x, len) + 1, 0);
    }
  }

  lemma TermsStep(job: Job, y: nat, x: nat)
    requires 16 <= y < StoreBase(job) && x < 4
    ensures Terms(job, y + 1, x) == Terms(job, y, x) + if x == (y - 16) % 4 then 1 else 0
    ensures x == (y - 16) % 4 ==> Terms(job, y, x) == (y - 16) / 4
  {
  }

  /** The accumulators after a step within the tile. */
  lemma AccStep(job: Job, t: nat, tile: nat, y: nat, acc: seq<int>, m: Mem)
    requires Ok(job) && t < job.ncores && tile < Tiles(job) && y < TileLen(job)
    requires AccOk(job, t, tile, y, acc)
    requires y < 16 ==> At(m.c, AccCell(job, t, tile, y)) == At(job.c0, AccCell(job, t, tile, y))
    requires Ready(job, 1, m)
    ensures AccOk(job, t, tile, y + 1, TileOp(job, t, tile, y, acc, m).0)
  {
    if 16 <= y < StoreBase(job) {
      TermStep(job, t, tile, y, acc, m);
    }
  }

  lemma TermOne(job: Job, t: nat, tile: nat, y: nat, q: nat)
    requires 16 <= y < StoreBase(job) && q < 16
    ensures var x, k := (y - 16) % 4, (y - 16) / 4;
            AccValue(job, t, tile, y + 1, q) == AccValue(job, t, tile, y, q)
            + if q / 4 != x then 0
              else At(job.a, Cell(job.lda, AccRow(job, t, tile, q), k))
                   * At(job.b, Cell(job.lda, k, TileCol(job, tile) + x))
  {
    TermsStep(job, y, q / 4);
  }

  lemma TermStep(job: Job, t: nat, tile: nat, y: nat, acc: seq<int>, m: Mem)
    requires Ok(job) && t < job.ncores && tile < Tiles(job) && 16 <= y < StoreBase(job)
    requires AccOk(job, t, tile, y, acc) && Ready(job, 1, m)
    ensures AccOk(job, t, tile, y + 1, TileOp(job, t, tile, y, acc, m).0)
  {
    var x, k := (y - 16) % 4, (y - 16) / 4;
    var col := TileCol(job, tile) + x;
    TileBounds(job, t, tile);
    CellBound(job.lda, k, col);
    BufferFull(job, m, Cell(job.lda, k, col));
    forall q | 0 <= q < 16
      ensures AddTerms(job, TileRow(job, t, tile), x, k, At(job.b, Cell(job.lda, k, col)), acc)[q]
           == AccValue(job, t, tile, y + 1, q)
    {
      TermOne(job, t, tile, y, q);
    }
  }

  /** Steps that store nothing leave the rows as they are; a store step stores the final value. */
  lemma RowsStep(job: Job, t: nat, x: nat, acc: seq<int>, m: Mem)
    requires Ok(job) && Own(job, t, 1, x, acc, m) && x < Len(job, t, 1)
    ensures var m' := Op(job, t, 1, x, acc, m).1;
            && m'.buf == m.buf && |m'.c| == |m.c| && Rows(job, t, x + 1, m'.c)
            && forall i: nat :: i < |m.c| && Owner(job, i) != t ==> m'.c[i] == m.c[i]
  {
    var tile, y := Quot(x, TileLen(job)), Rem(x, TileLen(job));
    QuotBound(x, TileLen(job), Tiles(job));
    QuotRemSum(x, TileLen(job));
    forall i: nat | i < |job.c0| && Owner(job, i) == t && StoreTime(job, i) == x
      ensures y >= StoreBase(job) && i == AccCell(job, t, tile, y - StoreBase(job))
    {
      StoreTimeUnique(job, t, x, i);
    }
    if y >= StoreBase(job) {
      var q := y - StoreBase(job);
      StoreTimeOf(job, t, tile, q);
      assert Terms(job, y, q / 4) == job.lda;
      assert acc[q] == CTarget(job, AccCell(job, t, tile, q));
    }
  }

  // --------------------------------------------------- the four proof obligations

  lemma OwnInit(job: Job, t: nat, m: Mem)
    requires Ok(job) && t < job.ncores && |m.buf| == |job.b| && m.c == job.c0
    ensures Own(job, t, 0, 0, Start(), m)
  {
  }

  lemma FillStep(job: Job, t: nat, x: nat, acc: seq<int>, m: Mem)
    requires Ok(job) && Own(job, t, 0, x, acc, m) && x < Len(job, t, 0)
    ensures var (acc', m') := Op(job, t, 0, x, acc, m);
            Own(job, t, 0, x + 1, acc', m') && m'.c == m.c && acc' == acc &&
            forall i :: 0 <= i < |m.buf| ==> m'.buf[i] == m.buf[i] || m'.buf[i] == At(job.b, i)
  {
    FillRange(job, t);
  }

  lemma TileStep(job: Job, t: nat, x: nat, acc: seq<int>, m: Mem)
    requires Ok(job) && Own(job, t, 1, x, acc, m) && x < Len(job, t, 1) && Ready(job, 1, m)
    ensures var (acc', m') := Op(job, t, 1, x, acc, m); Own(job, t, 1, x + 1, acc', m')
  {
    var tile, y := Quot(x, TileLen(job)), Rem(x, TileLen(job));
    QuotBound(x, TileLen(job), Tiles(job));
    QuotRemSum(x, TileLen(job));
    RowsStep(job, t, x, acc, m);
    NextSlot(x, TileLen(job));
    if y < 16 {
      StoreTimeOf(job, t, tile, y);
    }
    AccStep(job, t, tile, y, acc, m);
  }

  /** A core's step takes its assertion to the next position. */
  lemma OwnStep(job: Job, t: nat, p: nat, x: nat, acc: seq<int>, m: Mem)
    requires Ok(job) && Own(job, t, p, x, acc, m) && x < Len(job, t, p) && Ready(job, p, m)
    ensures var (acc', m') := Op(job, t, p, x, acc, m); Own(job, t, p, x + 1, acc', m')
  {
    if p == 0 {
      FillStep(job, t, x, acc, m);
    } else {
      TileStep(job, t, x, acc, m);
    }
  }

  /** ... and leaves the assertions of the others alone. */
  lemma OwnStable(job: Job, t: nat, p: nat, x: nat, acc: seq<int>, m: Mem,
                  u: nat, q: nat, y: nat, other: seq<int>)
    requires Ok(job) && Own(job, t, p, x, acc, m) && x < Len(job, t, p)
    requires u != t && Own(job, u, q, y, other, m)
    ensures Own(job, u, q, y, other, Op(job, t, p, x, acc, m).1)
  {
    if p == 0 {
      FillStep(job, t, x, acc, m);
    } else {
      RowsStep(job, t, x, acc, m);
    }
  }

  /** Passing the barrier starts the tiles. */
  lemma OwnNext(job: Job, t: nat, acc: seq<int>, m: Mem)
    requires Own(job, t, 0, Len(job, t, 0), acc, m)
    ensures Own(job, t, 1, 0, Start(), m)
  {
    assert Rem(0, TileLen(job)) == 0;
  }

  lemma OwnDone(job: Job, u: nat, q: nat, y: nat, acc: seq<int>, m: Mem, p: nat)
    requires Own(job, u, q, y, acc, m)
    requires p <= q || (p == q + 1 && y == Len(job, u, q))
    ensures Done(job, u, p, m)
  {
  }

  /** When core `t` has finished, its rows of C are those of C0 + A * B. */
  lemma OwnFinal(job: Job, t: nat, acc: seq<int>, m: Mem, row: nat, col: nat)
    requires Ok(job) && Own(job, t, 1, Len(job, t, 1), acc, m)
    requires row < job.lda && col < job.lda && Quot(row, job.per) == t
    ensures At(m.c, Cell(job.lda, row, col))
         == At(job.c0, Cell(job.lda, row, col)) + Entry(job.a, job.b, job.lda, row, col)
  {
    var i := Cell(job.lda, row, col);
    QuotRem(i, job.lda, row, col);
    CellBound(job.lda, row, col);
    StoreTimeBound(job, t, row, col);
  }

  lemma StoreTimeBound(job: Job, t: nat, row: nat, col: nat)
    requires Ok(job) && t < job.ncores && row < job.lda && col < job.lda && Quot(row, job.per) == t
    ensures StoreTime(job, Cell(job.lda, row, col)) < Len(job, t, 1)
  {
    FourDivides(job);
    QuotRem(Cell(job.lda, row, col), job.lda, row, col);
    var rr := Rem(row, job.per);
    assert rr / 4 < job.per / 4 && col / 4 < job.lda / 4;
    BlockIndex(Tiles(job), job.per / 4, job.lda / 4, rr / 4, col / 4);
    BlockIndex(Len(job, t, 1), Tiles(job), TileLen(job), TileAt(job, rr, col),
               StoreBase(job) + 4 * (col % 4) + rr % 4);
  }
}
