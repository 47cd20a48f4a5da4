/** `mt/bs_matmul.c` and `mt/ds_matmul.c` with all cores at once: every load and every store of
    an element of C is a step of its own, and the schedule is arbitrary.  There is no barrier; the
    cores are kept apart by their rows. */
module RowInterleaving {
  import opened Arith
  import opened Matrix

  /** Rows `ncores` apart, one value of k at a time; or four neighbouring rows and two values. */
  datatype Kind = Strided | Quads {
    function Step(): nat { if Strided? then 1 else 2 }
  }

  datatype Job = Job(kind: Kind, ncores: nat, lda: nat, a: seq<int>, b: seq<int>, c0: seq<int>)

  /** Rows that are `ncores` apart come in full groups of four for every core. */
  ghost predicate Ok(job: Job) {
    && job.ncores > 0 && job.lda % 4 == 0 && (job.kind.Strided? ==> Rem(job.lda, 4 * job.ncores) == 0)
    && |job.a| == |job.b| == |job.c0| == job.lda * job.lda
  }

  /** Row `u` of group `g` of core `t`. */
  function Row(job: Job, t: nat, g: nat, u: nat): nat {
    if job.kind.Strided? then (4 * g + u) * job.ncores + t else 4 * (g * job.ncores + t) + u
  }

  /** The groups of core `t`; with four neighbouring rows some cores may have one more than others. */
  function Groups(job: Job, t: nat): nat
    requires t < job.ncores
  {
    if job.kind.Strided? then Quot(job.lda, 4 * job.ncores) else Quot(job.lda / 4 + (job.ncores - 1 - t), job.ncores)
  }

  /** Where a core is: group, first k of the round, column, and statement of the loop body; `loaded`
      between the load and the store of a statement. */
  datatype Pos = Pos(g: nat, k: nat, i: nat, v: nat, loaded: bool, reg: int)

  const START := Pos(0, 0, 0, 0, false, 0)

  /** The loop over the groups has ended: its first row is no row of the matrix. */
  predicate Finished(job: Job, t: nat, p: Pos) { Row(job, t, p.g, 0) >= job.lda }

  predicate InGroup(job: Job, p: Pos) {
    p.k < job.lda && p.k % job.kind.Step() == 0 && p.i < job.lda && p.v < 4 * job.kind.Step()
  }

  predicate Within(job: Job, t: nat, p: Pos)
    requires t < job.ncores
  {
    if !Finished(job, t, p) then InGroup(job, p)
    else p == Pos(Groups(job, t), 0, 0, 0, false, p.reg)
  }

  /** The statement after this one: the loops over statements, columns, k and groups. */
  function Advance(job: Job, p: Pos): Pos {
    var s := job.kind.Step();
    if p.v + 1 < 4 * s then Pos(p.g, p.k, p.i, p.v + 1, false, p.reg)
    else if p.i + 1 < job.lda then Pos(p.g, p.k, p.i + 1, 0, false, p.reg)
    else if p.k + s < job.lda then Pos(p.g, p.k + s, 0, 0, false, p.reg)
    else Pos(p.g + 1, 0, 0, 0, false, p.reg)
  }

  /** The element of C that the statement at `p` updates, and the term it adds. */
  function Target(job: Job, t: nat, p: Pos): nat { Cell(job.lda, Row(job, t, p.g, p.v % 4), p.i) }

  function Term(job: Job, t: nat, p: Pos): int {
    var k := p.k + p.v / 4;
    At(job.a, Cell(job.lda, Row(job, t, p.g, p.v % 4), 0) + k) * At(job.b, p.i + k * job.lda)
  }

  datatype State = State(pos: seq<Pos>, c: seq<int>)

  function Init(job: Job): State { State(seq(job.ncores, t => START), job.c0) }

  predicate Sized(job: Job, s: State) { |s.pos| == job.ncores }

  /** Core `t` gets a turn: it loads, or adds and stores; a core that has finished does nothing. */
  function Turn(job: Job, s: State, t: nat): (r: State)
    requires Sized(job, s) && t < job.ncores
    ensures Sized(job, r)
  {
    var p := s.pos[t];
    if Finished(job, t, p) then s
    else if !p.loaded then s.(pos := s.pos[t := p.(loaded := true, reg := At(s.c, Target(job, t, p)))])
    else State(s.pos[t := Advance(job, p)], Put(s.c, Target(job, t, p), p.reg + Term(job, t, p)))
  }

  ghost predicate Schedules(sched: seq<nat>, ncores: nat) { forall i :: 0 <= i < |sched| ==> sched[i] < ncores }

  function Run(job: Job, s: State, sched: seq<nat>): (r: State)
    requires Sized(job, s) && Schedules(sched, job.ncores)
    ensures Sized(job, r)
    decreases |sched|
  {
    if sched == [] then s else Turn(job, Run(job, s, sched[..|sched| - 1]), sched[|sched| - 1])
  }

  // -------------------------------------------------------------------------- the rows

  /** No row belongs to two cores, groups or places in a group. */
  lemma RowsApart(job: Job, t: nat, g: nat, u: nat, t': nat, g': nat, u': nat)
    requires t < job.ncores && t' < job.ncores && u < 4 && u' < 4
    requires Row(job, t, g, u) == Row(job, t', g', u')
    ensures t == t' && g == g' && u == u'
  {
    var r := Row(job, t, g, u);
    if job.kind.Strided? {
      DivModUnique(r, job.ncores, 4 * g + u, t);
      DivModUnique(r, job.ncores, 4 * g' + u', t');
    } else {
      DivModUnique(r, 4, g * job.ncores + t, u);
      DivModUnique(r, 4, g' * job.ncores + t', u');
      DivModUnique(r / 4, job.ncores, g, t);
      DivModUnique(r / 4, job.ncores, g', t');
    }
  }

  /** The loop over the groups runs as often as the core has groups. */
  lemma GuardIs(job: Job, t: nat, g: nat)
    requires Ok(job) && t < job.ncores
    ensures Row(job, t, g, 0) < job.lda <==> g < Groups(job, t)
  {
    var n, m := job.ncores, Groups(job, t);
    if job.kind.Strided? {
      QuotRemSum(job.lda, 4 * n);
      BlockGuard(m, g, n, t);
      assert m * (4 * n) == 4 * (m * n) && 4 * g * n == 4 * (g * n);
    } else {
      var x := job.lda / 4 + (n - 1 - t);
      QuotRemSum(x, n);
      PartBlockGuard(m, g, n, Rem(x, n));
    }
  }

  lemma BlockGuard(m: nat, g: nat, n: nat, t: nat)
    requires t < n
    ensures 4 * (g * n) + t < 4 * (m * n) <==> g < m
  {
    if g < m { MulMono(g + 1, m, n); } else { MulMono(m, g, n); }
  }

  lemma PartBlockGuard(m: nat, g: nat, n: nat, r: nat)
    requires r < n
    ensures g * n + (n - 1) < m * n + r <==> g < m
  {
    if g < m { MulMono(g + 1, m, n); } else { MulMono(m, g, n); }
  }

  lemma RowBound(job: Job, t: nat, g: nat, u: nat)
    requires Ok(job) && t < job.ncores && Row(job, t, g, 0) < job.lda && u < 4
    ensures Row(job, t, g, u) < job.lda
  {
    if job.kind.Strided? {
      var n, m := job.ncores, Groups(job, t);
      GuardIs(job, t, g);
      QuotRemSum(job.lda, 4 * n);
      assert m * (4 * n) == (4 * m) * n;
      BlockIndex(job.lda, 4 * m, n, 4 * g + u, t);
    }
  }

  /** Every row belongs to some core. */
  lemma RowOf(job: Job, r: nat) returns (t: nat, g: nat, u: nat)
    requires Ok(job) && r < job.lda
    ensures t < job.ncores && g < Groups(job, t) && u < 4 && r == Row(job, t, g, u)
  {
    var n := job.ncores;
    if job.kind.Strided? {
      QuotRemSum(r, n);
      var q := Quot(r, n);
      t, g, u := Rem(r, n), q / 4, q % 4;
      assert 4 * g + u == q;
      MulMono(4 * g, q, n);
    } else {
      var q: nat := r / 4;
      QuotRemSum(q, n);
      t, g, u := Rem(q, n), Quot(q, n), r % 4;
    }
    GuardIs(job, t, g);
  }

  lemma CellsApart(lda: nat, r: nat, q: nat, r': nat, q': nat)
    requires q < lda && q' < lda && Cell(lda, r, q) == Cell(lda, r', q')
    ensures r == r' && q == q'
  {
    DivModUnique(Cell(lda, r, q), lda, r, q);
    DivModUnique(Cell(lda, r, q), lda, r', q');
  }

  // ---------------------------------------------------------------- what a core knows

  /** How many terms the element in row `u` of group `g`, column `i`, has got before `p`. */
  function Terms(job: Job, p: Pos, g: nat, u: nat, i: nat): nat
    requires u < 4
  {
    if g < p.g then job.lda
    else if g > p.g then 0
    else if i < p.i then p.k + job.kind.Step()
    else if i > p.i then p.k
    else p.k + (p.v + 3 - u) / 4
  }

  /** The element of C with its first `n` terms. */
  function Partial(job: Job, r: nat, i: nat, n: nat): int {
    At(job.c0, Cell(job.lda, r, i)) + Dot(job.a, Cell(job.lda, r, 0), job.b, i, job.lda, n)
  }

  ghost predicate RowsOk(job: Job, t: nat, p: Pos, c: seq<int>)
    requires t < job.ncores
  {
    forall g: nat, u: nat, i: nat :: g < Groups(job, t) && u < 4 && i < job.lda ==>
      At(c, Cell(job.lda, Row(job, t, g, u), i)) == Partial(job, Row(job, t, g, u), i, Terms(job, p, g, u, i))
  }

  ghost predicate Own(job: Job, t: nat, p: Pos, c: seq<int>)
    requires t < job.ncores
  {
    && |c| == |job.c0| && Within(job, t, p) && RowsOk(job, t, p, c)
    && (p.loaded ==> p.reg == At(c, Target(job, t, p)))
  }

  /** A statement gives one element one more term, which is the next one. */
  lemma TermsAdvance(job: Job, p: Pos, g: nat, u: nat, i: nat)
    requires InGroup(job, p) && u < 4 && i < job.lda && job.lda % 2 == 0
    ensures var here := g == p.g && u == p.v % 4 && i == p.i;
            Terms(job, Advance(job, p), g, u, i) == Terms(job, p, g, u, i) + if here then 1 else 0
    ensures Terms(job, p, p.g, p.v % 4, p.i) == p.k + p.v / 4
  {
    Statement(p.v, u);
    Statement(p.v, p.v % 4);
    if p.v + 1 == 4 * job.kind.Step() && p.k + job.kind.Step() >= job.lda { LastRound(job, p); }
  }

  lemma LastRound(job: Job, p: Pos)
    requires InGroup(job, p) && job.lda % 2 == 0 && p.k + job.kind.Step() >= job.lda
    ensures p.k + job.kind.Step() == job.lda
  {
  }

  lemma Statement(v: nat, u: nat)
    requires v < 8 && u < 4
    ensures (v + 1 + 3 - u) / 4 == (v + 3 - u) / 4 + if u == v % 4 then 1 else 0
    ensures u == v % 4 ==> (v + 3 - u) / 4 == v / 4
    ensures v == 0 ==> (v + 3 - u) / 4 == 0
    ensures v == 3 ==> (v + 1 + 3 - u) / 4 == 1
    ensures v == 7 ==> (v + 1 + 3 - u) / 4 == 2
  {
  }

  lemma LoadKeepsOwn(job: Job, t: nat, p: Pos, c: seq<int>)
    requires t < job.ncores && Own(job, t, p, c) && !Finished(job, t, p)
    ensures Own(job, t, p.(loaded := true, reg := At(c, Target(job, t, p))), c)
  {
    hide Row, Cell, Partial;
    var q := p.(loaded := true, reg := At(c, Target(job, t, p)));
    forall g: nat, u: nat, i: nat | g < Groups(job, t) && u < 4 && i < job.lda
      ensures At(c, Cell(job.lda, Row(job, t, g, u), i))
           == Partial(job, Row(job, t, g, u), i, Terms(job, q, g, u, i))
    {
      assert Terms(job, q, g, u, i) == Terms(job, p, g, u, i);
    }
  }

  lemma StoreKeepsOwn(job: Job, t: nat, p: Pos, c: seq<int>)
    requires Ok(job) && t < job.ncores && Own(job, t, p, c) && !Finished(job, t, p) && p.loaded
    ensures Own(job, t, Advance(job, p), Put(c, Target(job, t, p), p.reg + Term(job, t, p)))
  {
    var c' := Put(c, Target(job, t, p), p.reg + Term(job, t, p));
    AdvanceWithin(job, t, p);
    forall g: nat, u: nat, i: nat | g < Groups(job, t) && u < 4 && i < job.lda
      ensures At(c', Cell(job.lda, Row(job, t, g, u), i))
           == Partial(job, Row(job, t, g, u), i, Terms(job, Advance(job, p), g, u, i))
    {
      StoreOne(job, t, p, c, g, u, i);
    }
    hide Advance, Target, Term, Partial, Terms, Row;
  }

  lemma AdvanceWithin(job: Job, t: nat, p: Pos)
    requires Ok(job) && t < job.ncores && Within(job, t, p) && !Finished(job, t, p)
    ensures Within(job, t, Advance(job, p)) && !Advance(job, p).loaded
  {
    hide Row, Groups;
    GuardIs(job, t, p.g);
    GuardIs(job, t, p.g + 1);
  }

  lemma StoreOne(job: Job, t: nat, p: Pos, c: seq<int>, g: nat, u: nat, i: nat)
    requires Ok(job) && t < job.ncores && Own(job, t, p, c) && !Finished(job, t, p) && p.loaded
    requires g < Groups(job, t) && u < 4 && i < job.lda
    ensures var c' := Put(c, Target(job, t, p), p.reg + Term(job, t, p));
            At(c', Cell(job.lda, Row(job, t, g, u), i))
            == Partial(job, Row(job, t, g, u), i, Terms(job, Advance(job, p), g, u, i))
  {
    hide Row, Terms, Advance, Cell, Within, Dot, Partial, Target, Term, At;
    var x, r := Target(job, t, p), Row(job, t, g, u);
    OwnWithin(job, t, p, c);
    TermsAdvance(job, p, g, u, i);
    TargetIs(job, t, p, g, u, i);
    OwnElement(job, t, p, c, g, u, i);
    PutAt(c, x, p.reg + Term(job, t, p), Cell(job.lda, r, i));
    if Cell(job.lda, r, i) == x {
      TermIs(job, t, p);
      NextPartial(job, r, i, p.k + p.v / 4);
    }
  }

  lemma OwnElement(job: Job, t: nat, p: Pos, c: seq<int>, g: nat, u: nat, i: nat)
    requires t < job.ncores && Own(job, t, p, c) && g < Groups(job, t) && u < 4 && i < job.lda
    ensures At(c, Cell(job.lda, Row(job, t, g, u), i)) == Partial(job, Row(job, t, g, u), i, Terms(job, p, g, u, i))
    ensures p.loaded ==> p.reg == At(c, Target(job, t, p))
  {
    hide Row, Terms, Partial, Target;
  }

  lemma PutAt(c: seq<int>, x: nat, v: int, y: nat)
    requires x < |c|
    ensures At(Put(c, x, v), y) == if y == x then v else At(c, y)
  {
  }

  lemma TermIs(job: Job, t: nat, p: Pos)
    ensures var k := p.k + p.v / 4;
            Term(job, t, p) == At(job.a, Cell(job.lda, Row(job, t, p.g, p.v % 4), 0) + k) * At(job.b, p.i + k * job.lda)
  {
  }

  /** The target is inside C, and the element of no other row, group or column. */
  lemma TargetIs(job: Job, t: nat, p: Pos, g: nat, u: nat, i: nat)
    requires Ok(job) && t < job.ncores && Within(job, t, p) && !Finished(job, t, p)
    requires g < Groups(job, t) && u < 4 && i < job.lda
    ensures Target(job, t, p) < job.lda * job.lda
    ensures Cell(job.lda, Row(job, t, g, u), i) == Target(job, t, p) <==> g == p.g && u == p.v % 4 && i == p.i
  {
    hide Row, Cell;
    RowBound(job, t, p.g, p.v % 4);
    CellBound(job.lda, Row(job, t, p.g, p.v % 4), p.i);
    if Cell(job.lda, Row(job, t, g, u), i) == Target(job, t, p) {
      CellsApart(job.lda, Row(job, t, g, u), i, Row(job, t, p.g, p.v % 4), p.i);
      RowsApart(job, t, g, u, t, p.g, p.v % 4);
    }
  }

  lemma NextPartial(job: Job, r: nat, i: nat, k: nat)
    ensures Partial(job, r, i, k + 1)
         == Partial(job, r, i, k) + At(job.a, Cell(job.lda, r, 0) + k) * At(job.b, i + k * job.lda)
  {
  }

  /** A store of core `t` does not reach the rows of another core. */
  lemma StoreKeepsOthers(job: Job, t: nat, p: Pos, v: int, u: nat, q: Pos, c: seq<int>)
    requires Ok(job) && t < job.ncores && u < job.ncores && t != u
    requires Within(job, t, p) && !Finished(job, t, p) && Own(job, u, q, c)
    ensures Own(job, u, q, Put(c, Target(job, t, p), v))
  {
    hide Row, Terms, Partial, Cell;
    var c' := Put(c, Target(job, t, p), v);
    forall g: nat, w: nat, i: nat | w < 4 && i < job.lda
      ensures At(c', Cell(job.lda, Row(job, u, g, w), i)) == At(c, Cell(job.lda, Row(job, u, g, w), i))
    {
      if Cell(job.lda, Row(job, u, g, w), i) == Target(job, t, p) {
        CellsApart(job.lda, Row(job, u, g, w), i, Row(job, t, p.g, p.v % 4), p.i);
        RowsApart(job, u, g, w, t, p.g, p.v % 4);
      }
    }
  }

  // ------------------------------------------------------------------------- all cores

  ghost predicate Inv(job: Job, s: State) {
    Ok(job) && Sized(job, s) && forall t: nat :: t < job.ncores ==> Own(job, t, s.pos[t], s.c)
  }

  lemma InitInv(job: Job)
    requires Ok(job)
    ensures Inv(job, Init(job))
  {
    hide Own, Ok;
    forall t: nat | t < job.ncores ensures Own(job, t, START, job.c0) {
      StartOwn(job, t);
    }
  }

  lemma StartOwn(job: Job, t: nat)
    requires Ok(job) && t < job.ncores
    ensures Own(job, t, START, job.c0)
  {
    hide Row, Groups, Cell, Target;
    GuardIs(job, t, 0);
    forall g: nat, u: nat, i: nat | g < Groups(job, t) && u < 4 && i < job.lda
      ensures At(job.c0, Cell(job.lda, Row(job, t, g, u), i))
           == Partial(job, Row(job, t, g, u), i, Terms(job, START, g, u, i))
    {
      assert Terms(job, START, g, u, i) == 0;
    }
  }

  /** Every step of every core keeps what all cores know. */
  lemma TurnKeepsInv(job: Job, s: State, t: nat)
    requires Inv(job, s) && t < job.ncores
    ensures Inv(job, Turn(job, s, t))
  {
    hide Own, Ok;
    var p, s' := s.pos[t], Turn(job, s, t);
    forall u: nat | u < job.ncores ensures Own(job, u, s'.pos[u], s'.c) {
      assert Own(job, t, p, s.c) && Own(job, u, s.pos[u], s.c);
      OwnWithin(job, t, p, s.c);
      if Finished(job, t, p) {
      } else if u == t {
        if p.loaded { StoreKeepsOwn(job, t, p, s.c); } else { LoadKeepsOwn(job, t, p, s.c); }
      } else if p.loaded {
        StoreKeepsOthers(job, t, p, p.reg + Term(job, t, p), u, s.pos[u], s.c);
      }
    }
  }

  lemma OwnWithin(job: Job, t: nat, p: Pos, c: seq<int>)
    requires t < job.ncores && Own(job, t, p, c)
    ensures Within(job, t, p)
  {
  }

  lemma {:induction false} ReachableInv(job: Job, sched: seq<nat>)
    requires Ok(job) && Schedules(sched, job.ncores)
    ensures Inv(job, Run(job, Init(job), sched))
    decreases |sched|
  {
    hide Inv, Turn, Ok;
    InitInv(job);
    if sched != [] {
      var n := |sched| - 1;
      ReachableInv(job, sched[..n]);
      TurnKeepsInv(job, Run(job, Init(job), sched[..n]), sched[n]);
    }
  }

  // ----------------------------------------------------------------------- the product

  predicate Complete(job: Job, s: State)
    requires Sized(job, s)
  {
    forall t: nat :: t < job.ncores ==> Finished(job, t, s.pos[t])
  }

  /** In every interleaving, once all cores have finished, C = C0 + A * B. */
  lemma Multiplies(job: Job, sched: seq<nat>, row: nat, col: nat)
    requires Ok(job) && Schedules(sched, job.ncores) && row < job.lda && col < job.lda
    ensures var s := Run(job, Init(job), sched);
            Complete(job, s) ==>
              At(s.c, Cell(job.lda, row, col))
              == At(job.c0, Cell(job.lda, row, col)) + Entry(job.a, job.b, job.lda, row, col)
  {
    ReachableInv(job, sched);
    var s := Run(job, Init(job), sched);
    var t, g, u := RowOf(job, row);
    hide Run, Row, Init;
    if Complete(job, s) { assert Own(job, t, s.pos[t], s.c); }
  }

  // -------------------------------------------------------------------- how long it takes

  /** The steps a core has made, from its position. */
  function Made(job: Job, p: Pos): nat {
    8 * (job.lda * job.lda) * p.g + 8 * job.lda * p.k + 8 * job.kind.Step() * p.i + 2 * p.v + if p.loaded then 1 else 0
  }

  /** The steps of each core's program. */
  function Steps(job: Job, t: nat): nat
    requires t < job.ncores
  { 8 * (job.lda * job.lda) * Groups(job, t) }

  lemma AdvanceMade(job: Job, p: Pos)
    requires InGroup(job, p) && job.lda % 2 == 0 && p.loaded
    ensures Made(job, Advance(job, p)) == Made(job, p) + 1
  {
    var s, l := job.kind.Step(), job.lda;
    if p.v + 1 < 4 * s {
    } else if p.i + 1 < l {
      Distribute(8 * s, p.i, 1);
    } else if p.k + s < l {
      Distribute(8 * l, p.k, s);
      WholeRow(s, l);
    } else {
      LastRound(job, p);
      Distribute(8 * (l * l), p.g, 1);
      Distribute(8 * l, p.k, s);
      WholeRow(s, l);
      EightRows(l);
    }
  }

  lemma Distribute(x: int, y: int, z: int)
    ensures x * (y + z) == x * y + x * z
  {
  }

  /** All columns of a row but the last, and the last. */
  lemma WholeRow(s: nat, l: nat)
    ensures 8 * s * (l - 1) + 8 * s == 8 * l * s
  {
  }

  lemma EightRows(l: nat)
    ensures 8 * l * l == 8 * (l * l)
  {
  }

  lemma MadeBelow(job: Job, t: nat, p: Pos)
    requires Ok(job) && t < job.ncores && Within(job, t, p)
    ensures if Finished(job, t, p) then Made(job, p) == Steps(job, t) else Made(job, p) < Steps(job, t)
  {
    GuardIs(job, t, p.g);
    if !Finished(job, t, p) {
      RoundFits(job, p);
      var last := 2 * p.v + if p.loaded then 1 else 0;
      var rest := RestBelow(job.kind.Step(), job.lda, p.k, p.i, last);
      Digits(8 * (job.lda * job.lda), p.g, Groups(job, t), rest);
    }
  }

  /** What a core has made of its group is less than the group. */
  lemma RestBelow(s: nat, l: nat, k: nat, i: nat, last: nat) returns (rest: nat)
    requires k + s <= l && i < l && last < 8 * s
    ensures rest == 8 * l * k + 8 * s * i + last < 8 * (l * l)
  {
    Digits(8 * s, i, l, last);
    RoundsBelow(s, l, k);
    rest := 8 * l * k + (8 * s * i + last);
  }

  lemma RoundsBelow(s: nat, l: nat, k: nat)
    requires k + s <= l
    ensures 8 * l * k + 8 * s * l <= 8 * (l * l)
  {
    MulMono(k + s, l, 8 * l);
    assert (k + s) * (8 * l) == 8 * l * k + 8 * s * l;
    assert l * (8 * l) == 8 * (l * l);
  }

  lemma RoundFits(job: Job, p: Pos)
    requires InGroup(job, p) && job.lda % 2 == 0
    ensures p.k + job.kind.Step() <= job.lda
  {
  }

  /** A number with the digit `d` below `n` and a rest below the base. */
  lemma Digits(base: nat, d: nat, n: nat, rest: nat)
    requires d < n && rest < base
    ensures base * d + rest < base * n
  {
    MulMono(d + 1, n, base);
    assert (d + 1) * base == base * d + base;
  }

  function Turns(sched: seq<nat>, t: nat): nat {
    if sched == [] then 0 else Turns(sched[..|sched| - 1], t) + if sched[|sched| - 1] == t then 1 else 0
  }

  /** Nobody ever waits: a core has made as many steps as it had turns, until it has finished. */
  lemma {:induction false} NobodyWaits(job: Job, sched: seq<nat>, t: nat)
    requires Ok(job) && Schedules(sched, job.ncores) && t < job.ncores
    ensures Made(job, Run(job, Init(job), sched).pos[t])
         == if Turns(sched, t) < Steps(job, t) then Turns(sched, t) else Steps(job, t)
    decreases |sched|
  {
    hide Made, Steps, Own, Within, Advance, Target, Term;
    var s := Run(job, Init(job), sched);
    if sched == [] {
      StartMade(job, t);
    } else {
      var n := |sched| - 1;
      NobodyWaits(job, sched[..n], t);
      ReachableInv(job, sched[..n]);
      var u := Run(job, Init(job), sched[..n]);
      assert Own(job, t, u.pos[t], u.c);
      TurnMade(job, u, t);
    }
  }

  lemma StartMade(job: Job, t: nat)
    requires t < job.ncores
    ensures Made(job, START) == 0 <= Steps(job, t)
  {
  }

  lemma TurnMade(job: Job, s: State, t: nat)
    requires Inv(job, s) && t < job.ncores
    ensures var m, m' := Made(job, s.pos[t]), Made(job, Turn(job, s, t).pos[t]);
            m <= Steps(job, t) && m' == if m < Steps(job, t) then m + 1 else m
  {
    hide Made, Steps, Advance, Own, Ok, Row, Groups, Target, Term, InGroup;
    var p := s.pos[t];
    EvenSize(job);
    OwnWithin(job, t, p, s.c);
    MadeBelow(job, t, p);
    if !Finished(job, t, p) {
      if p.loaded { AdvanceMade(job, p); } else { LoadMade(job, p, At(s.c, Target(job, t, p))); }
    }
  }

  lemma EvenSize(job: Job)
    requires Ok(job)
    ensures job.lda % 2 == 0
  {
  }

  lemma LoadMade(job: Job, p: Pos, reg: int)
    requires !p.loaded
    ensures Made(job, p.(loaded := true, reg := reg)) == Made(job, p) + 1
  {
  }

  predicate EnoughTurns(job: Job, sched: seq<nat>) {
    forall t: nat :: t < job.ncores ==> Turns(sched, t) >= Steps(job, t)
  }

  /** The kernel is complete exactly when every core has had as many turns as its program has steps;
      so every schedule that keeps giving turns to all cores completes it. */
  lemma CompleteExactly(job: Job, sched: seq<nat>)
    requires Ok(job) && Schedules(sched, job.ncores)
    ensures Complete(job, Run(job, Init(job), sched)) <==> EnoughTurns(job, sched)
  {
    hide Steps, Run, Turns, Finished;
    var s := Run(job, Init(job), sched);
    if Complete(job, s) {
      forall t: nat | t < job.ncores ensures Turns(sched, t) >= Steps(job, t) {
        FinishedExactly(job, sched, t);
      }
      assert EnoughTurns(job, sched);
    } else {
      var t: nat :| t < job.ncores && !Finished(job, t, s.pos[t]);
      FinishedExactly(job, sched, t);
      assert Turns(sched, t) < Steps(job, t);
    }
  }

  lemma FinishedExactly(job: Job, sched: seq<nat>, t: nat)
    requires Ok(job) && Schedules(sched, job.ncores) && t < job.ncores
    ensures Finished(job, t, Run(job, Init(job), sched).pos[t]) <==> Turns(sched, t) >= Steps(job, t)
  {
    hide Made, Steps, Run, Turns, Within, Finished;
    ReachableInv(job, sched);
    NobodyWaits(job, sched, t);
    var s := Run(job, Init(job), sched);
    assert Own(job, t, s.pos[t], s.c);
    MadeBelow(job, t, s.pos[t]);
  }
}
