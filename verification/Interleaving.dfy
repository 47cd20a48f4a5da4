/** The two kernels that share a static buffer, run by all cores at once.

    A turn of a core is one step of its kernel's current phase or, when the phase
    is over, one step of `Barrier`.  Schedules are arbitrary, so what is proved
    here holds in every sequentially consistent interleaving. */
module Interleaving {
  import opened Arith
  import opened Matrix
  import opened SharedJob
  import Barrier
  import T = TransposeKernel
  import C = CopyKernel

  datatype Kernel = Transpose(job: Job) | Copy(job: Job)

  /** Progress within the current phase, and the local accumulators. */
  datatype Local = Local(pos: nat, acc: seq<int>)

  datatype State = State(b: Barrier.State, loc: seq<Local>, mem: Mem)

  ghost predicate Ok(k: Kernel) {
    match k case Transpose(job) => T.Ok(job) case Copy(job) => C.Ok(job)
  }

  function Calls(k: Kernel): nat {
    match k case Transpose(job) => T.Calls(job) case Copy(job) => C.Calls(job)
  }

  function Len(k: Kernel, t: nat, p: nat): nat {
    match k case Transpose(job) => T.Len(job, p) case Copy(job) => C.Len(job, t, p)
  }

  function Start(k: Kernel): Local {
    Local(0, match k case Transpose(_) => T.Start() case Copy(_) => C.Start())
  }

  function Op(k: Kernel, t: nat, p: nat, l: Local, m: Mem): (seq<int>, Mem) {
    match k
    case Transpose(job) => T.Op(job, t, p, l.pos, l.acc, m)
    case Copy(job) => C.Op(job, t, p, l.pos, l.acc, m)
  }

  ghost predicate Own(k: Kernel, t: nat, p: nat, l: Local, m: Mem) {
    match k
    case Transpose(job) => T.Own(job, t, p, l.pos, l.acc, m)
    case Copy(job) => C.Own(job, t, p, l.pos, l.acc, m)
  }

  ghost predicate Done(k: Kernel, u: nat, p: nat, m: Mem) {
    match k case Transpose(job) => T.Done(job, u, p, m) case Copy(job) => C.Done(job, u, p, m)
  }

  /** The static buffer holds anything at all when the cores start. */
  function Init(k: Kernel, buf: seq<int>): State {
    State(Barrier.Init(k.job.ncores), seq(k.job.ncores, t => Start(k)), Mem(buf, k.job.c0))
  }

  ghost predicate Sized(k: Kernel, s: State) {
    |s.b.threads| == |s.loc| == k.job.ncores
  }

  /** The core is in the middle of a phase. */
  ghost predicate Working(k: Kernel, s: State, t: nat)
    requires Sized(k, s) && t < k.job.ncores
  {
    s.b.threads[t].pc == Barrier.Outside && s.loc[t].pos < Len(k, t, s.b.threads[t].returned)
  }

  ghost function Turn(k: Kernel, s: State, t: nat): (r: State)
    requires Sized(k, s) && t < k.job.ncores
    ensures Sized(k, r)
  {
    var p := s.b.threads[t].returned;
    if Working(k, s, t) then
      var (acc, mem) := Op(k, t, p, s.loc[t], s.mem);
      s.(loc := s.loc[t := Local(s.loc[t].pos + 1, acc)], mem := mem)
    else
      var b := Barrier.Turn(s.b, t, Calls(k));
      s.(b := b, loc := if b.threads[t].returned == p then s.loc else s.loc[t := Start(k)])
  }

  ghost function Run(k: Kernel, s: State, sched: seq<nat>): (r: State)
    requires Sized(k, s) && Barrier.Schedules(sched, k.job.ncores)
    ensures Sized(k, r)
    decreases |sched|
  {
    if sched == [] then s
    else Turn(k, Run(k, s, sched[..|sched| - 1]), sched[|sched| - 1])
  }

  // ---------------------------------------------------------------- invariant

  ghost predicate CoreOk(k: Kernel, s: State, t: nat)
    requires Sized(k, s) && t < k.job.ncores
  {
    var p := s.b.threads[t].returned;
    && Own(k, t, p, s.loc[t], s.mem)
    && (s.b.threads[t].pc != Barrier.Outside ==> s.loc[t].pos == Len(k, t, p))
  }

  ghost predicate Inv(k: Kernel, s: State) {
    && Ok(k) && Sized(k, s) && Barrier.Inv(s.b) && Barrier.Within(s.b, Calls(k))
    && forall t :: 0 <= t < k.job.ncores ==> s.b.threads[t].returned <= Calls(k) && CoreOk(k, s, t)
  }

  lemma InitInv(k: Kernel, buf: seq<int>)
    requires Ok(k) && |buf| == |k.job.b|
    ensures Inv(k, Init(k, buf))
  {
    var s := Init(k, buf);
    Barrier.InitInv(k.job.ncores);
    forall t | 0 <= t < k.job.ncores ensures CoreOk(k, s, t) {
      match k
      case Transpose(job) => T.OwnInit(job, t, s.mem);
      case Copy(job) => C.OwnInit(job, t, s.mem);
    }
  }

  /** The barrier at work: when a core is in phase `p`, every core has finished
      what it had to do in the phases before. */
  lemma BarrierOrders(k: Kernel, s: State, t: nat, u: nat)
    requires Inv(k, s) && t < k.job.ncores && u < k.job.ncores
    ensures Done(k, u, s.b.threads[t].returned, s.mem)
  {
    var p, q := s.b.threads[t].returned, s.b.threads[u].returned;
    assert Barrier.ThreadOk(s.b.threads[t], s.b.rounds) && Barrier.ThreadOk(s.b.threads[u], s.b.rounds);
    assert CoreOk(k, s, u);
    match k
    case Transpose(job) => T.OwnDone(job, u, q, s.loc[u].pos, s.loc[u].acc, s.mem, p);
    case Copy(job) => C.OwnDone(job, u, q, s.loc[u].pos, s.loc[u].acc, s.mem, p);
  }

  lemma AllReady(k: Kernel, s: State, t: nat)
    requires Inv(k, s) && t < k.job.ncores
    ensures var p := s.b.threads[t].returned;
            match k case Transpose(job) => T.Ready(job, p, s.mem) case Copy(job) => C.Ready(job, p, s.mem)
  {
    forall u | 0 <= u < k.job.ncores
      ensures Done(k, u, s.b.threads[t].returned, s.mem)
      ensures k.Transpose? ==> T.Done(k.job, u, s.b.threads[t].returned, s.mem)
      ensures k.Copy? ==> C.Done(k.job, u, s.b.threads[t].returned, s.mem)
    {
      BarrierOrders(k, s, t, u);
    }
  }

  /** A step of core `t` keeps the assertion of core `u`, be it the same core or not. */
  lemma OpKeepsOwn(k: Kernel, t: nat, p: nat, l: Local, m: Mem, u: nat, q: nat, o: Local)
    requires Ok(k) && Own(k, t, p, l, m) && l.pos < Len(k, t, p)
    requires match k case Transpose(job) => T.Ready(job, p, m) case Copy(job) => C.Ready(job, p, m)
    requires Own(k, u, q, o, m) && (t == u ==> q == p && o == l)
    ensures var (acc, m') := Op(k, t, p, l, m);
            Own(k, u, q, if t == u then Local(l.pos + 1, acc) else o, m')
  {
    match k
    case Transpose(job) =>
      if t == u { T.OwnStep(job, t, p, l.pos, l.acc, m); }
      else { T.OwnStable(job, t, p, l.pos, l.acc, m, u, q, o.pos, o.acc); }
    case Copy(job) =>
      if t == u { C.OwnStep(job, t, p, l.pos, l.acc, m); }
      else { C.OwnStable(job, t, p, l.pos, l.acc, m, u, q, o.pos, o.acc); }
  }

  lemma WorkTurn(k: Kernel, s: State, t: nat)
    requires Sized(k, s) && t < k.job.ncores && Working(k, s, t)
    ensures var (acc, mem) := Op(k, t, s.b.threads[t].returned, s.loc[t], s.mem);
            Turn(k, s, t) == State(s.b, s.loc[t := Local(s.loc[t].pos + 1, acc)], mem)
  {
  }

  lemma WorkKeepsOwn(k: Kernel, s: State, t: nat, u: nat)
    requires Inv(k, s) && t < k.job.ncores && u < k.job.ncores && Working(k, s, t)
    ensures CoreOk(k, Turn(k, s, t), u)
  {
    AllReady(k, s, t);
    assert CoreOk(k, s, t) && CoreOk(k, s, u);
    hide Own, Op, Len, Ok, Calls, Inv, Turn;
    WorkTurn(k, s, t);
    OpKeepsOwn(k, t, s.b.threads[t].returned, s.loc[t], s.mem, u, s.b.threads[u].returned, s.loc[u]);
  }

  lemma NextPhase(k: Kernel, t: nat, p: nat, l: Local, m: Mem)
    requires Ok(k) && p < Calls(k) && l.pos == Len(k, t, p) && Own(k, t, p, l, m)
    ensures Own(k, t, p + 1, Start(k), m)
  {
    match k
    case Transpose(job) => T.OwnNext(job, t, p, l.acc, m);
    case Copy(job) => C.OwnNext(job, t, l.acc, m);
  }

  lemma BarrierKeepsOwn(k: Kernel, s: State, t: nat, u: nat)
    requires Inv(k, s) && t < k.job.ncores && u < k.job.ncores && !Working(k, s, t)
    ensures CoreOk(k, Turn(k, s, t), u) && Turn(k, s, t).b.threads[u].returned <= Calls(k)
  {
    assert CoreOk(k, s, u);
    var s' := Turn(k, s, t);
    var p := s.b.threads[t].returned;
    if u == t && s'.b.threads[t].returned != p {
      assert Barrier.ThreadOk(s.b.threads[t], s.b.rounds);
      NextPhase(k, t, p, s.loc[t], s.mem);
    }
    hide Own, Op, Len, Ok, Calls, Barrier.Inv, Barrier.Within, Barrier.ThreadOk;
  }

  lemma TurnKeepsInv(k: Kernel, s: State, t: nat)
    requires Inv(k, s) && t < k.job.ncores
    ensures Inv(k, Turn(k, s, t))
  {
    forall u | 0 <= u < k.job.ncores
      ensures Turn(k, s, t).b.threads[u].returned <= Calls(k) && CoreOk(k, Turn(k, s, t), u)
    {
      if Working(k, s, t) { WorkKeepsOwn(k, s, t, u); } else { BarrierKeepsOwn(k, s, t, u); }
    }
    if !Working(k, s, t) {
      Barrier.RunOne(s.b, t, Calls(k));
      Barrier.RunKeepsInv(s.b, [t], Calls(k));
    }
  }

  lemma {:induction false} RunKeepsInv(k: Kernel, s: State, sched: seq<nat>)
    requires Inv(k, s) && Barrier.Schedules(sched, k.job.ncores)
    ensures Inv(k, Run(k, s, sched))
    decreases |sched|
  {
    if sched != [] {
      var n := |sched| - 1;
      RunKeepsInv(k, s, sched[..n]);
      TurnKeepsInv(k, Run(k, s, sched[..n]), sched[n]);
    }
  }

  lemma ReachableInv(k: Kernel, buf: seq<int>, sched: seq<nat>)
    requires Ok(k) && |buf| == |k.job.b| && Barrier.Schedules(sched, k.job.ncores)
    ensures Inv(k, Run(k, Init(k, buf), sched))
  {
    InitInv(k, buf);
    RunKeepsInv(k, Init(k, buf), sched);
  }

  // ------------------------------------------------------------- what is shared

  /** `ae_matmul`: as soon as any core is past the barriers of the fill, the whole
      buffer is the transpose of B, so every later read of BB is right. */
  lemma TransposeReadsRight(job: Job, buf: seq<int>, sched: seq<nat>, t: nat, i: nat, j: nat)
    requires T.Ok(job) && |buf| == |job.b| && Barrier.Schedules(sched, job.ncores)
    requires t < job.ncores && i < job.lda && j < job.lda
    ensures var k := Transpose(job);
            var s := Run(k, Init(k, buf), sched);
            s.b.threads[t].returned >= job.lda ==>
              At(s.mem.buf, Cell(job.lda, i, j)) == At(job.b, Cell(job.lda, j, i))
  {
    var k := Transpose(job);
    ReachableInv(k, buf, sched);
    var s := Run(k, Init(k, buf), sched);
    if s.b.threads[t].returned >= job.lda {
      AllReady(k, s, t);
      T.ReadsTransposed(job, s.b.threads[t].returned, s.mem, i, j);
    }
  }

  /** `dm_matmul`: as soon as any core is past the barrier, B1 is B. */
  lemma CopyReadsRight(job: Job, buf: seq<int>, sched: seq<nat>, t: nat, i: nat)
    requires C.Ok(job) && |buf| == |job.b| && Barrier.Schedules(sched, job.ncores)
    requires t < job.ncores && i < job.lda * job.lda
    ensures var k := Copy(job);
            var s := Run(k, Init(k, buf), sched);
            s.b.threads[t].returned >= 1 ==> At(s.mem.buf, i) == At(job.b, i)
  {
    var k := Copy(job);
    ReachableInv(k, buf, sched);
    var s := Run(k, Init(k, buf), sched);
    if s.b.threads[t].returned >= 1 {
      AllReady(k, s, t);
      C.BufferFull(job, s.mem, i);
    }
  }

  /** All barrier calls made, and all work done. */
  ghost predicate Complete(k: Kernel, s: State)
    requires Sized(k, s)
  {
    forall t :: 0 <= t < k.job.ncores ==>
      Barrier.Finished(s.b.threads[t], Calls(k)) && s.loc[t].pos == Len(k, t, Calls(k))
  }

  /** `ae_matmul` in every interleaving: when all cores are done, C = A * B. */
  lemma TransposeMultiplies(job: Job, buf: seq<int>, sched: seq<nat>, row: nat, col: nat)
    requires T.Ok(job) && |buf| == |job.b| && Barrier.Schedules(sched, job.ncores)
    requires row < job.lda && col < job.lda
    ensures var k := Transpose(job);
            var s := Run(k, Init(k, buf), sched);
            Complete(k, s) ==>
              At(s.mem.c, Cell(job.lda, row, col)) == Entry(job.a, job.b, job.lda, row, col)
  {
    var k := Transpose(job);
    ReachableInv(k, buf, sched);
    var s := Run(k, Init(k, buf), sched);
    if Complete(k, s) {
      QuotBound(row, job.per, job.ncores);
      var t := Quot(row, job.per);
      assert CoreOk(k, s, t);
      T.OwnFinal(job, t, s.loc[t].pos, s.loc[t].acc, s.mem, row, col);
    }
  }

  /** `dm_matmul` in every interleaving: when all cores are done, C = C0 + A * B. */
  lemma CopyMultiplies(job: Job, buf: seq<int>, sched: seq<nat>, row: nat, col: nat)
    requires C.Ok(job) && |buf| == |job.b| && Barrier.Schedules(sched, job.ncores)
    requires row < job.lda && col < job.lda
    ensures var k := Copy(job);
            var s := Run(k, Init(k, buf), sched);
            Complete(k, s) ==>
              At(s.mem.c, Cell(job.lda, row, col))
              == At(job.c0, Cell(job.lda, row, col)) + Entry(job.a, job.b, job.lda, row, col)
  {
    var k := Copy(job);
    ReachableInv(k, buf, sched);
    var s := Run(k, Init(k, buf), sched);
    if Complete(k, s) {
      QuotBound(row, job.per, job.ncores);
      var t := Quot(row, job.per);
      assert CoreOk(k, s, t);
      C.OwnFinal(job, t, s.loc[t].acc, s.mem, row, col);
    }
  }

  // ----------------------------------------------------------------- progress

  /** The steps of a core in phase `p` and all later ones. */
  function Ahead(k: Kernel, t: nat, p: nat): nat
    requires p <= Calls(k)
    decreases Calls(k) - p
  {
    Len(k, t, p) + if p == Calls(k) then 0 else Ahead(k, t, p + 1)
  }

  /** The steps of its kernel that core `t` has still to make. */
  ghost function Owing(k: Kernel, s: State, t: nat): nat
    requires Inv(k, s) && t < k.job.ncores
  {
    assert CoreOk(k, s, t);
    Ahead(k, t, s.b.threads[t].returned) - s.loc[t].pos
  }

  ghost function AllOwing(k: Kernel, s: State, n: nat): nat
    requires Inv(k, s) && n <= k.job.ncores
  {
    if n == 0 then 0 else AllOwing(k, s, n - 1) + Owing(k, s, n - 1)
  }

  /** The turns that can still change something: steps of the kernel and of the barrier. */
  ghost function Left(k: Kernel, s: State): nat
    requires Inv(k, s)
  {
    AllOwing(k, s, k.job.ncores) + Barrier.TotalLeft(s.b.threads, Calls(k))
  }

  lemma {:induction false} OwingUpdate(k: Kernel, s: State, s': State, t: nat, n: nat)
    requires Inv(k, s) && Inv(k, s') && t < k.job.ncores && n <= k.job.ncores
    requires forall u: nat :: u < k.job.ncores && u != t ==> Owing(k, s', u) == Owing(k, s, u)
    ensures AllOwing(k, s', n) + (if t < n then Owing(k, s, t) else 0)
         == AllOwing(k, s, n) + (if t < n then Owing(k, s', t) else 0)
  {
    hide Owing, Inv;
    if n > 0 { OwingUpdate(k, s, s', t, n - 1); }
  }

  /** A turn concerns only the core that has it. */
  lemma OthersStay(k: Kernel, s: State, t: nat, u: nat)
    requires Sized(k, s) && t < k.job.ncores && u < k.job.ncores && u != t
    ensures Turn(k, s, t).loc[u] == s.loc[u]
    ensures Turn(k, s, t).b.threads[u].returned == s.b.threads[u].returned
  {
    hide Op, Len, Calls;
  }

  lemma OthersOwe(k: Kernel, s: State, t: nat, u: nat)
    requires Inv(k, s) && t < k.job.ncores && u < k.job.ncores && u != t && Inv(k, Turn(k, s, t))
    ensures Owing(k, Turn(k, s, t), u) == Owing(k, s, u)
  {
    hide Turn, Ahead, Ok, Own, Calls, Len;
    OthersStay(k, s, t, u);
  }

  /** The core's own phase and position after its turn. */
  lemma OwnTurn(k: Kernel, s: State, t: nat)
    requires Inv(k, s) && t < k.job.ncores
    ensures var p, r := s.b.threads[t].returned, Turn(k, s, t);
            if Working(k, s, t) then r.loc[t].pos == s.loc[t].pos + 1 && r.b.threads[t].returned == p
            else if r.b.threads[t].returned == p then r.loc[t].pos == s.loc[t].pos
            else r.b.threads[t].returned == p + 1 && r.loc[t].pos == 0 && s.loc[t].pos == Len(k, t, p)
  {
    assert CoreOk(k, s, t);
    hide Own, Op, Len, Ok, Calls;
  }

  /** A step of the kernel is one less to make; a step of the barrier leaves the steps of the kernel. */
  lemma OwesLess(k: Kernel, s: State, t: nat)
    requires Inv(k, s) && t < k.job.ncores && Inv(k, Turn(k, s, t))
    ensures Owing(k, Turn(k, s, t), t) == Owing(k, s, t) - if Working(k, s, t) then 1 else 0
  {
    OwnTurn(k, s, t);
    hide Turn, Working, Own, Len, Ok, Calls;
  }

  /** Every turn that changes anything brings the kernel closer to its end. */
  lemma TurnGetsCloser(k: Kernel, s: State, t: nat)
    requires Inv(k, s) && t < k.job.ncores && Turn(k, s, t) != s
    ensures Inv(k, Turn(k, s, t)) && Left(k, Turn(k, s, t)) < Left(k, s)
  {
    TurnKeepsInv(k, s, t);
    OwesLess(k, s, t);
    forall u: nat | u < k.job.ncores && u != t ensures Owing(k, Turn(k, s, t), u) == Owing(k, s, u) {
      OthersOwe(k, s, t, u);
    }
    OwingUpdate(k, s, Turn(k, s, t), t, k.job.ncores);
    if !Working(k, s, t) { BarrierMoves(k, s, t); }
    hide Owing, AllOwing, Inv, Own, Op;
  }

  lemma IdleTurn(k: Kernel, s: State, t: nat)
    requires Sized(k, s) && t < k.job.ncores && !Working(k, s, t)
    ensures Turn(k, s, t).b == Barrier.Turn(s.b, t, Calls(k))
    ensures Barrier.Turn(s.b, t, Calls(k)) == s.b ==> Turn(k, s, t) == s
  {
  }

  lemma BarrierMoves(k: Kernel, s: State, t: nat)
    requires Inv(k, s) && t < k.job.ncores && !Working(k, s, t) && Turn(k, s, t) != s
    ensures Barrier.TotalLeft(Turn(k, s, t).b.threads, Calls(k)) < Barrier.TotalLeft(s.b.threads, Calls(k))
  {
    IdleTurn(k, s, t);
    Barrier.TurnDecreases(s.b, t, Calls(k));
  }

  /** Nobody at work and no more barrier calls to make: the kernel is complete. */
  lemma IdleIsComplete(k: Kernel, s: State)
    requires Inv(k, s) && Barrier.AllFinished(s.b, Calls(k))
    requires forall t :: 0 <= t < k.job.ncores ==> !Working(k, s, t)
    ensures Complete(k, s)
  {
    forall t | 0 <= t < k.job.ncores
      ensures Barrier.Finished(s.b.threads[t], Calls(k)) && s.loc[t].pos == Len(k, t, Calls(k))
    {
      assert CoreOk(k, s, t) && !Working(k, s, t);
      assert Own(k, t, Calls(k), s.loc[t], s.mem);
    }
  }

  /** Unless the kernel is complete, some core has a turn that changes something. */
  lemma SomeoneCanMove(k: Kernel, s: State) returns (t: nat)
    requires Inv(k, s) && !Complete(k, s)
    ensures t < k.job.ncores && Turn(k, s, t) != s
  {
    if w: nat :| w < k.job.ncores && Working(k, s, w) {
      t := w;
      assert Turn(k, s, t).loc[t].pos != s.loc[t].pos;
    } else {
      hide Own, Op, Done;
      if Barrier.AllFinished(s.b, Calls(k)) { IdleIsComplete(k, s); }
      t := Barrier.SomeoneCanMove(s.b, Calls(k));
    }
  }

  /** The continuation `more` lets every core finish. */
  ghost predicate Completes(k: Kernel, s: State, more: seq<nat>) {
    Sized(k, s) && Barrier.Schedules(more, k.job.ncores) && Complete(k, Run(k, s, more))
  }

  lemma CompletesCons(k: Kernel, s: State, t: nat, rest: seq<nat>)
    requires Sized(k, s) && t < k.job.ncores && Completes(k, Turn(k, s, t), rest)
    ensures Completes(k, s, [t] + rest)
  {
    RunCons(k, s, t, rest);
  }

  /** From every state reached so far, some continuation completes the kernel. */
  lemma {:induction false} CanComplete(k: Kernel, s: State) returns (sched: seq<nat>)
    requires Inv(k, s)
    ensures Completes(k, s, sched)
    decreases Left(k, s)
  {
    sched := [];
    if !Complete(k, s) {
      hide Left, Turn, Completes;
      var t := SomeoneCanMove(k, s);
      TurnGetsCloser(k, s, t);
      var rest := CanComplete(k, Turn(k, s, t));
      CompletesCons(k, s, t, rest);
      sched := [t] + rest;
    }
  }

  lemma {:induction false} RunCons(k: Kernel, s: State, t: nat, rest: seq<nat>)
    requires Sized(k, s) && t < k.job.ncores && Barrier.Schedules(rest, k.job.ncores)
    ensures Run(k, s, [t] + rest) == Run(k, Turn(k, s, t), rest)
    decreases |rest|
  {
    var all := [t] + rest;
    if rest == [] {
      assert all[..0] == [];
      assert Run(k, s, all[..0]) == s;
    } else {
      var n := |rest| - 1;
      assert all[..|all| - 1] == [t] + rest[..n];
      RunCons(k, s, t, rest[..n]);
    }
  }

  /** Whatever the cores have done so far, the kernel can still be completed. */
  lemma Progress(k: Kernel, buf: seq<int>, sched: seq<nat>)
    requires Ok(k) && |buf| == |k.job.b| && Barrier.Schedules(sched, k.job.ncores)
    ensures exists more :: Completes(k, Run(k, Init(k, buf), sched), more)
  {
    ReachableInv(k, buf, sched);
    var s := Run(k, Init(k, buf), sched);
    var more := CanComplete(k, s);
  }

  /** How many turns of a run changed the state. */
  ghost function Moves(k: Kernel, s: State, sched: seq<nat>): nat
    requires Sized(k, s) && Barrier.Schedules(sched, k.job.ncores)
    decreases |sched|
  {
    if sched == [] then 0
    else
      var u := Run(k, s, sched[..|sched| - 1]);
      Moves(k, s, sched[..|sched| - 1]) + if Turn(k, u, sched[|sched| - 1]) != u then 1 else 0
  }

  /** No schedule, fair or not, makes more moves than were left at its start. */
  lemma {:induction false} MovesBounded(k: Kernel, s: State, sched: seq<nat>)
    requires Inv(k, s) && Barrier.Schedules(sched, k.job.ncores)
    ensures Inv(k, Run(k, s, sched)) && Moves(k, s, sched) + Left(k, Run(k, s, sched)) <= Left(k, s)
    decreases |sched|
  {
    hide Left, Turn, Ok, CoreOk, Calls;
    if sched != [] {
      var n := |sched| - 1;
      MovesBounded(k, s, sched[..n]);
      var u := Run(k, s, sched[..n]);
      if Turn(k, u, sched[n]) != u { TurnGetsCloser(k, u, sched[n]); }
    }
  }

  /** No schedule of a kernel, fair or not, makes more moves than the kernel has steps, and five for
      each barrier call of each core. */
  lemma AllMovesBounded(k: Kernel, buf: seq<int>, sched: seq<nat>)
    requires Ok(k) && |buf| == |k.job.b| && Barrier.Schedules(sched, k.job.ncores)
    ensures Moves(k, Init(k, buf), sched) <= Steps(k, k.job.ncores) + 5 * Calls(k) * k.job.ncores
  {
    hide Inv, AllOwing, Moves, Run, Steps, Ok;
    InitInv(k, buf);
    var s := Init(k, buf);
    Barrier.TotalLeftBound(s.b.threads, Calls(k));
    StepsOwing(k, s, k.job.ncores);
    MovesBounded(k, s, sched);
  }

  /** The steps of the kernel of the first `n` cores. */
  function Steps(k: Kernel, n: nat): nat { if n == 0 then 0 else Steps(k, n - 1) + Ahead(k, n - 1, 0) }

  lemma {:induction false} StepsOwing(k: Kernel, s: State, n: nat)
    requires Inv(k, s) && n <= k.job.ncores
    requires forall t: nat :: t < k.job.ncores ==> s.b.threads[t].returned == 0 && s.loc[t].pos == 0
    ensures AllOwing(k, s, n) == Steps(k, n)
  {
    hide Inv, Ahead;
    if n > 0 { StepsOwing(k, s, n - 1); }
  }
}
