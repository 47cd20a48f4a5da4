/** The sense-reversing barrier of `util.h`, as an interleaved step system.

    Each atomic access of the C text is one step: the thread-local flip of
    `threadsense`, the fetch-and-add, `count = 0`, `sense = threadsense`, and
    one read of `sense` in the spin loop.  A schedule is any sequence of thread
    numbers, so a statement about all schedules is a statement about all
    sequentially consistent interleavings, over any number of rounds.
  */
module Barrier {

  /** Where a thread stands in `barrier`. */
  datatype Pc =
    | Outside     // not inside barrier()
    | Flipped     // threadsense flipped, about to fetch-and-add
    | Resetting   // saw ncores-1, about to clear count
    | Publishing  // count cleared, about to write sense
    | Spinning    // reads sense until it equals threadsense

  /** `arrived` counts the thread's fetch-and-adds and `returned` its finished
      calls; both only record history, no step looks at them. */
  datatype Thread = Thread(pc: Pc, threadsense: bool, arrived: nat, returned: nat)

  /** `rounds` counts the writes to `sense`, and `leader` is the thread that drew the
      last ticket of the round, or -1; again only history. */
  datatype State = State(count: int, sense: bool, threads: seq<Thread>, rounds: nat, leader: int)

  function Init(ncores: nat): State {
    State(0, false, seq(ncores, i => Thread(Outside, false, 0, 0)), 0, -1)
  }

  /** One atomic step of thread `t`. */
  function Next(s: State, t: nat): State
    requires t < |s.threads|
  {
    var me := s.threads[t];
    match me.pc
    case Outside =>
      s.(threads := s.threads[t := me.(pc := Flipped, threadsense := !me.threadsense)])
    case Flipped =>
      var last := s.count == |s.threads| - 1;
      s.(count := s.count + 1,
         leader := if last then t else s.leader,
         threads := s.threads[t := me.(pc := if last then Resetting else Spinning,
                                       arrived := me.arrived + 1)])
    case Resetting =>
      s.(count := 0, threads := s.threads[t := me.(pc := Publishing)])
    case Publishing =>
      s.(sense := me.threadsense, rounds := s.rounds + 1, leader := -1,
         threads := s.threads[t := me.(pc := Outside, returned := me.returned + 1)])
    case Spinning =>
      if s.sense != me.threadsense then s
      else s.(threads := s.threads[t := me.(pc := Outside, returned := me.returned + 1)])
  }

  ghost predicate Schedules(sched: seq<nat>, ncores: nat) {
    forall i :: 0 <= i < |sched| ==> sched[i] < ncores
  }

  /** Thread `t` has finished a program of `calls` barrier calls. */
  predicate Finished(th: Thread, calls: nat) { th.pc == Outside && th.returned >= calls }

  /** Thread `t` gets a turn in a program that calls the barrier `calls` times. */
  function Turn(s: State, t: nat, calls: nat): State
    requires t < |s.threads|
  {
    if Finished(s.threads[t], calls) then s else Next(s, t)
  }

  function Run(s: State, sched: seq<nat>, calls: nat): (r: State)
    requires Schedules(sched, |s.threads|)
    ensures |r.threads| == |s.threads|
    decreases |sched|
  {
    if sched == [] then s
    else Turn(Run(s, sched[..|sched| - 1], calls), sched[|sched| - 1], calls)
  }

  // ---------------------------------------------------------------- invariant

  predicate Odd(n: nat) { n % 2 == 1 }

  /** How many threads have arrived in the round numbered `round`. */
  function Arrivals(ts: seq<Thread>, round: nat): (c: nat)
    ensures c <= |ts|
  {
    if ts == [] then 0
    else Arrivals(ts[..|ts| - 1], round) + if ts[|ts| - 1].arrived == round then 1 else 0
  }

  predicate Leading(th: Thread) { th.pc == Resetting || th.pc == Publishing }

  /** What the round number says about one thread. */
  predicate ThreadOk(th: Thread, rounds: nat) {
    match th.pc
    case Outside => th.arrived == th.returned == rounds && th.threadsense == Odd(th.arrived)
    case Flipped => th.arrived == th.returned == rounds && th.threadsense == Odd(th.arrived + 1)
    case Spinning =>
      (th.arrived == rounds || th.arrived == rounds + 1) &&
      th.returned + 1 == th.arrived && th.threadsense == Odd(th.arrived)
    case _ =>
      th.arrived == rounds + 1 && th.returned == rounds && th.threadsense == Odd(th.arrived)
  }

  ghost predicate Inv(s: State) {
    && |s.threads| > 0
    && s.sense == Odd(s.rounds)
    && (forall t :: 0 <= t < |s.threads| ==> ThreadOk(s.threads[t], s.rounds))
    // one thread is between its fetch-and-add and the publication exactly when all have arrived
    && -1 <= s.leader < |s.threads|
    && (forall t :: 0 <= t < |s.threads| ==> (Leading(s.threads[t]) <==> t == s.leader))
    && (s.leader >= 0 <==> Arrivals(s.threads, s.rounds + 1) == |s.threads|)
    // count is the number of arrivals, except between `count = 0` and the publication
    && s.count == if s.leader >= 0 && s.threads[s.leader].pc == Publishing then 0
                  else Arrivals(s.threads, s.rounds + 1)
  }

  lemma {:induction false} ArrivalsUpdate(ts: seq<Thread>, t: nat, th: Thread, round: nat)
    requires t < |ts|
    ensures Arrivals(ts[t := th], round) + (if ts[t].arrived == round then 1 else 0)
         == Arrivals(ts, round) + (if th.arrived == round then 1 else 0)
  {
    var n := |ts| - 1;
    if t == n {
      assert ts[t := th][..n] == ts[..n];
    } else {
      assert ts[t := th][..n] == ts[..n][t := th];
      ArrivalsUpdate(ts[..n], t, th, round);
    }
  }

  /** All threads counted means each of them arrived, and conversely. */
  lemma {:induction false} ArrivalsAll(ts: seq<Thread>, round: nat)
    ensures Arrivals(ts, round) == |ts| <==>
            (forall t :: 0 <= t < |ts| ==> ts[t].arrived == round)
  {
    if ts != [] {
      var n := |ts| - 1;
      ArrivalsAll(ts[..n], round);
      assert forall t :: 0 <= t < n ==> ts[..n][t] == ts[t];
    }
  }

  lemma ArrivalsUnder(ts: seq<Thread>, t: nat, round: nat)
    requires t < |ts| && ts[t].arrived != round
    ensures Arrivals(ts, round) < |ts|
  {
    ArrivalsAll(ts, round);
  }

  /** Nobody counted means nobody arrived. */
  lemma {:induction false} ArrivalsNone(ts: seq<Thread>, round: nat)
    requires forall t :: 0 <= t < |ts| ==> ts[t].arrived != round
    ensures Arrivals(ts, round) == 0
  {
    if ts != [] {
      ArrivalsNone(ts[..|ts| - 1], round);
    }
  }

  lemma InitInv(ncores: nat)
    requires ncores > 0
    ensures Inv(Init(ncores))
  {
    ArrivalsNone(Init(ncores).threads, 1);
  }

  lemma FetchAddKeepsInv(s: State, t: nat)
    requires Inv(s) && t < |s.threads| && s.threads[t].pc == Flipped
    ensures Inv(Next(s, t))
  {
    hide ThreadOk, Arrivals;
    var s' := Next(s, t);
    Arriving(s, t);
    ArrivalsUpdate(s.threads, t, s'.threads[t], s.rounds + 1);
    ArrivalsUnder(s.threads, t, s.rounds + 1);
    forall u | 0 <= u < |s'.threads| ensures ThreadOk(s'.threads[u], s'.rounds) {
      if u != t { assert s'.threads[u] == s.threads[u]; }
    }
  }

  lemma Arriving(s: State, t: nat)
    requires Inv(s) && t < |s.threads| && s.threads[t].pc == Flipped
    ensures s.threads[t].arrived != s.rounds + 1 && Next(s, t).threads[t].arrived == s.rounds + 1
    ensures ThreadOk(Next(s, t).threads[t], s.rounds)
  {
    assert ThreadOk(s.threads[t], s.rounds);
  }

  lemma PublishKeepsInv(s: State, t: nat)
    requires Inv(s) && t < |s.threads| && s.threads[t].pc == Publishing
    ensures Inv(Next(s, t))
  {
    var s' := Next(s, t);
    assert Leading(s.threads[t]);
    ArrivalsAll(s.threads, s.rounds + 1);
    ArrivalsNone(s'.threads, s'.rounds + 1);
    hide Arrivals;
  }

  lemma ResetKeepsInv(s: State, t: nat)
    requires Inv(s) && t < |s.threads| && s.threads[t].pc == Resetting
    ensures Inv(Next(s, t))
  {
    var s' := Next(s, t);
    ArrivalsUpdate(s.threads, t, s'.threads[t], s.rounds + 1);
    assert Leading(s.threads[t]);
    hide ThreadOk, Arrivals;
  }

  /** The steps that touch nothing but the thread's own variables. */
  lemma QuietStepKeepsInv(s: State, t: nat, th: Thread)
    requires Inv(s) && t < |s.threads| && th.arrived == s.threads[t].arrived && ThreadOk(th, s.rounds)
    requires !Leading(s.threads[t]) && !Leading(th)
    ensures Inv(s.(threads := s.threads[t := th]))
  {
    hide ThreadOk, Arrivals;
    ArrivalsUpdate(s.threads, t, th, s.rounds + 1);
    var ts := s.threads[t := th];
    forall u | 0 <= u < |ts| ensures ThreadOk(ts[u], s.rounds) {
      if u != t { assert ts[u] == s.threads[u]; }
    }
  }

  /** Every step of every thread keeps the invariant. */
  lemma StepKeepsInv(s: State, t: nat)
    requires Inv(s) && t < |s.threads|
    ensures Inv(Next(s, t))
  {
    match s.threads[t].pc
    case Flipped => FetchAddKeepsInv(s, t);
    case Publishing => PublishKeepsInv(s, t);
    case Resetting => ResetKeepsInv(s, t);
    case Outside => QuietStepKeepsInv(s, t, Next(s, t).threads[t]);
    case Spinning =>
      if Next(s, t) != s { QuietStepKeepsInv(s, t, Next(s, t).threads[t]); }
  }

  /** No thread starts a call beyond its `calls`-th. */
  ghost predicate Within(s: State, calls: nat) {
    forall t :: 0 <= t < |s.threads| ==> Finished(s.threads[t], calls) || s.threads[t].returned < calls
  }

  lemma {:induction false} RunKeepsInv(s: State, sched: seq<nat>, calls: nat)
    requires Inv(s) && Within(s, calls) && Schedules(sched, |s.threads|)
    ensures Inv(Run(s, sched, calls)) && Within(Run(s, sched, calls), calls)
    decreases |sched|
  {
    if sched != [] {
      var n := |sched| - 1;
      RunKeepsInv(s, sched[..n], calls);
      StepKeepsInv(Run(s, sched[..n], calls), sched[n]);
    }
  }

  lemma ReachableInv(ncores: nat, sched: seq<nat>, calls: nat) returns (s: State)
    requires ncores > 0 && Schedules(sched, ncores)
    ensures s == Run(Init(ncores), sched, calls) && Inv(s) && Within(s, calls)
  {
    InitInv(ncores);
    RunKeepsInv(Init(ncores), sched, calls);
    s := Run(Init(ncores), sched, calls);
  }

  // ------------------------------------------------------------------- safety

  /** In every reachable state: whoever has returned from its k-th call knows that
      every thread has made its k-th fetch-and-add, and no two threads are more
      than one round apart. */
  lemma Safety(ncores: nat, sched: seq<nat>, calls: nat, t: nat, u: nat, k: nat)
    requires t < ncores && u < ncores && Schedules(sched, ncores)
    ensures var s := Run(Init(ncores), sched, calls);
            && (s.threads[t].returned >= k ==> s.threads[u].arrived >= k)
            && s.threads[t].arrived <= s.threads[u].arrived + 1
            && s.threads[t].returned <= s.threads[u].returned + 1
  {
    var s := ReachableInv(ncores, sched, calls);
    assert ThreadOk(s.threads[t], s.rounds) && ThreadOk(s.threads[u], s.rounds);
  }

  /** `count = 0` runs only when all arrivals of the round are in and none of the
      next has been made, so it erases nothing; whenever no thread is between the
      reset and the publication, `count` is the number of arrivals of the round. */
  lemma ResetErasesNothing(ncores: nat, sched: seq<nat>, calls: nat, t: nat)
    requires t < ncores && Schedules(sched, ncores)
    ensures var s := Run(Init(ncores), sched, calls);
            && (s.threads[t].pc == Resetting ==>
                  && s.count == ncores
                  && forall u :: 0 <= u < ncores ==> s.threads[u].arrived == s.rounds + 1)
            && (s.threads[t].pc == Publishing ==>
                  s.count == 0 && forall u :: 0 <= u < ncores && u != t ==> s.threads[u].pc == Spinning)
            && ((forall u :: 0 <= u < ncores ==> s.threads[u].pc != Publishing) ==>
                  s.count == Arrivals(s.threads, s.rounds + 1))
  {
    var s := ReachableInv(ncores, sched, calls);
    ArrivalsAll(s.threads, s.rounds + 1);
    if Leading(s.threads[t]) {
      forall u | 0 <= u < ncores && u != t ensures s.threads[u].pc == Spinning {
        assert ThreadOk(s.threads[u], s.rounds);
        assert !Leading(s.threads[u]);
      }
    }
  }

  // ----------------------------------------------------------------- progress

  ghost predicate AllFinished(s: State, calls: nat) {
    forall t :: 0 <= t < |s.threads| ==> Finished(s.threads[t], calls)
  }

  /** Steps a thread has still to make, failed spins not counted. */
  function StepsLeft(th: Thread, calls: nat): nat {
    if th.returned >= calls then 0
    else (calls - th.returned) * 5 - match th.pc
      case Outside => 0
      case Flipped => 1
      case Resetting => 2
      case Publishing => 3
      case Spinning => 3
  }

  function TotalLeft(ts: seq<Thread>, calls: nat): nat {
    if ts == [] then 0 else TotalLeft(ts[..|ts| - 1], calls) + StepsLeft(ts[|ts| - 1], calls)
  }

  lemma {:induction false} TotalLeftUpdate(ts: seq<Thread>, t: nat, th: Thread, calls: nat)
    requires t < |ts|
    ensures TotalLeft(ts[t := th], calls) + StepsLeft(ts[t], calls)
         == TotalLeft(ts, calls) + StepsLeft(th, calls)
  {
    var n := |ts| - 1;
    if t == n {
      assert ts[t := th][..n] == ts[..n];
    } else {
      assert ts[t := th][..n] == ts[..n][t := th];
      TotalLeftUpdate(ts[..n], t, th, calls);
    }
  }

  /** A turn either changes nothing (the thread has finished, or spins in vain) or
      brings the program closer to its end. */
  lemma TurnDecreases(s: State, t: nat, calls: nat)
    requires Inv(s) && Within(s, calls) && t < |s.threads| && Turn(s, t, calls) != s
    ensures TotalLeft(Turn(s, t, calls).threads, calls) < TotalLeft(s.threads, calls)
  {
    TotalLeftUpdate(s.threads, t, Next(s, t).threads[t], calls);
  }

  /** Deadlock freedom: unless every thread has finished, some thread has a turn
      that is not a failed spin. */
  lemma SomeoneCanMove(s: State, calls: nat) returns (t: nat)
    requires Inv(s) && Within(s, calls) && !AllFinished(s, calls)
    ensures t < |s.threads| && Turn(s, t, calls) != s
  {
    var r := s.rounds + 1;
    ArrivalsAll(s.threads, r);
    if Arrivals(s.threads, r) == |s.threads| {
      t := s.leader;
    } else {
      t :| 0 <= t < |s.threads| && s.threads[t].arrived != r;
      assert ThreadOk(s.threads[t], s.rounds);
      if Finished(s.threads[t], calls) {
        // then the round is the last one, and whoever is not finished is on its way out
        t :| 0 <= t < |s.threads| && !Finished(s.threads[t], calls);
        assert ThreadOk(s.threads[t], s.rounds);
      }
    }
    assert Next(s, t).threads[t] != s.threads[t];
  }

  /** From every state reached so far, some continuation lets all threads make all
      their calls.  Turns that change nothing aside, no run is longer than
      `TotalLeft` (TurnDecreases), so no fair run can avoid it. */
  lemma {:induction false} CanFinish(s: State, calls: nat) returns (sched: seq<nat>)
    requires Inv(s) && Within(s, calls)
    ensures Schedules(sched, |s.threads|) && AllFinished(Run(s, sched, calls), calls)
    decreases TotalLeft(s.threads, calls)
  {
    if AllFinished(s, calls) {
      sched := [];
    } else {
      var t := SomeoneCanMove(s, calls);
      TurnDecreases(s, t, calls);
      RunKeepsInv(s, [t], calls);
      RunOne(s, t, calls);
      var rest := CanFinish(Turn(s, t, calls), calls);
      sched := [t] + rest;
      RunCons(s, t, rest, calls);
    }
  }

  lemma RunOne(s: State, t: nat, calls: nat)
    requires t < |s.threads|
    ensures Run(s, [t], calls) == Turn(s, t, calls)
  {
    assert [t][..0] == [];
    assert Run(s, [t][..0], calls) == s;
  }

  lemma {:induction false} RunCons(s: State, t: nat, rest: seq<nat>, calls: nat)
    requires t < |s.threads| && Schedules(rest, |s.threads|)
    ensures Run(s, [t] + rest, calls) == Run(Turn(s, t, calls), rest, calls)
    decreases |rest|
  {
    var all := [t] + rest;
    if rest == [] {
      assert all == [t];
      RunOne(s, t, calls);
    } else {
      var n := |rest| - 1;
      assert all[..|all| - 1] == [t] + rest[..n];
      RunCons(s, t, rest[..n], calls);
    }
  }

  /** Progress: whatever has happened so far, the threads can still all finish. */
  lemma Progress(ncores: nat, sched: seq<nat>, calls: nat)
    requires ncores > 0 && Schedules(sched, ncores)
    ensures exists more :: Schedules(more, ncores) &&
              AllFinished(Run(Run(Init(ncores), sched, calls), more, calls), calls)
  {
    var s := ReachableInv(ncores, sched, calls);
    var more := CanFinish(s, calls);
  }

  /** How many turns of a run changed the state. */
  function Moves(s: State, sched: seq<nat>, calls: nat): nat
    requires Schedules(sched, |s.threads|)
    decreases |sched|
  {
    if sched == [] then 0
    else
      var before := sched[..|sched| - 1];
      Moves(s, before, calls) + if Run(s, sched, calls) != Run(s, before, calls) then 1 else 0
  }

  /** No run makes more than five moves per thread and call: the only way to go on
      for ever is to keep giving turns to finished threads and to vain spins. */
  lemma {:induction false} MovesBounded(s: State, sched: seq<nat>, calls: nat)
    requires Inv(s) && Within(s, calls) && Schedules(sched, |s.threads|)
    ensures Moves(s, sched, calls) + TotalLeft(Run(s, sched, calls).threads, calls)
         <= TotalLeft(s.threads, calls) <= 5 * calls * |s.threads|
    decreases |sched|
  {
    if sched == [] {
      TotalLeftBound(s.threads, calls);
    } else {
      var n := |sched| - 1;
      MovesBounded(s, sched[..n], calls);
      RunKeepsInv(s, sched[..n], calls);
      var u := Run(s, sched[..n], calls);
      if Turn(u, sched[n], calls) != u { TurnDecreases(u, sched[n], calls); }
    }
  }

  lemma {:induction false} TotalLeftBound(ts: seq<Thread>, calls: nat)
    ensures TotalLeft(ts, calls) <= 5 * calls * |ts|
  {
    if ts != [] {
      TotalLeftBound(ts[..|ts| - 1], calls);
      assert 5 * calls * |ts| == 5 * calls * (|ts| - 1) + 5 * calls;
    }
  }
}
