/** `benchmarks/towers/towers_main.c`: linked lists whose nodes come from one pool, and the
    towers built from them.  The global free list is passed as an argument. */
module Towers {
  import opened Arith
  import opened Hanoi

  // ------------------------------------------------------------------------ lists

  class Node {
    var val: int
    var next: Node?

    constructor ()
      ensures next == null
    {
      val, next := 0, null;
    }
  }

  predicate NoDup(s: seq<Node>) { s == [] || (s[0] !in s[1..] && NoDup(s[1..])) }

  /** The nodes of `s` are linked from `head` in this order, and the last one ends the list. */
  ghost predicate Linked(head: Node?, s: seq<Node>)
    reads s
  {
    if s == [] then head == null else head == s[0] && Linked(s[0].next, s[1..])
  }

  ghost function Values(s: seq<Node>): (v: seq<int>)
    reads s
    ensures |v| == |s|
  {
    if s == [] then [] else [s[0].val] + Values(s[1..])
  }

  /** A list without its first node. */
  lemma Tail(s: seq<Node>)
    requires s != [] && NoDup(s) && Linked(s[0], s)
    ensures NoDup(s[1..]) && Linked(s[0].next, s[1..]) && s[0] !in s[1..]
    ensures Values(s) == [s[0].val] + Values(s[1..])
  {
  }

  /** A list with one more node in front. */
  lemma Prepend(x: Node, s: seq<Node>)
    requires x !in s && NoDup(s) && Linked(x.next, s)
    ensures NoDup([x] + s) && Linked(x, [x] + s)
    ensures Values([x] + s) == [x.val] + Values(s)
  {
    assert ([x] + s)[1..] == s;
  }

  lemma FirstNode(head: Node?, s: seq<Node>)
    requires Linked(head, s)
    ensures s != [] ==> head == s[0]
    ensures s == [] ==> head == null
  {
  }

  class List {
    var size: int
    var head: Node?
    ghost var nodes: seq<Node>

    /** Nothing is said about `size`: that of the free list is never kept up to date. */
    ghost predicate Valid()
      reads this, nodes
    {
      NoDup(nodes) && Linked(head, nodes)
    }

    /** `list_init` */
    constructor ()
      ensures Valid() && nodes == [] && size == 0
    {
      size, head, nodes := 0, null, [];
    }

    method Reset()
      modifies this
      ensures Valid() && nodes == [] && size == 0
    {
      size, head, nodes := 0, null, [];
    }

    /** Takes a node off the free list and puts it, with `val`, on this one. */
    method Push(free: List, val: int)
      requires this != free && Valid() && free.Valid() && free.nodes != []
      requires forall x :: x in free.nodes ==> x !in nodes
      modifies this, free, free.nodes[0]
      ensures nodes == [old(free.nodes[0])] + old(nodes) && free.nodes == old(free.nodes[1..])
      ensures Valid() && free.Valid()
      ensures Values(nodes) == [val] + old(Values(nodes))
      ensures size == old(size) + 1 && free.size == old(free.size)
    {
      Tail(free.nodes);
      hide NoDup, Linked, Values;
      ghost var rest, mine := free.nodes[1..], nodes;
      FirstNode(free.head, free.nodes);
      var newNode := free.head;
      free.head := free.head.next;
      newNode.next := head;
      head := newNode;
      head.val := val;
      size := size + 1;
      nodes, free.nodes := [newNode] + nodes, free.nodes[1..];
      Prepend(newNode, mine);
    }

    /** Gives the first node back to the free list. */
    method Pop(free: List) returns (val: int)
      requires this != free && Valid() && free.Valid() && nodes != []
      requires forall x :: x in free.nodes ==> x !in nodes
      modifies this, free, nodes[0]
      ensures nodes == old(nodes[1..]) && free.nodes == [old(nodes[0])] + old(free.nodes)
      ensures Valid() && free.Valid()
      ensures [val] + Values(nodes) == old(Values(nodes))
      ensures size == old(size) - 1 && free.size == old(free.size)
    {
      Tail(nodes);
      hide NoDup, Linked, Values;
      ghost var free0 := free.nodes;
      FirstNode(head, nodes);
      val := head.val;
      var freedNode := head;
      head := head.next;
      freedNode.next := free.head;
      free.head := freedNode;
      size := size - 1;
      nodes, free.nodes := nodes[1..], [freedNode] + free.nodes;
      Prepend(freedNode, free0);
    }

    /** Empties the list; its nodes go to the free list, and two other lists stay as they are. */
    method Clear(free: List, ghost q: List, ghost r: List)
      requires this != free && Valid() && free.Valid() && size == |nodes|
      requires q != this && q != free && r != this && r != free && q.Valid() && r.Valid()
      requires forall x :: x in nodes ==> x !in free.nodes && x !in q.nodes && x !in r.nodes
      modifies this, free, nodes
      ensures Valid() && free.Valid() && nodes == [] && size == 0
      ensures multiset(free.nodes) == old(multiset(nodes) + multiset(free.nodes))
      ensures q.Valid() && r.Valid() && q.nodes == old(q.nodes) && r.nodes == old(r.nodes)
      ensures q.size == old(q.size) && r.size == old(r.size)
    {
      hide Linked;
      while size > 0
        invariant Valid() && free.Valid() && size == |nodes|
        invariant forall x :: x in nodes ==> x in old(nodes) && x !in free.nodes && x !in q.nodes && x !in r.nodes
        invariant multiset(nodes) + multiset(free.nodes) == old(multiset(nodes) + multiset(free.nodes))
        invariant q.Valid() && r.Valid() && q.nodes == old(q.nodes) && r.nodes == old(r.nodes)
        invariant q.size == old(q.size) && r.size == old(r.size)
        decreases size
      {
        assert nodes == [nodes[0]] + nodes[1..] && nodes[0] in nodes;
        var val := Pop(free);
      }
    }
  }

  // ----------------------------------------------------------------------- towers

  lemma EmptyValues()
    ensures Values([]) == []
  {
  }

  /** No node is in two places, and all of them are in the pool. */
  lemma Apart(f: seq<Node>, a: seq<Node>, b: seq<Node>, c: seq<Node>, pool: set<Node>)
    requires multiset(f) + multiset(a) + multiset(b) + multiset(c) == multiset(pool)
    ensures forall x :: x in f ==> x !in a && x !in b && x !in c && x in pool
    ensures forall x :: x in a ==> x !in f && x !in b && x !in c && x in pool
    ensures forall x :: x in b ==> x !in f && x !in a && x !in c && x in pool
    ensures forall x :: x in c ==> x !in f && x !in a && x !in b && x in pool
  {
    var all := multiset(f) + multiset(a) + multiset(b) + multiset(c);
    forall x ensures (x in f <==> multiset(f)[x] > 0) && (x in a <==> multiset(a)[x] > 0)
                     && (x in b <==> multiset(b)[x] > 0) && (x in c <==> multiset(c)[x] > 0)
                     && multiset(f)[x] + multiset(a)[x] + multiset(b)[x] + multiset(c)[x] == multiset(pool)[x] <= 1
    {
      assert all[x] == multiset(pool)[x];
    }
  }

  /** A disc goes from one list to another, by way of the free list; a third list stays as it is. */
  method Transfer(free: List, from: List, to: List, ghost third: List)
    requires free != from && free != to && from != to && third !in {free, from, to}
    requires free.Valid() && from.Valid() && to.Valid() && third.Valid() && from.nodes != []
    requires forall x :: x in free.nodes ==> x !in from.nodes && x !in to.nodes
    requires forall x :: x in from.nodes ==> x !in to.nodes && x !in third.nodes
    modifies free, from, to, from.nodes[0]
    ensures free.Valid() && from.Valid() && to.Valid() && third.Valid()
    ensures free.nodes == old(free.nodes) && third.nodes == old(third.nodes)
    ensures old(from.nodes) == [old(from.nodes[0])] + from.nodes && to.nodes == [old(from.nodes[0])] + old(to.nodes)
    ensures from.size == old(from.size) - 1 && to.size == old(to.size) + 1 && third.size == old(third.size)
    ensures Values(from.nodes) == old(Values(from.nodes))[1..]
    ensures Values(to.nodes) == [old(Values(from.nodes))[0]] + old(Values(to.nodes))
    ensures Values(third.nodes) == old(Values(third.nodes))
  {
    Tail(from.nodes);
    hide NoDup, Linked, Values;
    ghost var x := from.nodes[0];
    assert x in from.nodes && from.nodes == [x] + from.nodes[1..];
    var val := from.Pop(free);
    assert free.nodes[0] == x && free.nodes[1..] == old(free.nodes);
    to.Push(free, val);
  }

  /** The discs n, n - 1, ..., 1 go onto an empty list. */
  method Fill(free: List, peg: List, n: nat)
    requires free != peg && free.Valid() && peg.Valid() && peg.nodes == [] && peg.size == 0 && n <= |free.nodes|
    modifies free, peg, free.nodes
    ensures free.Valid() && peg.Valid() && peg.size == |peg.nodes| && Values(peg.nodes) == UpTo(n)
    ensures multiset(free.nodes) + multiset(peg.nodes) == old(multiset(free.nodes))
  {
    hide Linked;
    for i := 0 to n
      invariant free.Valid() && peg.Valid() && peg.size == |peg.nodes| == i
      invariant |free.nodes| == old(|free.nodes|) - i && forall x :: x in free.nodes ==> x !in peg.nodes
      invariant multiset(free.nodes) + multiset(peg.nodes) == old(multiset(free.nodes))
      invariant forall x :: x in free.nodes ==> x in old(free.nodes)
      invariant Values(peg.nodes) == UpTo(n)[n - i..]
    {
      assert free.nodes == [free.nodes[0]] + free.nodes[1..] && free.nodes[0] in free.nodes;
      assert UpTo(n)[n - i - 1..] == [n - i] + UpTo(n)[n - i..];
      peg.Push(free, n - i);
    }
  }

  lemma RunOne(c: Config, m: Move)
    ensures Run(c, [m]) == Step(c, m)
  {
    assert [m][1..] == [];
  }

  /** The three recursive calls compose. */
  lemma SolveSplit(c: Config, n: nat, s: Peg, t: Peg, d: Peg)
    requires 1 < n <= |c[s]| && s != t && t != d && d != s
    ensures var c1 := Carried(c, n - 1, s, t);
            && |c1[s]| >= 1 && |Carried(c1, 1, s, d)[t]| >= n - 1
            && Carried(Carried(c1, 1, s, d), n - 1, t, d) == Carried(c, n, s, d)
  {
    CarryTwice(c, n, s, t, d);
    var c1 := Carried(c, n - 1, s, t);
    CarryOne(c1, s, d);
    RunOne(c1, Move(s, d));
  }

  class Towers {
    var numDiscs: int
    var numMoves: int
    const pegA: List
    const pegB: List
    const pegC: List
    const free: List

    /** All nodes there are, the pegs when `log` began, and the moves since then. */
    ghost const pool: set<Node>
    ghost var origin: Config
    ghost var log: seq<Move>

    function PegList(p: Peg): List { if p == 0 then pegA else if p == 1 then pegB else pegC }

    predicate ListsApart() {
      pegA != pegB && pegA != pegC && pegB != pegC && free != pegA && free != pegB && free != pegC
    }

    ghost predicate ListsValid()
      reads free, pegA, pegB, pegC, free.nodes, pegA.nodes, pegB.nodes, pegC.nodes
    {
      && free.Valid() && pegA.Valid() && pegB.Valid() && pegC.Valid()
      && pegA.size == |pegA.nodes| && pegB.size == |pegB.nodes| && pegC.size == |pegC.nodes|
    }

    ghost predicate PegsEmpty()
      reads pegA, pegB, pegC
    {
      pegA.nodes == [] && pegB.nodes == [] && pegC.nodes == []
    }

    /** Every node of the pool is on exactly one of the four lists, exactly once. */
    ghost predicate Conserved()
      reads free, pegA, pegB, pegC
    {
      multiset(free.nodes) + multiset(pegA.nodes) + multiset(pegB.nodes) + multiset(pegC.nodes) == multiset(pool)
    }

    ghost function Pegs(): Config
      reads pegA, pegB, pegC, pegA.nodes, pegB.nodes, pegC.nodes
    {
      [Values(pegA.nodes), Values(pegB.nodes), Values(pegC.nodes)]
    }

    ghost predicate Valid()
      reads this, free, pegA, pegB, pegC, free.nodes, pegA.nodes, pegB.nodes, pegC.nodes
    {
      ListsApart() && ListsValid() && Conserved() && Pegs() == Run(origin, log)
    }

    /** Three empty pegs next to a free list that holds the whole pool. */
    constructor (free: List, ghost pool: set<Node>)
      requires free.Valid() && multiset(free.nodes) == multiset(pool)
      ensures Valid() && this.free == free && this.pool == pool && log == []
      ensures ListsApart() && ListsValid() && Conserved()
      ensures PegsEmpty()
      ensures fresh(pegA) && fresh(pegB) && fresh(pegC)
    {
      this.free, this.pool := free, pool;
      numDiscs, numMoves := 0, 0;
      pegA := new List();
      pegB := new List();
      pegC := new List();
      origin, log := [[], [], []], [];
    }

    function Third(s: Peg, d: Peg): Peg
      requires s != d
    {
      if s != 0 && d != 0 then 0 else if s != 1 && d != 1 then 1 else 2
    }

    /** One disc from `from` to `to`: the branch `n == 1` of `towers_solve_h`. */
    method MoveDisc(from: List, to: List, ghost s: Peg, ghost d: Peg)
      requires Valid() && s != d && from == PegList(s) && to == PegList(d) && Pegs()[s] != []
      modifies this, free, pegA, pegB, pegC, pool
      ensures Valid() && numMoves == old(numMoves) + 1 && numDiscs == old(numDiscs)
      ensures origin == old(origin) && log == old(log) + [Move(s, d)]
      ensures Pegs() == Carried(old(Pegs()), 1, s, d)
    {
      hide List.Valid, NoDup, Linked, Values, Run, Step, Towers.ListsValid;
      ghost var c0 := Pegs();
      Relocate(from, to, s, d);
      numMoves := numMoves + 1;
      log := log + [Move(s, d)];
      RunAppend(origin, old(log), [Move(s, d)]);
      RunOne(c0, Move(s, d));
      CarryOne(c0, s, d);
    }

    /** The effect of a move on the lists. */
    method Relocate(from: List, to: List, ghost s: Peg, ghost d: Peg)
      requires ListsApart() && ListsValid() && Conserved()
      requires s != d && from == PegList(s) && to == PegList(d) && Pegs()[s] != []
      modifies free, pegA, pegB, pegC, pool
      ensures ListsValid() && Conserved() && Pegs() == Step(old(Pegs()), Move(s, d))
    {
      hide List.Valid, NoDup, Linked, Values, Step, Towers.ListsValid, Towers.Conserved;
      NodesApart(s, d);
      PegsOk();
      assert PegOk(s) && PegOk(d) && PegOk(Third(s, d));
      FilledPeg(s);
      ghost var n0, c0 := [pegA.nodes, pegB.nodes, pegC.nodes], Pegs();
      ghost var f0 := free.nodes;
      KeptNodes(f0, n0);
      Transfer(free, from, to, PegList(Third(s, d)));
      StepPegs(c0, Pegs(), s, d);
      AllPegsOk(s, d);
      SameNodes(n0, [pegA.nodes, pegB.nodes, pegC.nodes], s, d, n0[s][0]);
      KeptNodes(f0, [pegA.nodes, pegB.nodes, pegC.nodes]);
    }

    ghost predicate PegOk(p: Peg)
      reads PegList(p), PegList(p).nodes
    {
      PegList(p).Valid() && PegList(p).size == |PegList(p).nodes|
    }

    lemma PegsOk()
      requires ListsValid()
      ensures free.Valid() && forall p: Peg :: PegOk(p)
    {
    }

    lemma AllPegsOk(s: Peg, d: Peg)
      requires s != d && free.Valid() && PegOk(s) && PegOk(d) && PegOk(Third(s, d))
      ensures ListsValid()
    {
      hide List.Valid;
    }

    lemma KeptNodes(f: seq<Node>, n: seq<seq<Node>>)
      requires f == free.nodes && n == [pegA.nodes, pegB.nodes, pegC.nodes]
      ensures Conserved() <==> multiset(f) + (multiset(n[0]) + multiset(n[1]) + multiset(n[2])) == multiset(pool)
    {
    }

    /** No node of peg `s` is anywhere else, and no free one on a peg. */
    lemma NodesApart(s: Peg, d: Peg)
      requires ListsApart() && Conserved() && s != d
      ensures forall x :: x in free.nodes ==> x !in PegList(s).nodes && x !in PegList(d).nodes
      ensures forall x :: x in PegList(s).nodes ==> x !in PegList(d).nodes && x !in PegList(Third(s, d)).nodes
      ensures forall x :: x in PegList(s).nodes ==> x in pool
    {
      Apart(free.nodes, pegA.nodes, pegB.nodes, pegC.nodes, pool);
    }

    lemma StepPegs(c0: Config, c1: Config, s: Peg, d: Peg)
      requires s != d && c0[s] != [] && c1[s] == c0[s][1..] && c1[d] == [c0[s][0]] + c0[d]
      requires c1[Third(s, d)] == c0[Third(s, d)]
      ensures c1 == Step(c0, Move(s, d))
    {
    }

    lemma SameNodes(n0: seq<seq<Node>>, n1: seq<seq<Node>>, s: Peg, d: Peg, x: Node)
      requires |n0| == |n1| == 3 && s != d && n0[s] == [x] + n1[s] && n1[d] == [x] + n0[d]
      requires n1[Third(s, d)] == n0[Third(s, d)]
      ensures multiset(n1[0]) + multiset(n1[1]) + multiset(n1[2]) == multiset(n0[0]) + multiset(n0[1]) + multiset(n0[2])
    {
    }

    lemma FilledPeg(s: Peg)
      requires Pegs()[s] != []
      ensures PegList(s).nodes != []
    {
    }

    method SolveH(n: int, start: List, temp: List, dest: List, ghost s: Peg, ghost t: Peg, ghost d: Peg)
      requires Valid() && 1 <= n <= |Pegs()[s]| && s != t && t != d && d != s
      requires start == PegList(s) && temp == PegList(t) && dest == PegList(d)
      modifies this, free, pegA, pegB, pegC, pool
      ensures Valid() && numDiscs == old(numDiscs) && numMoves == old(numMoves) + |Moves(n, s, t, d)|
      ensures origin == old(origin) && log == old(log) + Moves(n, s, t, d)
      ensures Pegs() == Carried(old(Pegs()), n, s, d)
      decreases n
    {
      hide Towers.Valid, Towers.Pegs, Carried, Towers.PegList;
      ghost var c0 := Pegs();
      if n == 1 {
        MoveDisc(start, dest, s, d);
      } else {
        SolveSplit(c0, n, s, t, d);
        SolveH(n - 1, start, dest, temp, s, d, t);
        SolveH(1, start, temp, dest, s, t, d);
        SolveH(n - 1, temp, start, dest, t, s, d);
      }
    }

    /** All discs go from peg A to peg C in 2^n - 1 moves, none of them onto a smaller disc. */
    method Solve()
      requires Valid() && numDiscs >= 1 && Pegs() == [UpTo(numDiscs), [], []]
      modifies this, free, pegA, pegB, pegC, pool
      ensures Valid() && numDiscs == old(numDiscs) && numMoves == old(numMoves) + Pow2(numDiscs) - 1
      ensures Pegs() == [[], [], UpTo(numDiscs)]
      ensures origin == old(origin) && log == old(log) + Moves(numDiscs, 0, 1, 2)
      ensures Legal(old(Pegs()), Moves(numDiscs, 0, 1, 2))
    {
      MoveCount(numDiscs, 0, 1, 2);
      InitialReady(numDiscs);
      AllCarried(numDiscs);
      MovesLegal(Pegs(), numDiscs, 0, 1, 2);
      hide Towers.Valid, Legal, Towers.Pegs;
      SolveH(numDiscs, pegA, pegB, pegC, 0, 1, 2);
    }

    /** `n` discs on peg A, the smallest on top.  Nodes that the pegs still hold are lost: all nodes
        are kept exactly if there are none. */
    method Init(n: int)
      requires ListsApart() && ListsValid() && Conserved() && 0 <= n <= |free.nodes|
      modifies this, free, pegA, pegB, pegC, pool
      ensures ListsApart() && ListsValid() && numDiscs == n && numMoves == 0
      ensures Pegs() == [UpTo(n), [], []] && origin == Pegs() && log == []
      ensures Valid() <==> old(PegsEmpty())
    {
      hide NoDup, Linked, Values, UpTo, Towers.ListsValid, Towers.Conserved;
      numDiscs, numMoves := n, 0;
      ResetPegs(n);
      origin, log := Pegs(), [];
    }

    /** The heads of the pegs are dropped, and the discs put on peg A. */
    method ResetPegs(n: int)
      requires ListsApart() && ListsValid() && Conserved() && 0 <= n <= |free.nodes|
      modifies free, pegA, pegB, pegC, pool
      ensures ListsValid() && Pegs() == [UpTo(n), [], []]
      ensures Conserved() <==> old(PegsEmpty())
    {
      FreeInPool();
      EmptyValues();
      NodesLost(free.nodes, pegA.nodes, pegB.nodes, pegC.nodes);
      hide NoDup, Linked, Values, UpTo, List.Valid;
      pegA.Reset();
      pegB.Reset();
      pegC.Reset();
      Fill(free, pegA, n);
    }

    static lemma NodesLost(f: seq<Node>, a: seq<Node>, b: seq<Node>, c: seq<Node>)
      ensures multiset(f) + multiset(a) + multiset(b) + multiset(c) == multiset(f) <==> a == [] && b == [] && c == []
    {
      assert |multiset(f) + multiset(a) + multiset(b) + multiset(c)| == |f| + |a| + |b| + |c|;
    }

    lemma FreeInPool()
      requires Conserved()
      ensures forall x :: x in free.nodes ==> x in pool
      ensures |free.nodes| + |pegA.nodes| + |pegB.nodes| + |pegC.nodes| == |pool|
    {
      Apart(free.nodes, pegA.nodes, pegB.nodes, pegC.nodes, pool);
      assert |multiset(free.nodes) + multiset(pegA.nodes) + multiset(pegB.nodes) + multiset(pegC.nodes)| == |pool|;
    }

    /** The discs of one peg are taken off. */
    method ClearPeg(peg: List, ghost p: Peg)
      requires ListsApart() && ListsValid() && Conserved() && peg == PegList(p)
      modifies free, peg, peg.nodes
      ensures ListsValid() && Conserved() && peg.nodes == []
      ensures forall q: Peg :: q != p ==> PegList(q).nodes == old(PegList(q).nodes)
    {
      hide List.Valid, Towers.ListsValid, Towers.Conserved;
      ghost var q: Peg := (p + 1) % 3;
      ghost var r: Peg := Third(p, q);
      NodesApart(p, q);
      PegsOk();
      assert PegOk(p) && PegOk(q) && PegOk(r);
      ghost var f0, n0 := free.nodes, [pegA.nodes, pegB.nodes, pegC.nodes];
      KeptNodes(f0, n0);
      peg.Clear(free, PegList(q), PegList(r));
      AllPegsOk(p, q);
      ghost var n1 := [pegA.nodes, pegB.nodes, pegC.nodes];
      NodesFreed(f0, free.nodes, n0, n1, p, q);
      KeptNodes(free.nodes, n1);
    }

    static lemma NodesFreed(f0: seq<Node>, f1: seq<Node>, n0: seq<seq<Node>>, n1: seq<seq<Node>>, p: Peg, q: Peg)
      requires |n0| == |n1| == 3 && p != q && n1[p] == [] && multiset(f1) == multiset(n0[p]) + multiset(f0)
      requires forall r: Peg :: r != p ==> n1[r] == n0[r]
      ensures multiset(f1) + (multiset(n1[0]) + multiset(n1[1]) + multiset(n1[2]))
           == multiset(f0) + (multiset(n0[0]) + multiset(n0[1]) + multiset(n0[2]))
    {
    }

    /** Takes all discs off and starts again; the pool suffices whatever the pegs held. */
    method Clear()
      requires Valid() && 0 <= numDiscs <= |pool|
      modifies this, free, pegA, pegB, pegC, pool
      ensures Valid() && numDiscs == old(numDiscs) && numMoves == 0
      ensures Pegs() == [UpTo(numDiscs), [], []] && origin == Pegs() && log == []
    {
      hide Towers.ListsValid;
      Apart(free.nodes, pegA.nodes, pegB.nodes, pegC.nodes, pool);
      ClearPeg(pegA, 0);
      ClearPeg(pegB, 1);
      ClearPeg(pegC, 2);
      assert PegList(0).nodes == PegList(1).nodes == [];
      FreeInPool();
      Init(numDiscs);
    }

    /** Zero exactly when the puzzle is solved and 2^n - 1 moves were made. */
    method Verify() returns (r: int)
      requires Valid() && 0 <= numDiscs
      ensures r == 0 <==> Pegs() == [[], [], UpTo(numDiscs)] && numMoves == Pow2(numDiscs) - 1
      ensures r == 2 <==> Pegs()[0] != []
      ensures r == 3 <==> Pegs()[0] == [] && Pegs()[1] != []
      ensures r == 4 <==> Pegs()[0] == Pegs()[1] == [] && |Pegs()[2]| != numDiscs
      ensures r == 6 <==> Pegs() == [[], [], UpTo(numDiscs)] && numMoves != Pow2(numDiscs) - 1
    {
      if pegA.size != 0 { return 2; }
      if pegB.size != 0 { return 3; }
      if pegC.size != numDiscs { return 4; }
      var found := 0;
      var ptr := pegC.head;
      ghost var all, rest := Values(pegC.nodes), pegC.nodes;
      while ptr != null
        invariant 0 <= found && |rest| == numDiscs - found && Linked(ptr, rest)
        invariant all[found..] == Values(rest) && forall k :: 0 <= k < found ==> all[k] == k + 1
        decreases |rest|
      {
        found := found + 1;
        assert all[found - 1] == Values(rest)[0] == ptr.val;
        if ptr.val != found { return 5; }
        ptr := ptr.next;
        rest := rest[1..];
      }
      assert all == UpTo(numDiscs);
      if numMoves != Pow2(numDiscs) - 1 { return 6; }
      return 0;
    }
  }

  /** The discs 1, 2, ..., n. */
  function UpTo(n: nat): seq<int> { seq(n, i => i + 1) }

  lemma InitialReady(n: nat)
    ensures Ready([UpTo(n), [], []], n, 0, 1, 2)
  {
  }

  lemma AllCarried(n: nat)
    ensures |UpTo(n)| == n && Carried([UpTo(n), [], []], n, 0, 2) == [[], [], UpTo(n)]
  {
    assert UpTo(n)[..n] + [] == UpTo(n) && UpTo(n)[n..] == [];
  }

  // ------------------------------------------------------------------------- main

  predicate Distinct(s: seq<Node>) { forall i, j :: 0 <= i < j < |s| ==> s[i] != s[j] }

  /** Node `i` is linked to its neighbour in the pool, the last one to nothing. */
  ghost predicate Chained(s: seq<Node>, i: nat)
    requires i < |s|
    reads s
  {
    s[i].next == if i + 1 < |s| then s[i + 1] else null
  }

  lemma {:induction false} PoolLinked(s: seq<Node>, k: nat)
    requires k <= |s| && Distinct(s)
    requires forall i: nat :: i < |s| ==> Chained(s, i)
    ensures NoDup(s[k..]) && Linked(if k < |s| then s[k] else null, s[k..])
    decreases |s| - k
  {
    if k < |s| {
      PoolLinked(s, k + 1);
      var t := s[k..];
      assert t[0] == s[k] && t[1..] == s[k + 1..];
      assert Chained(s, k);
      assert s[k] !in t[1..];
    } else {
      assert s[k..] == [];
    }
  }

  lemma {:induction false} PoolSet(s: seq<Node>)
    requires Distinct(s)
    ensures multiset(s) == multiset(set x | x in s) && |set x | x in s| == |s|
  {
    if s != [] {
      var t, x := s[..|s| - 1], s[|s| - 1];
      PoolSet(t);
      assert s == t + [x];
      assert (set y | y in s) == (set y | y in t) + {x};
    }
  }

  /** The free list in pool order. */
  method BuildPool(n: nat) returns (free: List, ghost pool: set<Node>)
    requires n >= 1
    ensures fresh(free) && fresh(pool) && |pool| == n
    ensures free.Valid() && multiset(free.nodes) == multiset(pool)
  {
    var nodes := AllocatePool(n);
    free := new List();
    free.head := nodes[0];
    free.size := n;
    nodes[n - 1].next := null;
    nodes[n - 1].val := 99;
    for i := 0 to n - 1
      invariant forall k :: 0 <= k < i ==> nodes[k].next == nodes[k + 1]
      invariant nodes[n - 1].next == null && free.head == nodes[0]
    {
      nodes[i].next := nodes[i + 1];
      nodes[i].val := i;
    }
    free.nodes := nodes;
    pool := set x | x in nodes;
    PoolLinked(nodes, 0);
    assert nodes[0..] == nodes;
    PoolSet(nodes);
  }

  /** The static pool: `n` different nodes. */
  method AllocatePool(n: nat) returns (nodes: seq<Node>)
    ensures |nodes| == n && Distinct(nodes) && fresh(nodes)
  {
    nodes := [];
    for i := 0 to n
      invariant |nodes| == i && Distinct(nodes) && fresh(nodes)
    {
      var x := new Node();
      nodes := nodes + [x];
    }
  }

  /** The benchmark returns zero, with the untimed first run or without. */
  method Benchmark(n: nat, preallocate: bool) returns (r: int)
    requires n >= 1
    ensures r == 0
  {
    hide Towers.Valid, Towers.ListsValid, Towers.ListsApart, Towers.Conserved;
    hide Towers.Pegs, Towers.PegsEmpty, List.Valid;
    hide UpTo, Legal, Run;
    var free, pool := BuildPool(n);
    var towers := new Towers(free, pool);
    towers.FreeInPool();
    towers.Init(n);
    if preallocate { towers.Solve(); }
    towers.Clear();
    towers.Solve();
    r := towers.Verify();
  }
}
