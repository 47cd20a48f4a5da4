/** How the multi-core benchmarks deal elements out to the cores: `mt-memcpy.c` in blocks
    of one more than the quotient, `vvadd0.c` in blocks and a dealt-out rest, `vvadd3.c` in
    blocks that an unrolled loop walks. */
module Partition {
  import opened Arith

  /** Who works on what: `n` elements, `nc` cores, and for `Copy` words below `m`. */
  datatype Rule = Copy(n: nat, nc: nat, m: nat) | BlocksAndRest(n: nat, nc: nat) | Blocks(n: nat, nc: nat)
  {
    predicate Valid() { nc > 0 && (Copy? ==> n < m) && (BlocksAndRest? ==> n >= nc) }

    /** First element of core `c`, and how many there are from there on. */
    function Start(c: nat): nat
      requires Valid()
    {
      if Copy? then (n / nc + 1) * c else n / nc * c
    }

    function Count(c: nat): nat
      requires Valid() && c < nc
    {
      if !Copy? then n / nc
      else if nc == c + 1 then (n - c * (n / nc + 1)) % m
      else n / nc + 1
    }

    /** Where the rest begins that is dealt out one by one. */
    function Rest(): nat
      requires Valid()
    {
      if BlocksAndRest? then (QuotPositive(n, nc); n - n % (n / nc)) else n
    }

    /** Element `x` falls to core `c`. */
    predicate Deals(c: nat, x: nat)
      requires Valid()
    {
      c < nc && (Start(c) <= x < Start(c) + Count(c)
                 || (BlocksAndRest? && Rest() <= x < n && (x - Rest()) % nc == c))
    }

    ghost predicate Served(x: nat)
      requires Valid()
    {
      exists c: nat :: Deals(c, x)
    }

    /** Each element falls to exactly one core, and nothing else to any. */
    ghost predicate Exact()
      requires Valid()
    {
      && (forall c: nat, x: nat :: Deals(c, x) ==> x < n)
      && (forall x: nat :: x < n ==> Served(x))
      && (forall c: nat, c': nat, x: nat :: Deals(c, x) && Deals(c', x) ==> c == c')
    }
  }

  lemma QuotPositive(n: nat, nc: nat)
    requires nc > 0 && n >= nc
    ensures n / nc > 0
  {
    QuotRemSum(n, nc);
  }

  // ---------------------------------------------------------------- blocks of `b`

  /** `x` lies in the c-th of the blocks of `b`. */
  lemma BlockOf(x: nat, b: nat, c: nat)
    requires b > 0
    ensures b * c <= x < b * c + b <==> x / b == c
  {
    QuotRemSum(x, b);
    if b * c <= x < b * c + b { DivModUnique(x, b, c, x - b * c); }
  }

  lemma BlockEnd(x: nat, b: nat, k: nat)
    requires b > 0
    ensures x < k * b <==> x / b < k
  {
    QuotRemSum(x, b);
    if x / b < k { MulMono(x / b + 1, k, b); } else { MulMono(k, x / b, b); }
  }

  // --------------------------------------------------------------------- mt-memcpy

  /** Whether the blocks of all cores but the last one end within the data. */
  lemma CopyFits(n: nat, nc: nat)
    requires nc > 0
    ensures (nc - 1) * (n / nc + 1) <= n <==> nc <= n / nc + n % nc + 1
  {
    var q, r := n / nc, n % nc;
    assert n == q * nc + r;
    assert (nc - 1) * (q + 1) == q * nc + nc - q - 1;
  }

  /** With so few cores the c-th block goes to core c, and what is left to the last core. */
  lemma CopyDeals(rule: Rule, c: nat, x: nat)
    requires rule.Valid() && rule.Copy? && (rule.nc - 1) * (rule.n / rule.nc + 1) <= rule.n
    ensures var b := rule.n / rule.nc + 1;
            rule.Deals(c, x) <==> x < rule.n && c == if x / b < rule.nc - 1 then x / b else rule.nc - 1
  {
    var n, nc, b := rule.n, rule.nc, rule.n / rule.nc + 1;
    BlockOf(x, b, c);
    BlockEnd(x, b, nc - 1);
    if c < nc { CopyCounts(rule, c); }
    if c < nc - 1 { MulMono(c + 1, nc - 1, b); }
    hide Rule.Start, Rule.Count;
  }

  lemma CopyCounts(rule: Rule, c: nat)
    requires rule.Valid() && rule.Copy? && c < rule.nc && (rule.nc - 1) * (rule.n / rule.nc + 1) <= rule.n
    ensures var b := rule.n / rule.nc + 1;
            && rule.Start(c) == c * b
            && rule.Start(c) + rule.Count(c) == if c == rule.nc - 1 then rule.n else (c + 1) * b
  {
    var b := rule.n / rule.nc + 1;
    assert (c + 1) * b == c * b + b;
    if c == rule.nc - 1 { DivModUnique(rule.n - c * b, rule.m, 0, rule.n - c * b); }
  }

  /** `memcpy` by parts copies everything once and stays inside, exactly for so few cores. */
  lemma CopyExact(rule: Rule)
    requires rule.Valid() && rule.Copy?
    ensures rule.Exact() <==> rule.nc <= rule.n / rule.nc + rule.n % rule.nc + 1
  {
    var n, nc, b := rule.n, rule.nc, rule.n / rule.nc + 1;
    CopyFits(n, nc);
    if (nc - 1) * b <= n {
      forall c: nat, x: nat
        ensures rule.Deals(c, x) <==> x < n && c == if x / b < nc - 1 then x / b else nc - 1
      {
        CopyDeals(rule, c, x);
      }
      forall x: nat | x < n ensures rule.Served(x) {
        assert rule.Deals(if x / b < nc - 1 then x / b else nc - 1, x);
      }
    } else {
      CopySpills(rule);
    }
  }

  /** One core's part of the copy, when the parts fit. */
  method CopyPart(c: nat, nc: nat, n: nat, m: nat, src: array<int>, dst: array<int>)
    requires c < nc <= n / nc + n % nc + 1 && n < m && src.Length == dst.Length == n && src != dst
    modifies dst
    ensures forall k: nat :: k < n ==> dst[k] == if Copy(n, nc, m).Deals(c, k) then src[k] else old(dst[k])
  {
    var rule := Copy(n, nc, m);
    CopyFits(n, nc);
    CopyCounts(rule, c);
    PartInside(n, nc, c);
    ghost var d0 := dst[..];
    var start := rule.Start(c);
    var end := start + rule.Count(c);
    var i := start;
    while i < end
      invariant start <= i <= end
      invariant forall k: nat :: k < n ==> dst[k] == if start <= k < i then src[k] else d0[k]
    {
      dst[i] := src[i];
      i := i + 1;
    }
  }

  lemma PartInside(n: nat, nc: nat, c: nat)
    requires c < nc && (nc - 1) * (n / nc + 1) <= n
    ensures c < nc - 1 ==> (c + 1) * (n / nc + 1) <= n
    ensures c * (n / nc + 1) <= n
  {
    MulMono(c, nc - 1, n / nc + 1);
    if c < nc - 1 { MulMono(c + 1, nc - 1, n / nc + 1); }
  }

  /** The parts of all cores, in any order, copy the whole array. */
  method CopyAll(order: seq<nat>, nc: nat, n: nat, m: nat, src: array<int>, dst: array<int>)
    requires 0 < nc <= n / nc + n % nc + 1 && n < m && src.Length == dst.Length == n && src != dst
    requires forall t :: 0 <= t < |order| ==> order[t] < nc
    requires forall c: nat :: c < nc ==> c in order
    modifies dst
    ensures dst[..] == src[..]
  {
    ghost var rule, s := Copy(n, nc, m), src[..];
    CopyExact(rule);
    hide Rule.Deals;
    for t := 0 to |order|
      invariant src[..] == s
      invariant forall u: nat, k: nat :: u < t && k < n && rule.Deals(order[u], k) ==> dst[k] == s[k]
    {
      CopyPart(order[t], nc, n, m, src, dst);
    }
    forall k: nat | k < n ensures dst[k] == s[k] {
      assert rule.Served(k);
      var c: nat :| rule.Deals(c, k);
      DealsOnlyCores(rule, c, k);
      assert c in order;
      var u :| 0 <= u < |order| && order[u] == c;
    }
  }

  lemma DealsOnlyCores(rule: Rule, c: nat, x: nat)
    requires rule.Valid() && rule.Deals(c, x)
    ensures c < rule.nc
  {
  }

  lemma CopySpills(rule: Rule)
    requires rule.Valid() && rule.Copy? && (rule.nc - 1) * (rule.n / rule.nc + 1) > rule.n
    ensures !rule.Exact()
  {
    var b, c := rule.n / rule.nc + 1, rule.nc - 2;
    assert rule.nc >= 2;
    var x := (rule.nc - 1) * b - 1;
    assert x == b * c + (b - 1);
    assert rule.Deals(c, x);
  }

  // ---------------------------------------------------------------- vvadd0, vvadd3

  /** Up to the end of the blocks core c has the c-th. */
  lemma BlockDeals(rule: Rule, c: nat, x: nat)
    requires rule.Valid() && !rule.Copy?
    ensures var q := rule.n / rule.nc;
            c < rule.nc && rule.Start(c) <= x < rule.Start(c) + rule.Count(c)
            <==> x < rule.nc * q && c == Quot(x, q)
  {
    var q := rule.n / rule.nc;
    if q > 0 {
      BlockOf(x, q, c);
      BlockEnd(x, q, rule.nc);
    }
  }

  /** The element after the last block is served only as part of a rest. */
  lemma AfterBlocks(rule: Rule, c: nat)
    requires rule.Valid() && !rule.Copy?
    ensures var x := rule.nc * (rule.n / rule.nc);
            rule.Deals(c, x) ==> rule.BlocksAndRest? && rule.Rest() <= x
  {
    BlockDeals(rule, c, rule.nc * (rule.n / rule.nc));
    hide Rule.Start, Rule.Count, Rule.Rest;
  }

  /** Without a rest the blocks serve everything exactly if they divide it. */
  lemma BlocksExact(rule: Rule)
    requires rule.Valid() && rule.Blocks?
    ensures rule.Exact() <==> rule.n % rule.nc == 0
  {
    var n, nc, q := rule.n, rule.nc, rule.n / rule.nc;
    QuotRemSum(n, nc);
    if n % nc == 0 {
      forall c: nat, x: nat ensures rule.Deals(c, x) <==> x < n && c == Quot(x, q) {
        BlockDeals(rule, c, x);
      }
      forall x: nat | x < n ensures rule.Served(x) { assert rule.Deals(Quot(x, q), x); }
      hide Rule.Deals;
    } else {
      forall c: nat ensures !rule.Deals(c, nc * q) { AfterBlocks(rule, c); }
      assert !rule.Served(nc * q);
    }
  }

  /** Dealing out the remainder by the block size serves everything exactly if it is smaller than a block. */
  lemma RestExact(rule: Rule)
    requires rule.Valid() && rule.BlocksAndRest?
    ensures rule.Exact() <==> rule.n % rule.nc < rule.n / rule.nc
  {
    var n, nc, q, r := rule.n, rule.nc, rule.n / rule.nc, rule.n % rule.nc;
    QuotPositive(n, nc);
    QuotRemSum(n, nc);
    if r < q {
      DivModUnique(n, q, nc, r);
      assert rule.Rest() == nc * q;
      forall c: nat, x: nat
        ensures rule.Deals(c, x) <==> x < n && c == if x < nc * q then Quot(x, q) else (x - nc * q) % nc
      {
        BlockDeals(rule, c, x);
      }
      forall x: nat | x < n ensures rule.Served(x) {
        assert rule.Deals(if x < nc * q then Quot(x, q) else (x - nc * q) % nc, x);
      }
      hide Rule.Deals;
    } else {
      forall c: nat ensures !rule.Deals(c, nc * q) { AfterBlocks(rule, c); }
      assert !rule.Served(nc * q);
    }
  }

  /** Where core `c` has been in the rest, up to `i`. */
  predicate InRest(rule: Rule, c: nat, i: nat, k: nat)
    requires rule.Valid() && rule.BlocksAndRest?
  {
    rule.Rest() <= k < i && k < rule.n && (k - rule.Rest()) % rule.nc == c
  }

  lemma RestStep(rule: Rule, c: nat, i: nat, k: nat)
    requires rule.Valid() && rule.BlocksAndRest? && c < rule.nc
    requires rule.Rest() <= i < rule.n && (i - rule.Rest()) % rule.nc == c
    ensures InRest(rule, c, i + rule.nc, k) <==> InRest(rule, c, i, k) || k == i
    ensures (i + rule.nc - rule.Rest()) % rule.nc == c
  {
    hide Rule.Rest;
    var nc, d := rule.nc, i - rule.Rest();
    var q := d / nc;
    assert d == q * nc + c;
    assert (q + 1) * nc == q * nc + nc;
    DivModUnique(d + nc, nc, q + 1, c);
    if i <= k < i + nc && (k - rule.Rest()) % nc == c {
      var e := k - i;
      DivModUnique(d + e, nc, if c + e < nc then q else q + 1, if c + e < nc then c + e else c + e - nc);
    }
  }

  /** `vvadd` of `vvadd0.c`: a block, and every `ncores`-th element of the rest. */
  method VvAdd0(coreid: nat, ncores: nat, n: nat, x: array<int>, y: array<int>, z: array<int>)
    requires coreid < ncores <= n && n <= x.Length && n <= y.Length && n <= z.Length && x != z && y != z
    modifies z
    ensures var rule := BlocksAndRest(n, ncores);
            forall k: nat :: k < z.Length ==>
              z[k] == if rule.Deals(coreid, k) && k < n then x[k] + y[k] else old(z[k])
  {
    ghost var rule := BlocksAndRest(n, ncores);
    QuotPositive(n, ncores);
    BlockInside(n, ncores, coreid);
    ghost var z0 := z[..];
    var i := coreid * (n / ncores);
    while i < (coreid + 1) * (n / ncores)
      invariant rule.Start(coreid) <= i <= rule.Start(coreid) + rule.Count(coreid)
      invariant forall k: nat :: k < z.Length ==>
        z[k] == if rule.Start(coreid) <= k < i then x[k] + y[k] else z0[k]
    {
      z[i] := x[i] + y[i];
      i := i + 1;
    }
    ghost var z1 := z[..];
    AddRest(rule, coreid, ncores, n, n % (n / ncores), x, y, z);
    forall k: nat | k < z.Length
      ensures z[k] == if rule.Deals(coreid, k) && k < n then x[k] + y[k] else z0[k]
    {
      DealsParts(rule, coreid, n, k);
      assert z[k] == if InRest(rule, coreid, n, k) then x[k] + y[k] else z1[k];
    }
  }

  /** The second loop. */
  method AddRest(ghost rule: Rule, coreid: nat, ncores: nat, n: nat, leftover: nat,
                 x: array<int>, y: array<int>, z: array<int>)
    requires coreid < ncores <= n && n <= x.Length && n <= y.Length && n <= z.Length && x != z && y != z
    requires rule == BlocksAndRest(n, ncores) && n - leftover == rule.Rest()
    modifies z
    ensures forall k: nat :: k < z.Length ==>
              z[k] == if InRest(rule, coreid, n, k) then x[k] + y[k] else old(z[k])
  {
    ghost var z0 := z[..];
    var i := (n - leftover) + coreid;
    forall k: nat ensures !InRest(rule, coreid, i, k) { RestStart(rule, coreid, k); }
    RestStart(rule, coreid, i);
    while i < n
      invariant rule.Rest() <= i && (i - rule.Rest()) % ncores == coreid
      invariant forall k: nat :: k < z.Length ==>
        z[k] == if InRest(rule, coreid, i, k) then x[k] + y[k] else z0[k]
    {
      forall k: nat ensures InRest(rule, coreid, i + ncores, k) <==> InRest(rule, coreid, i, k) || k == i {
        RestStep(rule, coreid, i, k);
      }
      RestStep(rule, coreid, i, i);
      z[i] := x[i] + y[i];
      i := i + ncores;
    }
    hide Rule.Rest;
  }

  lemma DealsParts(rule: Rule, c: nat, i: nat, k: nat)
    requires rule.Valid() && rule.BlocksAndRest? && c < rule.nc && i >= rule.n
    ensures rule.Deals(c, k) && k < rule.n <==>
            (rule.Start(c) <= k < rule.Start(c) + rule.Count(c)) || InRest(rule, c, i, k)
  {
    BlockInside(rule.n, rule.nc, c);
  }

  lemma RestStart(rule: Rule, c: nat, k: nat)
    requires rule.Valid() && rule.BlocksAndRest? && c < rule.nc
    ensures !InRest(rule, c, rule.Rest() + c, k)
    ensures (rule.Rest() + c - rule.Rest()) % rule.nc == c
  {
    DivModUnique(c, rule.nc, 0, c);
    if rule.Rest() <= k < rule.Rest() + c { DivModUnique(k - rule.Rest(), rule.nc, 0, k - rule.Rest()); }
  }

  lemma BlockInside(n: nat, nc: nat, c: nat)
    requires nc > 0 && c < nc
    ensures c * (n / nc) == n / nc * c && (c + 1) * (n / nc) == n / nc * c + n / nc <= n
  {
    QuotRemSum(n, nc);
    MulMono(c + 1, nc, n / nc);
  }

  /** How many elements the unrolled loop of `vvadd3.c` does for a block of `count`, in words below `m`. */
  function DuffCount(count: nat, m: nat): nat
    requires m > 0
  {
    (if count % 8 == 0 then 8 else count % 8) + 8 * (((count + 7) / 8 - 1) % m)
  }

  /** It does the block exactly unless the block is empty. */
  lemma DuffExact(count: nat, m: nat)
    requires count + 7 < m
    ensures DuffCount(count, m) == count <==> count > 0
  {
    var c := (count + 7) / 8 - 1;
    if count > 0 {
      DivModUnique(c, m, 0, c);
    } else {
      DivModUnique(-1, m, -1, m - 1);
    }
  }

  /** The statements of the loop body from some label on. */
  method SumRun(at: nat, count: nat, x: array<int>, y: array<int>, z: array<int>)
    requires at + count <= x.Length && at + count <= y.Length && at + count <= z.Length && x != z && y != z
    modifies z
    ensures forall k: nat :: k < z.Length ==> z[k] == if at <= k < at + count then x[k] + y[k] else old(z[k])
  {
    ghost var z0 := z[..];
    for u := 0 to count
      invariant forall k: nat :: k < z.Length ==> z[k] == if at <= k < at + u then x[k] + y[k] else z0[k]
    {
      z[at + u] := x[at + u] + y[at + u];
    }
  }

  /** `vvadd` of `vvadd3.c`: the switch enters the loop body in the middle. */
  method VvAdd3(coreid: nat, ncores: nat, n: nat, x: array<int>, y: array<int>, z: array<int>)
    requires coreid < ncores <= n && n <= x.Length && n <= y.Length && n <= z.Length && x != z && y != z
    modifies z
    ensures var rule := Blocks(n, ncores);
            forall k: nat :: k < z.Length ==>
              z[k] == if rule.Deals(coreid, k) && k < n then x[k] + y[k] else old(z[k])
  {
    QuotPositive(n, ncores);
    BlockInside(n, ncores, coreid);
    ghost var z0 := z[..];
    var count := n / ncores;
    var start := coreid * count;
    DuffLoop(start, count, x, y, z);
  }

  method DuffLoop(start: nat, count: nat, x: array<int>, y: array<int>, z: array<int>)
    requires count > 0 && x != z && y != z
    requires start + count <= x.Length && start + count <= y.Length && start + count <= z.Length
    modifies z
    ensures forall k: nat :: k < z.Length ==> z[k] == if start <= k < start + count then x[k] + y[k] else old(z[k])
  {
    ghost var z0 := z[..];
    var c := (count + 7) / 8;
    var entry := if count % 8 == 0 then 8 else count % 8;
    SumRun(start, entry, x, y, z);
    var at := start + entry;
    c := c - 1;
    while c > 0
      invariant c >= 0 && start + count == at + 8 * c && start <= at
      invariant forall k: nat :: k < z.Length ==> z[k] == if start <= k < at then x[k] + y[k] else z0[k]
    {
      SumRun(at, 8, x, y, z);
      at := at + 8;
      c := c - 1;
    }
  }
}
