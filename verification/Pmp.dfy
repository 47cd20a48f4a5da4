/** `benchmarks/pmp/pmp.c`: how regions of physical memory are encoded in the PMP
    registers, which accesses the program expects to succeed, and the page tables it
    sets up.  The granule is four bytes; a machine word is a natural below `m`, two to
    the word width. */
module Pmp {
  import opened Arith

  const GRANULE: nat := 4
  const PGSIZE: nat := 4096

  datatype Mode = Off | Tor | Na4 | Napot

  /** Address registers hold addresses shifted right by two. */
  datatype Config = Config(mode: Mode, a0: nat, a1: nat)

  // ------------------------------------------------------ regions and their encoding

  /** `set_pmp_range` */
  function EncodeRange(base: nat, range: nat, m: nat): Config
    requires m > 0
  {
    Config(Tor, base / 4, (base + range) % m / 4)
  }

  /** `set_pmp_napot` */
  function EncodeNapot(base: nat, range: nat, m: nat): Config
    requires range >= 2 && m > 0
  {
    Config(if range > GRANULE then Napot else Na4, 0, (base + (range / 2 - 1)) % m / 4)
  }

  /** The number of one bits below the lowest zero bit. */
  function Ones(a: nat): nat { if a % 2 == 1 then 1 + Ones(a / 2) else 0 }

  lemma {:induction false} OnesBelow(a: nat)
    ensures Pow2(Ones(a)) <= a + 1
  {
    if a % 2 == 1 { OnesBelow(a / 2); }
  }

  /** Where a region begins and ends, by section 3.7.1 of the RISC-V Privileged Architecture. */
  function Region(p: Config): (nat, nat) {
    match p.mode
    case Off => (0, 0)
    case Tor => (p.a0 * 4, p.a1 * 4)
    case Na4 => (p.a1 * 4, p.a1 * 4 + 4)
    case Napot =>
      OnesBelow(p.a1);
      var lo := (p.a1 - (Pow2(Ones(p.a1)) - 1)) * 4;
      (lo, lo + Pow2(Ones(p.a1) + 3))
  }

  lemma {:induction false} OnesOf(q: nat, k: nat)
    ensures Ones(q * Pow2(k + 1) + (Pow2(k) - 1)) == k
  {
    hide Ones;
    if k == 0 {
      OnesStep(2 * q, q);
    } else {
      OnesOf(q, k - 1);
      OddStep(q, Pow2(k));
      OnesStep(q * Pow2(k + 1) + (Pow2(k) - 1), q * Pow2(k) + (Pow2(k - 1) - 1));
    }
  }

  lemma OnesStep(a: nat, b: nat)
    requires a == 2 * b || a == 2 * b + 1
    ensures Ones(a) == if a == 2 * b then 0 else 1 + Ones(b)
  {
  }

  lemma OddStep(q: nat, h: nat)
    requires h % 2 == 0 && h > 0
    ensures q * (2 * h) + (h - 1) == 2 * (q * h + (h / 2 - 1)) + 1
  {
    assert q * (2 * h) == 2 * (q * h);
  }

  /** An aligned power of two, encoded, means just that range. */
  lemma NapotRoundTrip(q: nat, j: nat, m: nat)
    requires 2 <= j && q * Pow2(j) + Pow2(j) <= m
    ensures Region(EncodeNapot(q * Pow2(j), Pow2(j), m)) == (q * Pow2(j), q * Pow2(j) + Pow2(j))
  {
    hide Pow2, Ones, Region, EncodeNapot;
    RangeSize(j);
    if j == 2 {
      OneGranule(q, Pow2(j), m);
    } else {
      NapotAddress(q, j - 3);
      ManyGranules(q * Pow2(j), Pow2(j), m);
    }
  }

  lemma RangeSize(j: nat)
    requires 2 <= j
    ensures if j == 2 then Pow2(j) == 4 else Pow2(j) >= 8
  {
    assert Pow2(2) == 4;
    if j > 2 { Pow2Three(j - 3); }
  }

  lemma OneGranule(q: nat, range: nat, m: nat)
    requires range == 4 && q * range + range <= m
    ensures Region(EncodeNapot(q * range, range, m)) == (q * range, q * range + range)
  {
    Unwrapped(q * range, range, m);
    DivModUnique(q * range + 1, 4, q, 1);
  }

  lemma ManyGranules(base: nat, range: nat, m: nat)
    requires range > 4 && base + range <= m
    ensures EncodeNapot(base, range, m) == Config(Napot, 0, (base + (range / 2 - 1)) / 4)
  {
    Unwrapped(base, range, m);
  }

  lemma Unwrapped(base: nat, range: nat, m: nat)
    requires range >= 2 && base + range <= m
    ensures (base + (range / 2 - 1)) % m == base + (range / 2 - 1)
  {
    DivModUnique(base + (range / 2 - 1), m, 0, base + (range / 2 - 1));
  }

  lemma NapotAddress(q: nat, k: nat)
    ensures var range := Pow2(k + 3);
            var a := (q * range + (range / 2 - 1)) / 4;
            Region(Config(Napot, 0, a)) == (q * range, q * range + range)
  {
    hide Pow2, Ones, Region;
    PowDouble(k);
    Pow2Three(k);
    var h, range := Pow2(k), Pow2(k + 3);
    EncodedAddress(q, h, range);
    OnesOf(q, k);
    var a := q * (2 * h) + (h - 1);
    NapotRegion(a);
    EightTimes(q, h);
  }

  lemma NapotRegion(a: nat)
    ensures Pow2(Ones(a)) <= a + 1
    ensures Region(Config(Napot, 0, a)) == ((a - (Pow2(Ones(a)) - 1)) * 4,
                                            (a - (Pow2(Ones(a)) - 1)) * 4 + Pow2(Ones(a) + 3))
  {
    OnesBelow(a);
  }

  lemma EightTimes(q: nat, h: nat)
    ensures q * (2 * h) * 4 == q * (8 * h)
  {
  }

  lemma Pow2Three(k: nat)
    ensures Pow2(k + 3) == 8 * Pow2(k)
  {
    assert Pow2(k + 3) == 2 * Pow2(k + 2) && Pow2(k + 2) == 2 * Pow2(k + 1);
  }

  lemma EncodedAddress(q: nat, h: nat, range: nat)
    requires h > 0 && range == 8 * h
    ensures (q * range + (range / 2 - 1)) / 4 == q * (2 * h) + (h - 1)
  {
    var a := q * (2 * h) + (h - 1);
    assert q * range == 4 * (q * (2 * h));
    DivModUnique(q * range + (range / 2 - 1), 4, a, 3);
  }

  lemma RangeRegion(base: nat, range: nat, m: nat)
    requires m > 0
    ensures Region(EncodeRange(base, range, m)) == (base / 4 * 4, (base + range) % m / 4 * 4)
  {
  }

  /** The same range with a lower and an upper bound, if it does not end at the last byte. */
  lemma RangeRoundTrip(base: nat, range: nat, m: nat)
    requires base % 4 == 0 && range % 4 == 0 && m % 4 == 0 && 0 < range && base + range <= m
    ensures Region(EncodeRange(base, range, m)) == (base, base + range) <==> base + range < m
  {
    hide Region, EncodeRange;
    var end := base + range;
    RangeRegion(base, range, m);
    Quarter(base);
    if end < m {
      DivModUnique(end, m, 0, end);
      Quarter(end);
    } else {
      DivModUnique(end, m, 1, 0);
    }
  }

  // ---------------------------------------------------------------------- decoding

  lemma Shifted(lo: nat, range: nat, m: nat)
    requires m > 0
    ensures lo % m * 4 % m == lo * 4 % m
    ensures (lo % m + range % m) % m * 4 % m == (lo * 4 + range * 4) % m
  {
    ModTimes(lo, m);
    ModSum(lo, range, m);
    ModTimes(lo + range, m);
  }

  lemma ModTimes(x: nat, m: nat)
    requires m > 0
    ensures x % m * 4 % m == x * 4 % m
  {
    var q, r := x / m, x % m;
    assert x * 4 == (q * 4 + r * 4 / m) * m + r * 4 % m by {
      assert r * 4 == r * 4 / m * m + r * 4 % m;
      assert x == q * m + r;
      assert (q * 4 + r * 4 / m) * m == q * m * 4 + r * 4 / m * m;
    }
    DivModUnique(x * 4, m, q * 4 + r * 4 / m, r * 4 % m);
  }

  lemma ModSum(x: nat, y: nat, m: nat)
    requires m > 0
    ensures (x % m + y % m) % m == (x + y) % m
  {
    var s := x % m + y % m;
    assert x + y == (x / m + y / m + s / m) * m + s % m by {
      assert x == x / m * m + x % m && y == y / m * m + y % m && s == s / m * m + s % m;
      assert (x / m + y / m + s / m) * m == x / m * m + y / m * m + s / m * m;
    }
    DivModUnique(x + y, m, x / m + y / m + s / m, s % m);
  }

  lemma {:induction false} PowBelow(k: nat, n: nat)
    requires k < n
    ensures Pow2(k) < Pow2(n)
  {
    if k < n - 1 { PowBelow(k, n - 1); }
  }

  /** The loop has cleared `k` ones; above them `a` reads `rest`, and the probe stands at bit `k`. */
  ghost predicate Clearing(a: nat, xlen: nat, lo: nat, range: nat, i: nat, k: nat, rest: nat) {
    && k <= xlen && a < Pow2(xlen) && i == Pow2(k) % Pow2(xlen) && range == Pow2(k + 1) % Pow2(xlen)
    && lo == rest * Pow2(k) && a == lo + (Pow2(k) - 1) && Ones(a) == k + Ones(rest)
  }

  /** The probe is a bit of the word, or has been shifted out. */
  lemma Probe(a: nat, xlen: nat, lo: nat, range: nat, i: nat, k: nat, rest: nat)
    requires Clearing(a, xlen, lo, range, i, k, rest)
    ensures i != 0 ==> k < xlen && i == Pow2(k) && lo / i == rest
    ensures i == 0 ==> rest == 0
  {
    hide Ones;
    if k < xlen {
      PowBelow(k, xlen);
      DivModUnique(Pow2(k), Pow2(xlen), 0, Pow2(k));
      DivModUnique(lo, Pow2(k), rest, 0);
    } else {
      DivModUnique(Pow2(k), Pow2(xlen), 1, 0);
      if rest > 0 { MulMono(1, rest, Pow2(k)); }
    }
    hide Pow2;
  }

  lemma ClearOne(a: nat, xlen: nat, lo: nat, range: nat, i: nat, k: nat, rest: nat)
    requires Clearing(a, xlen, lo, range, i, k, rest) && k < xlen && i == Pow2(k) && rest % 2 == 1
    ensures lo >= i
    ensures Clearing(a, xlen, lo - i, range * 2 % Pow2(xlen), i * 2 % Pow2(xlen), k + 1, rest / 2)
  {
    PowDouble(k);
    hide Pow2, Ones;
    OnesStep(rest, rest / 2);
    OddTimes(rest, Pow2(k));
    ModDouble(Pow2(k + 1), Pow2(xlen));
  }

  lemma PowDouble(k: nat)
    ensures Pow2(k + 1) == 2 * Pow2(k) && Pow2(k + 2) == 2 * Pow2(k + 1)
  {
  }

  lemma OddTimes(rest: nat, h: nat)
    requires rest % 2 == 1
    ensures rest * h - h == rest / 2 * (2 * h) && rest * h >= h
  {
    var n := rest / 2;
    assert rest * h == n * (2 * h) + h by { assert rest == 2 * n + 1; }
    MulMono(1, rest, h);
  }

  lemma ModDouble(x: nat, m: nat)
    requires m > 0
    ensures x % m * 2 % m == 2 * x % m
  {
    ModSum(x, x, m);
    ModSum(x % m, x % m, m);
    DivModUnique(x % m, m, 0, x % m);
  }

  /** The loop over the low one bits: they are cleared, and the range doubles with each. */
  method ClearOnes(a: nat, xlen: nat) returns (lo: nat, range: nat)
    requires a < Pow2(xlen)
    ensures lo == a - (Pow2(Ones(a)) - 1) && range == Pow2(Ones(a) + 1) % Pow2(xlen)
  {
    var m := Pow2(xlen);
    lo, range := a, 2 % m;
    var i := 1 % m;
    ghost var k, rest := 0, a;
    assert Clearing(a, xlen, lo, range, i, k, rest) by { assert Pow2(1) == 2; }
    hide Clearing, Pow2, Ones;
    while i != 0
      invariant Clearing(a, xlen, lo, range, i, k, rest)
      decreases xlen - k
    {
      Probe(a, xlen, lo, range, i, k, rest);
      if lo / i % 2 == 0 { break; }
      ClearOne(a, xlen, lo, range, i, k, rest);
      lo := lo - i;
      range := range * 2 % m;
      i := i * 2 % m;
      k, rest := k + 1, rest / 2;
    }
    Probe(a, xlen, lo, range, i, k, rest);
    Cleared(a, xlen, lo, range, i, k, rest);
  }

  lemma Cleared(a: nat, xlen: nat, lo: nat, range: nat, i: nat, k: nat, rest: nat)
    requires Clearing(a, xlen, lo, range, i, k, rest) && rest % 2 == 0
    ensures lo == a - (Pow2(Ones(a)) - 1) && range == Pow2(Ones(a) + 1) % Pow2(xlen)
  {
    assert Ones(rest) == 0;
    hide Pow2, Ones;
  }

  // ------------------------------------------------------------------- page tables

  /** The pages that hold the tables, and the page that is mapped. */
  datatype Pages = Pages(l1pt: nat, l2pt: nat, l3pt: nat, scratch: nat) {
    predicate Distinct(rv64: bool) { l1pt != l2pt && l1pt != l3pt && (rv64 <==> l2pt != l3pt) }
  }

  const PTE_V: nat := 1
  const PTE_LEAF: nat := 0xC7   // A, D, W, R and V

  /** A table with one entry set. */
  ghost predicate Sole(t: seq<nat>, i: nat, pte: nat) {
    i < |t| && t[i] == pte && forall k :: 0 <= k < |t| && k != i ==> t[k] == 0
  }

  /** Tables in memory, by the number of their page. */
  datatype Tables = Tables(mem: map<nat, seq<nat>>, pages: Pages, rv64: bool)

  /** The tables as the program sets them: three levels, or two. */
  ghost predicate TablesSet(t: Tables) {
    var (m, p) := (t.mem, t.pages);
    && p.l1pt in m && Sole(m[p.l1pt], 0, p.l2pt * 1024 + PTE_V)
    && p.l2pt in m && (t.rv64 ==> Sole(m[p.l2pt], 0, p.l3pt * 1024 + PTE_V))
    && p.l3pt in m && Sole(m[p.l3pt], 1, p.scratch * 1024 + PTE_LEAF) && (!t.rv64 ==> p.l3pt == p.l2pt)
  }

  /** `init_pt`, on tables that are zero at first; on RV32 the name `l3pt` stands for `l2pt`. */
  method InitPt(l1pt: array<nat>, l2pt: array<nat>, l3pt: array<nat>, pages: Pages, rv64: bool)
    requires l1pt.Length > 1 && l2pt.Length > 1 && l3pt.Length > 1 && l1pt != l2pt && l1pt != l3pt
    requires rv64 <==> l2pt != l3pt
    requires forall k :: 0 <= k < l1pt.Length ==> l1pt[k] == 0
    requires forall k :: 0 <= k < l2pt.Length ==> l2pt[k] == 0
    requires forall k :: 0 <= k < l3pt.Length ==> l3pt[k] == 0
    modifies l1pt, l2pt, l3pt
    ensures Sole(l1pt[..], 0, pages.l2pt * 1024 + PTE_V)
    ensures rv64 ==> Sole(l2pt[..], 0, pages.l3pt * 1024 + PTE_V)
    ensures Sole(l3pt[..], 1, pages.scratch * 1024 + PTE_LEAF)
    ensures pages.Distinct(rv64) ==>
              var mem := map[pages.l1pt := l1pt[..], pages.l2pt := l2pt[..], pages.l3pt := l3pt[..]];
              TablesSet(Tables(mem, pages, rv64))
  {
    l1pt[0] := pages.l2pt * 1024 + PTE_V;
    l3pt[1] := pages.scratch * 1024 + PTE_LEAF;
    if rv64 { l2pt[0] := pages.l3pt * 1024 + PTE_V; }
  }

  datatype Address = Outside | Physical(pa: nat)

  /** `va2pa`, where it does not end the program. */
  function Va2Pa(va: nat, scratch: nat): Address {
    if va < PGSIZE || va >= 2 * PGSIZE then Outside else Physical(va - PGSIZE + scratch)
  }

  /** What section 4.3.1 asks of a leaf for a load or a store in supervisor mode. */
  predicate LeafAllows(pte: nat, store: bool) {
    && pte / 2 % 2 == 1                                             // R
    && pte / 16 % 2 == 0                                            // not U
    && pte / 64 % 2 == 1                                            // A
    && (store ==> pte / 4 % 2 == 1 && pte / 128 % 2 == 1)           // W and D
  }

  /** The page walk of section 4.3.2: the tables by page number, the indices from the top. */
  function Walk(mem: map<nat, seq<nat>>, table: nat, vpn: seq<nat>, store: bool): Address
    decreases |vpn|
  {
    if vpn == [] || table !in mem || vpn[0] >= |mem[table]| then Outside
    else
      var pte := mem[table][vpn[0]];
      if pte % 2 == 0 then Outside
      else if pte / 2 % 8 == 0 then Walk(mem, pte / 1024, vpn[1..], store)
      else if |vpn| == 1 && LeafAllows(pte, store) then Physical(pte / 1024)
      else Outside
  }

  lemma TableFields(ppn: nat)
    ensures var pte := ppn * 1024 + PTE_V; pte % 2 == 1 && pte / 2 % 8 == 0 && pte / 1024 == ppn
  {
    var p := ppn * 1024 + PTE_V;
    DivModUnique(p, 1024, ppn, 1);
    DivModUnique(p, 2, ppn * 512, 1);
    DivModUnique(p / 2, 8, ppn * 64, 0);
  }

  /** The flags of a number below 1024 are those of an entry with the flags and any page. */
  lemma Flag(ppn: nat, flags: nat, d: nat, e: nat)
    requires flags < 1024 && d * e == 1024 && e % 2 == 0
    ensures (ppn * 1024 + flags) / d % 2 == flags / d % 2
  {
    var q, r := flags / d, flags % d;
    assert flags == q * d + r;
    assert (ppn * e + q) * d == ppn * 1024 + q * d;
    DivModUnique(ppn * 1024 + flags, d, ppn * e + q, r);
    var h := e / 2;
    assert ppn * e == (ppn * h) * 2;
    DivModUnique(ppn * e + q, 2, ppn * h + q / 2, q % 2);
  }

  lemma LeafFields(ppn: nat, store: bool)
    ensures var pte := ppn * 1024 + PTE_LEAF;
            pte % 2 == 1 && pte / 2 % 8 != 0 && LeafAllows(pte, store) && pte / 1024 == ppn
  {
    var l := ppn * 1024 + PTE_LEAF;
    DivModUnique(l, 1024, ppn, PTE_LEAF);
    Flag(ppn, PTE_LEAF, 1, 1024);
    Flag(ppn, PTE_LEAF, 2, 512);
    Flag(ppn, PTE_LEAF, 4, 256);
    Flag(ppn, PTE_LEAF, 16, 64);
    Flag(ppn, PTE_LEAF, 64, 16);
    Flag(ppn, PTE_LEAF, 128, 8);
    DivModUnique(l / 2, 2, l / 2 / 2, 1);
  }

  lemma WalkTable(mem: map<nat, seq<nat>>, table: nat, next: nat, v: nat, rest: seq<nat>, store: bool)
    requires table in mem && Sole(mem[table], 0, next * 1024 + PTE_V)
    ensures Walk(mem, table, [v] + rest, store) == if v == 0 then Walk(mem, next, rest, store) else Outside
  {
    TableFields(next);
    assert ([v] + rest)[1..] == rest;
  }

  lemma WalkLeaf(mem: map<nat, seq<nat>>, table: nat, page: nat, v: nat, store: bool)
    requires table in mem && Sole(mem[table], 1, page * 1024 + PTE_LEAF)
    ensures Walk(mem, table, [v], store) == if v == 1 then Physical(page) else Outside
  {
    LeafFields(page, store);
    hide LeafAllows;
  }

  /** The address that a load or store at `va` reaches. */
  function Translate(t: Tables, va: nat, store: bool): Address {
    var n := va / PGSIZE;
    var page := if t.rv64 then Walk(t.mem, t.pages.l1pt, [n / 0x40000, n / 512 % 512, n % 512], store)
                else Walk(t.mem, t.pages.l1pt, [n / 1024, n % 1024], store);
    match page
    case Outside => Outside
    case Physical(p) => Physical(p * PGSIZE + va % PGSIZE)
  }

  /** The page that is mapped keeps the offset, and all other addresses are not mapped. */
  function Mapped(page: nat, va: nat): Address {
    if va / PGSIZE == 1 then Physical(page * PGSIZE + va % PGSIZE) else Outside
  }

  /** Sv39: of all addresses exactly those that `va2pa` accepts are mapped, each to the address it returns. */
  lemma Sv39Maps(t: Tables, va: nat, store: bool)
    requires TablesSet(t) && t.rv64
    ensures Translate(t, va, store) == Va2Pa(va, t.pages.scratch * PGSIZE) == Mapped(t.pages.scratch, va)
  {
    hide Walk, Sole;
    var n, p := va / PGSIZE, t.pages;
    WalkTable(t.mem, p.l1pt, p.l2pt, n / 0x40000, [n / 512 % 512, n % 512], store);
    WalkTable(t.mem, p.l2pt, p.l3pt, n / 512 % 512, [n % 512], store);
    WalkLeaf(t.mem, p.l3pt, p.scratch, n % 512, store);
    assert [n / 512 % 512, n % 512] == [n / 512 % 512] + [n % 512];
    assert [n / 0x40000, n / 512 % 512, n % 512] == [n / 0x40000] + [n / 512 % 512, n % 512];
    Offset(va);
  }

  /** Sv32: the same with two tables. */
  lemma Sv32Maps(t: Tables, va: nat, store: bool)
    requires TablesSet(t) && !t.rv64
    ensures Translate(t, va, store) == Va2Pa(va, t.pages.scratch * PGSIZE) == Mapped(t.pages.scratch, va)
  {
    hide Walk, Sole;
    var n, p := va / PGSIZE, t.pages;
    WalkTable(t.mem, p.l1pt, p.l2pt, n / 1024, [n % 1024], store);
    WalkLeaf(t.mem, p.l2pt, p.scratch, n % 1024, store);
    assert [n / 1024, n % 1024] == [n / 1024] + [n % 1024];
    Offset(va);
  }

  lemma Offset(va: nat)
    ensures va / PGSIZE == 1 <==> PGSIZE <= va < 2 * PGSIZE
    ensures va / PGSIZE == 1 ==> va % PGSIZE == va - PGSIZE
  {
  }

  // ------------------------------------------------------------------------ pmp_ok

  /** The region as the program computes it, in words. */
  function Decoded(p: Config, m: nat): (nat, nat)
    requires m > 0
  {
    (Region(p).0 % m, Region(p).1 % m)
  }

  /** The decoding part of `pmp_ok`. */
  method Decode(p: Config, xlen: nat) returns (lo: nat, hi: nat)
    requires p.mode != Off && p.a0 < Pow2(xlen) && p.a1 < Pow2(xlen)
    ensures (lo, hi) == Decoded(p, Pow2(xlen))
  {
    var m := Pow2(xlen);
    var a0, a1 := p.a0, p.a1;
    if p.mode != Tor {
      var range := 1 % m;
      if p.mode == Napot {
        a1, range := ClearOnes(p.a1, xlen);
        Pow2Three(Ones(p.a1));
        assert Pow2(Ones(p.a1) + 1) == 2 * Pow2(Ones(p.a1));
        Shifted(a1, Pow2(Ones(p.a1) + 1), m);
      } else {
        Shifted(a1, 1, m);
      }
      DivModUnique(a1, m, 0, a1);
      a0 := a1;
      a1 := (a0 + range) % m;
    }
    lo, hi := a0 * 4 % m, a1 * 4 % m;
  }

  /** An access of a power of two bytes, aligned to its size. */
  predicate Aligned(va: nat, size: nat) { size in {1, 2, 4, 8} && va % size == 0 }

  predicate In(lo: int, hi: int, x: int) { lo <= x < hi }

  /** The access lies inside the region or does not touch it, section 3.7.1. */
  predicate AllOrNone(lo: int, hi: int, pa: nat, size: nat) {
    (forall x :: pa <= x < pa + size ==> In(lo, hi, x)) || (forall x :: pa <= x < pa + size ==> !In(lo, hi, x))
  }

  /** The bytes of an aligned word stand or fall together. */
  lemma WordTogether(lo: int, hi: int, w: nat, x: nat)
    requires lo % 4 == 0 && hi % 4 == 0 && w % 4 == 0 && w <= x < w + 4
    ensures In(lo, hi, x) <==> In(lo, hi, w)
  {
  }

  /** The words of the access decide for its bytes. */
  lemma WordsDecide(lo: int, hi: int, pa: nat, size: nat)
    requires lo % 4 == 0 && hi % 4 == 0 && Aligned(pa, size)
    ensures AllOrNone(lo, hi, pa, size) <==> size <= 4 || (In(lo, hi, pa) <==> In(lo, hi, pa + 4))
  {
    hide AllOrNone, In, Aligned;
    if size == 8 {
      EightAligned(pa);
      TwoWords(lo, hi, pa);
    } else {
      SmallSize(pa, size);
      var w := InsideWord(pa, size);
      OneWord(lo, hi, w, pa, size);
    }
  }

  lemma EightAligned(pa: nat)
    requires Aligned(pa, 8)
    ensures pa % 4 == 0
  {
  }

  lemma SmallSize(pa: nat, size: nat)
    requires Aligned(pa, size) && size != 8
    ensures size <= 4
  {
  }

  lemma InsideWord(pa: nat, size: nat) returns (w: nat)
    requires Aligned(pa, size) && size < 8
    ensures w % 4 == 0 && w <= pa && pa + size <= w + 4
  {
    w := pa / 4 * 4;
    if size == 2 { EvenRest(pa / 2, pa / 4, pa % 4); }
  }

  lemma EvenRest(h: nat, q: nat, r: nat)
    requires 2 * h == 4 * q + r && r < 4
    ensures r <= 2
  {
    var d := h - 2 * q;
    assert r == 2 * d;
  }

  lemma OneWord(lo: int, hi: int, w: nat, pa: nat, size: nat)
    requires lo % 4 == 0 && hi % 4 == 0 && w % 4 == 0 && w <= pa && pa + size <= w + 4
    ensures AllOrNone(lo, hi, pa, size)
  {
    hide In;
    forall x | pa <= x < pa + size ensures In(lo, hi, x) <==> In(lo, hi, w) {
      WordTogether(lo, hi, w, x);
    }
  }

  lemma TwoWords(lo: int, hi: int, pa: nat)
    requires lo % 4 == 0 && hi % 4 == 0 && pa % 4 == 0
    ensures AllOrNone(lo, hi, pa, 8) <==> (In(lo, hi, pa) <==> In(lo, hi, pa + 4))
  {
    hide In;
    forall x | pa <= x < pa + 8
      ensures In(lo, hi, x) <==> In(lo, hi, if x < pa + 4 then pa else pa + 4)
    {
      WordTogether(lo, hi, if x < pa + 4 then pa else pa + 4, x);
    }
  }

  lemma SameOffset(va: nat, scratch: nat, size: nat)
    requires Aligned(va, size) && scratch % PGSIZE == 0 && va >= PGSIZE
    ensures Aligned(va - PGSIZE + scratch, size)
  {
    var pages := scratch / PGSIZE - 1;
    if size == 1 {
    } else if size == 2 {
      DivModUnique(va - PGSIZE + scratch, 2, va / 2 + 2048 * pages, 0);
    } else if size == 4 {
      DivModUnique(va - PGSIZE + scratch, 4, va / 4 + 1024 * pages, 0);
    } else {
      DivModUnique(va - PGSIZE + scratch, 8, va / 8 + 512 * pages, 0);
    }
  }

  // ------------------------------------------------- regions beyond the last address

  /** The region has an end in the middle of an access of eight bytes, at `b`. */
  predicate Straddled(lo: int, hi: int, b: int) { lo < hi && (lo == b || hi == b) }

  lemma EndInside(lo: int, hi: int, pa: nat)
    requires lo % 4 == 0 && hi % 4 == 0 && pa % 4 == 0
    ensures (In(lo, hi, pa) <==> In(lo, hi, pa + 4)) <==> !Straddled(lo, hi, pa + 4)
  {
  }

  /** The program computes the ends of the region modulo `m`, and judges an access of eight bytes
      with its middle at `b` by that.  This goes wrong where the region begins at `b` and its end
      comes to lie at `b` or below; or where an end at or beyond `m` comes to lie at `b`. */
  predicate CutWrong(lo: nat, hi: nat, b: nat, m: nat)
    requires m > 0
  {
    || (lo == b < hi && hi % m <= b)
    || (lo >= m && lo % m == b < hi % m)
    || ((lo >= m || hi >= m) && lo % m < b == hi % m)
  }

  lemma CutStraddles(lo: nat, hi: nat, b: nat, m: nat)
    requires b < m
    ensures Straddled(lo % m, hi % m, b) == Straddled(lo, hi, b) <==> !CutWrong(lo, hi, b, m)
  {
    if lo < m { DivModUnique(lo, m, 0, lo); }
    if hi < m { DivModUnique(hi, m, 0, hi); }
  }

  /** The access is judged by a region that was cut wrongly. */
  predicate Misjudged(p: Config, pa: nat, size: nat, m: nat)
    requires m > 0
  {
    var (lo, hi) := Region(p);
    size == 8 && CutWrong(lo, hi, pa + 4, m)
  }

  /** The program agrees with section 3.7.1 about an access exactly if the region is not cut wrongly. */
  lemma JudgedExactly(p: Config, pa: nat, size: nat, xlen: nat)
    requires xlen >= 2 && Aligned(pa, size) && pa + size <= Pow2(xlen)
    ensures var r, d := Region(p), Decoded(p, Pow2(xlen));
            AllOrNone(d.0, d.1, pa, size) == AllOrNone(r.0, r.1, pa, size) <==> !Misjudged(p, pa, size, Pow2(xlen))
  {
    hide Region, AllOrNone, Pow2, In, Straddled, CutWrong;
    var m := Pow2(xlen);
    var (lo, hi) := Region(p);
    RegionAligned(p);
    DecodedAligned(p, xlen);
    WordsDecide(lo, hi, pa, size);
    WordsDecide(lo % m, hi % m, pa, size);
    if size == 8 {
      EightAligned(pa);
      EndInside(lo, hi, pa);
      EndInside(lo % m, hi % m, pa);
      CutStraddles(lo, hi, pa + 4, m);
    } else {
      SmallSize(pa, size);
    }
  }

  /** Below the last address nothing is cut. */
  lemma InsideJudged(p: Config, pa: nat, size: nat, m: nat)
    requires m > 0 && Region(p).0 < m && Region(p).1 < m
    ensures !Misjudged(p, pa, size, m)
  {
    var (lo, hi) := Region(p);
    DivModUnique(lo, m, 0, lo);
    DivModUnique(hi, m, 0, hi);
  }

  /** An input that fails, for every word width: the last word of memory as a region, and an access
      to the last eight bytes.  Half of it lies inside, but the program expects it to succeed. */
  lemma LastWordMisjudged(m: nat)
    requires m % 4 == 0 && m >= 2 * PGSIZE
    ensures var p := EncodeNapot(m - 4, 4, m);
            && Va2Pa(2 * PGSIZE - 8, m - PGSIZE) == Physical(m - 8) && Misjudged(p, m - 8, 8, m)
            && AllOrNone(Decoded(p, m).0, Decoded(p, m).1, m - 8, 8)
            && !AllOrNone(Region(p).0, Region(p).1, m - 8, 8)
  {
    hide EncodeNapot, Region;
    OneGranule(m / 4 - 1, 4, m);
    DivModUnique(m, m, 1, 0);
    DivModUnique(m - 4, m, 0, m - 4);
    assert In(m - 4, m, m - 4) && !In(m - 4, m, m - 8);
  }

  lemma InPage(va: nat, size: nat)
    requires Aligned(va, size) && va < 2 * PGSIZE
    ensures va + size <= 2 * PGSIZE
  {
    if size == 1 {
    } else if size == 2 {
      assert va / 2 < PGSIZE;
    } else if size == 4 {
      assert va / 4 < PGSIZE / 2;
    } else {
      assert va / 8 < PGSIZE / 4;
    }
  }

  datatype Answer = Exit(code: nat) | Says(ok: bool)

  /** What the program expects of an access to virtual address `va`. */
  method PmpOk(p: Config, va: nat, size: nat, scratch: nat, xlen: nat, ghost t: Tables) returns (r: Answer)
    requires TablesSet(t) && scratch == t.pages.scratch * PGSIZE
    requires xlen >= 2 && p.a0 < Pow2(xlen) && p.a1 < Pow2(xlen)
    requires scratch + PGSIZE <= Pow2(xlen) && Aligned(va, size)
    ensures r == if p.mode == Off then Says(true)
                 else match Translate(t, va, false)
                      case Outside => Exit(3)
                      case Physical(pa) =>
                        var d := Decoded(p, Pow2(xlen));
                        Says(AllOrNone(d.0, d.1, pa, size))
    ensures p.mode != Off && r.Says? ==>
              Translate(t, va, false).Physical? && var pa := Translate(t, va, false).pa;
              r == Says(AllOrNone(Region(p).0, Region(p).1, pa, size)) <==> !Misjudged(p, pa, size, Pow2(xlen))
  {
    hide Decoded, Region, Pow2, AllOrNone, Misjudged, Translate, TablesSet, Mapped;
    if t.rv64 { Sv39Maps(t, va, false); } else { Sv32Maps(t, va, false); }
    if p.mode == Off { return Says(true); }
    var lo, hi := Decode(p, xlen);
    var a := Va2Pa(va, scratch);
    if a == Outside { return Exit(3); }
    var addr := a.pa;
    DecodedAligned(p, xlen);
    SameOffset(va, scratch, size);
    InPage(va, size);
    JudgedExactly(p, addr, size, xlen);
    WordsDecide(lo, hi, addr, size);
    var hits, i := 0, 0;
    while i < size
      invariant i == 0 || i == 4 || (i == 8 && size == 8)
      invariant hits == (if i > 0 && In(lo, hi, addr) then 4 else 0) + (if i > 4 && In(lo, hi, addr + 4) then 4 else 0)
      decreases size - i
    {
      if lo <= addr + i && addr + i < hi { hits := hits + GRANULE; }
      i := i + GRANULE;
    }
    return Says(hits == 0 || hits >= size);
  }

  lemma DecodedAligned(p: Config, xlen: nat)
    requires xlen >= 2
    ensures var d := Decoded(p, Pow2(xlen)); d.0 % 4 == 0 && d.1 % 4 == 0
  {
    PowDouble(xlen - 2);
    RegionAligned(p);
    hide Region, Pow2;
    MultipleMod(Region(p).0, Pow2(xlen), Pow2(xlen - 2));
    MultipleMod(Region(p).1, Pow2(xlen), Pow2(xlen - 2));
  }

  lemma RegionAligned(p: Config)
    ensures Region(p).0 % 4 == 0 && Region(p).1 % 4 == 0
  {
    Pow2Three(Ones(p.a1));
    hide Pow2, Ones;
    var lo := p.a1 - (Pow2(Ones(p.a1)) - 1);
    FourTimes(p.a0);
    FourTimes(p.a1);
    FourTimes(p.a1 + 1);
    FourTimes(lo);
    FourTimes(lo + 2 * Pow2(Ones(p.a1)));
  }

  lemma FourTimes(x: int)
    ensures x * 4 % 4 == 0
  {
  }

  lemma MultipleMod(x: int, m: nat, h: nat)
    requires x % 4 == 0 && m == 4 * h && h > 0
    ensures x % m % 4 == 0
  {
    assert x == x / m * m + x % m;
    assert x / m * m == 4 * (x / m * h);
  }

  /** Both encodings of a range lead to the same expectation; it is the range that was meant
      unless the range ends at the last byte of the address space. */
  lemma FormsAgree(q: nat, j: nat, m: nat)
    requires 2 <= j && m % 4 == 0 && q * Pow2(j) + Pow2(j) <= m
    ensures var base, range := q * Pow2(j), Pow2(j);
            && Decoded(EncodeNapot(base, range, m), m) == Decoded(EncodeRange(base, range, m), m)
            && (Decoded(EncodeNapot(base, range, m), m) == (base, base + range) <==> base + range < m)
  {
    hide Pow2, EncodeNapot, EncodeRange, Region, Decoded;
    NapotRoundTrip(q, j, m);
    MultipleOfFour(q, j);
    FormsAgreeOn(q * Pow2(j), Pow2(j), m);
  }

  lemma FormsAgreeOn(base: nat, range: nat, m: nat)
    requires base % 4 == 0 && range % 4 == 0 && range > 0 && m % 4 == 0 && base + range <= m
    requires Region(EncodeNapot(base, range, m)) == (base, base + range)
    ensures Decoded(EncodeNapot(base, range, m), m) == Decoded(EncodeRange(base, range, m), m)
    ensures Decoded(EncodeNapot(base, range, m), m) == (base, base + range) <==> base + range < m
  {
    hide EncodeNapot, EncodeRange, Region;
    RangeDecoded(base, range, m);
    Wraps(base, m);
    Wraps(base + range, m);
  }

  lemma RangeDecoded(base: nat, range: nat, m: nat)
    requires base % 4 == 0 && range % 4 == 0 && m > 0 && m % 4 == 0
    ensures Decoded(EncodeRange(base, range, m), m) == (base % m, (base + range) % m)
  {
    var e := (base + range) % m;
    MultipleMod(base + range, m, m / 4);
    Quarter(e);
    Quarter(base);
    DivModUnique(e, m, 0, e);
  }

  lemma Quarter(x: nat)
    requires x % 4 == 0
    ensures x / 4 * 4 == x
  {
  }

  lemma Wraps(x: nat, m: nat)
    requires x <= m && m > 0
    ensures x % m == if x < m then x else 0
  {
    if x < m { DivModUnique(x, m, 0, x); } else { DivModUnique(x, m, 1, 0); }
  }

  lemma MultipleOfFour(q: nat, j: nat)
    requires 2 <= j
    ensures Pow2(j) % 4 == 0 && q * Pow2(j) % 4 == 0
  {
    PowDouble(j - 2);
    hide Pow2;
    TimesFour(q, Pow2(j), Pow2(j - 2));
  }

  lemma TimesFour(q: nat, r: nat, h: nat)
    requires r == 4 * h
    ensures q * r % 4 == 0
  {
    assert q * r == 4 * (q * h);
  }
}
