/** `benchmarks/rsort/rsort.c`: least-significant-digit radix sort, eight bits a pass.

    A pass counts the digits, adds up the counts, and scatters the elements from
    back to front into the other buffer; the result is right only because every
    pass is stable. */
module RadixSort {
  import opened Arith

  const BASE: nat := 256

  function Pow(e: nat): nat { if e == 0 then 1 else BASE * Pow(e - 1) }

  lemma {:induction false} PowPositive(e: nat)
    ensures Pow(e) > 0
  {
    if e > 0 { PowPositive(e - 1); }
  }

  /** `(x >> 8e) % BASE`. */
  function Digit(x: nat, e: nat): (d: nat)
    ensures d < BASE
  {
    PowPositive(e);
    x / Pow(e) % BASE
  }

  // ------------------------------------------------------------ specification

  /** The elements of `s` whose digit is `d`, in order. */
  function Keep(s: seq<nat>, e: nat, d: nat): seq<nat> {
    if s == [] then []
    else
      var last := s[|s| - 1];
      Keep(s[..|s| - 1], e, d) + if Digit(last, e) == d then [last] else []
  }

  /** The buckets below `d`, one after the other. */
  function Gather(s: seq<nat>, e: nat, d: nat): seq<nat> {
    if d == 0 then [] else Gather(s, e, d - 1) + Keep(s, e, d - 1)
  }

  /** What a pass makes of the array. */
  function Pass(s: seq<nat>, e: nat): seq<nat> { Gather(s, e, BASE) }

  function Passes(s: seq<nat>, k: nat): seq<nat> {
    if k == 0 then s else Pass(Passes(s, k - 1), k - 1)
  }

  function Count(s: seq<nat>, e: nat, d: nat): nat { |Keep(s, e, d)| }

  /** Where bucket `d` starts. */
  function Start(s: seq<nat>, e: nat, d: nat): nat { |Gather(s, e, d)| }

  lemma {:induction false} KeepAppend(s: seq<nat>, t: seq<nat>, e: nat, d: nat)
    ensures Keep(s + t, e, d) == Keep(s, e, d) + Keep(t, e, d)
    decreases |t|
  {
    if t == [] {
      assert s + t == s;
    } else {
      var n := |t| - 1;
      assert (s + t)[..|s + t| - 1] == s + t[..n];
      KeepAppend(s, t[..n], e, d);
    }
  }

  lemma {:induction false} StartMonotone(s: seq<nat>, e: nat, d: nat, d': nat)
    requires d <= d'
    ensures Start(s, e, d) <= Start(s, e, d')
  {
    if d < d' { StartMonotone(s, e, d, d' - 1); }
  }

  // ------------------------------------------------ a pass permutes, and stably

  /** How often `v` occurs in `s`. */
  function Occurs(v: nat, s: seq<nat>): nat { multiset(s)[v] }

  lemma OccursAppend(v: nat, s: seq<nat>, t: seq<nat>)
    ensures Occurs(v, s + t) == Occurs(v, s) + Occurs(v, t)
  {
  }

  lemma {:induction false} GatherOccurs(v: nat, s: seq<nat>, x: nat, e: nat, d: nat)
    ensures Occurs(v, Gather(s + [x], e, d))
         == Occurs(v, Gather(s, e, d)) + if Digit(x, e) < d then Occurs(v, [x]) else 0
  {
    hide Digit, Keep, Occurs;
    if d > 0 {
      GatherOccurs(v, s, x, e, d - 1);
      KeepOneMore(s, x, e, d - 1);
      OccursAppend(v, Gather(s + [x], e, d - 1), Keep(s + [x], e, d - 1));
      OccursAppend(v, Gather(s, e, d - 1), Keep(s, e, d - 1));
      OccursAppend(v, Keep(s, e, d - 1), [x]);
    }
  }

  lemma KeepOneMore(s: seq<nat>, x: nat, e: nat, d: nat)
    ensures Keep(s + [x], e, d) == if Digit(x, e) == d then Keep(s, e, d) + [x] else Keep(s, e, d)
  {
    assert (s + [x])[..|s|] == s;
    assert Keep(s, e, d) + [] == Keep(s, e, d);
  }

  lemma {:induction false} PassOccurs(v: nat, s: seq<nat>, e: nat)
    ensures Occurs(v, Pass(s, e)) == Occurs(v, s)
  {
    hide Digit, Gather, Occurs;
    if s == [] {
      GatherEmpty(e, BASE);
    } else {
      var n, x := |s| - 1, s[|s| - 1];
      assert s == s[..n] + [x];
      PassOccurs(v, s[..n], e);
      GatherOccurs(v, s[..n], x, e, BASE);
      OccursAppend(v, s[..n], [x]);
    }
  }

  /** A pass rearranges the array. */
  lemma PassPermutes(s: seq<nat>, e: nat)
    ensures multiset(Pass(s, e)) == multiset(s) && |Pass(s, e)| == |s|
  {
    hide Pass;
    forall v: nat ensures multiset(Pass(s, e))[v] == multiset(s)[v] { PassOccurs(v, s, e); }
    SameSize(Pass(s, e), s);
  }

  lemma SameSize(s: seq<nat>, t: seq<nat>)
    requires multiset(s) == multiset(t)
    ensures |s| == |t|
  {
    assert |multiset(s)| == |s|;
  }

  lemma {:induction false} GatherEmpty(e: nat, d: nat)
    ensures Gather([], e, d) == []
  {
    if d > 0 { GatherEmpty(e, d - 1); }
  }

  /** A pass keeps the order of the elements that have the same digit. */
  lemma PassStable(s: seq<nat>, e: nat, d: nat)
    requires d < BASE
    ensures Keep(Pass(s, e), e, d) == Keep(s, e, d)
  {
    GatherStable(s, e, BASE, d);
  }

  lemma AddEmpty(s: seq<nat>)
    ensures s + [] == s && [] + s == s
  {
  }

  lemma {:induction false} GatherStable(s: seq<nat>, e: nat, b: nat, d: nat)
    ensures Keep(Gather(s, e, b), e, d) == if d < b then Keep(s, e, d) else []
  {
    hide Keep;
    KeepSingle(0, e, d);
    if b > 0 {
      GatherStable(s, e, b - 1, d);
      KeepAppend(Gather(s, e, b - 1), Keep(s, e, b - 1), e, d);
      KeepKeep(s, e, b - 1, d);
      AddEmpty(Keep(s, e, d));
      AddEmpty([]);
    }
  }

  lemma {:induction false} KeepKeep(s: seq<nat>, e: nat, b: nat, d: nat)
    ensures Keep(Keep(s, e, b), e, d) == if b == d then Keep(s, e, d) else []
  {
    hide Digit, Keep;
    KeepSingle(0, e, b);
    KeepSingle(0, e, d);
    if s != [] {
      var n, x := |s| - 1, s[|s| - 1];
      assert s == s[..n] + [x];
      KeepKeep(s[..n], e, b, d);
      KeepOneMore(s[..n], x, e, b);
      KeepOneMore(s[..n], x, e, d);
      KeepOneMore(Keep(s[..n], e, b), x, e, d);
    }
  }

  lemma KeepSingle(x: nat, e: nat, d: nat)
    ensures Keep([x], e, d) == if Digit(x, e) == d then [x] else []
    ensures Keep([], e, d) == []
  {
    assert [x][..0] == [];
  }

  // -------------------------------------------------- digits make up the order

  /** The `k` lowest digits. */
  function Low(x: nat, k: nat): nat {
    PowPositive(k);
    x % Pow(k)
  }

  ghost predicate SortedLow(s: seq<nat>, k: nat) {
    forall i, j :: 0 <= i < j < |s| ==> Low(s[i], k) <= Low(s[j], k)
  }

  ghost predicate Sorted(s: seq<nat>) {
    forall i, j :: 0 <= i < j < |s| ==> s[i] <= s[j]
  }

  /** The low k+1 digits are digit k and the low k digits. */
  lemma LowStep(x: nat, k: nat)
    ensures Low(x, k + 1) == Digit(x, k) * Pow(k) + Low(x, k)
    ensures 0 <= Low(x, k) < Pow(k)
  {
    PowPositive(k);
    var p, q := Pow(k), x / Pow(k);
    var r := (q % BASE) * p + x % p;
    MulMono(q % BASE, BASE - 1, p);
    assert x == q * p + x % p;
    assert q * p == (q / BASE) * (BASE * p) + (q % BASE) * p;
    DivModUnique(x, BASE * p, q / BASE, r);
  }

  /** A smaller digit decides; with equal digits the lower ones do. */
  lemma LowOrder(x: nat, y: nat, k: nat)
    requires Digit(x, k) < Digit(y, k) || (Digit(x, k) == Digit(y, k) && Low(x, k) <= Low(y, k))
    ensures Low(x, k + 1) <= Low(y, k + 1)
  {
    LowStep(x, k);
    LowStep(y, k);
    hide Digit, Low, Pow;
    if Digit(x, k) < Digit(y, k) { MulMono(Digit(x, k) + 1, Digit(y, k), Pow(k)); }
  }

  lemma {:induction false} KeepFacts(s: seq<nat>, e: nat, d: nat, k: nat)
    requires SortedLow(s, k)
    ensures SortedLow(Keep(s, e, d), k)
    ensures forall x :: x in Keep(s, e, d) ==> x in s && Digit(x, e) == d
  {
    hide Digit, Low, Keep;
    if s == [] {
      KeepSingle(0, e, d);
    } else {
      var n := |s| - 1;
      assert s == s[..n] + [s[n]];
      KeepFacts(s[..n], e, d, k);
      KeepOneMore(s[..n], s[n], e, d);
      forall x | x in Keep(s[..n], e, d) ensures Low(x, k) <= Low(s[n], k) {
        var i :| 0 <= i < n && s[..n][i] == x;
        assert Low(s[i], k) <= Low(s[n], k);
      }
    }
  }

  lemma {:induction false} GatherSorted(s: seq<nat>, k: nat, d: nat)
    requires SortedLow(s, k)
    ensures SortedLow(Gather(s, k, d), k + 1)
    ensures forall x :: x in Gather(s, k, d) ==> Digit(x, k) < d
  {
    hide Digit, Low, Keep;
    if d > 0 {
      GatherSorted(s, k, d - 1);
      KeepFacts(s, k, d - 1, k);
      var g, b := Gather(s, k, d - 1), Keep(s, k, d - 1);
      var t := g + b;
      forall i, j | 0 <= i < j < |t| ensures Low(t[i], k + 1) <= Low(t[j], k + 1) {
        if j < |g| {
          assert Low(g[i], k + 1) <= Low(g[j], k + 1);
        } else {
          assert t[j] == b[j - |g|] && t[j] in b;
          if i >= |g| {
            assert t[i] == b[i - |g|] && t[i] in b && Low(b[i - |g|], k) <= Low(b[j - |g|], k);
          } else {
            assert t[i] in g;
          }
          LowOrder(t[i], t[j], k);
        }
      }
    }
  }

  lemma PassSorts(s: seq<nat>, k: nat)
    requires SortedLow(s, k)
    ensures multiset(Pass(s, k)) == multiset(s) && |Pass(s, k)| == |s| && SortedLow(Pass(s, k), k + 1)
  {
    PassPermutes(s, k);
    GatherSorted(s, k, BASE);
    hide Gather, SortedLow;
  }

  /** After k passes the array is a permutation of the input ordered by its low 8k bits. */
  lemma {:induction false} PassesSorted(s: seq<nat>, k: nat)
    ensures multiset(Passes(s, k)) == multiset(s) && |Passes(s, k)| == |s|
    ensures SortedLow(Passes(s, k), k)
  {
    if k > 0 {
      PassesSorted(s, k - 1);
      PassSorts(Passes(s, k - 1), k - 1);
      hide Pass, SortedLow;
    } else {
      forall i | 0 <= i < |s| ensures Low(s[i], 0) == 0 { LowZero(s[i]); }
      hide Low;
    }
  }

  lemma LowZero(x: nat)
    ensures Low(x, 0) == 0
  {
    assert Pow(0) == 1;
  }

  /** Enough passes for the width of the elements sort them. */
  lemma EnoughPassesSort(s: seq<nat>, k: nat)
    requires forall x :: x in s ==> x < Pow(k)
    ensures Sorted(Passes(s, k)) && multiset(Passes(s, k)) == multiset(s)
  {
    PassesSorted(s, k);
    var t := Passes(s, k);
    hide Passes;
    forall i | 0 <= i < |t| ensures Low(t[i], k) == t[i] {
      assert t[i] in multiset(t);
      assert t[i] in multiset(s);
      assert t[i] in s;
      LowOfSmall(t[i], k);
    }
    hide Low;
  }

  lemma LowOfSmall(x: nat, k: nat)
    requires x < Pow(k)
    ensures Low(x, k) == x
  {
    DivModUnique(x, Pow(k), 0, x);
  }

  // ------------------------------------------------------------------- counting

  /** `fetch_add(&a[i], inc)`. */
  method FetchAdd(a: array<int>, i: nat, inc: int) returns (before: int)
    requires i < a.Length
    modifies a
    ensures before == old(a[i]) && a[..] == old(a[..])[i := before + inc]
  {
    a[i] := a[i] + inc;
    before := a[i] - inc;
  }

  /** The buckets hold the digit counts of the first `p` elements. */
  ghost predicate Counted(b: seq<int>, s: seq<nat>, p: int, e: nat) {
    |b| == BASE && 0 <= p <= |s| && forall d :: 0 <= d < BASE ==> b[d] == Count(s[..p], e, d)
  }

  lemma CountStep(b: seq<int>, s: seq<nat>, p: nat, e: nat)
    requires Counted(b, s, p, e) && p < |s|
    ensures var d := Digit(s[p], e);
            d < |b| && Counted(b[d := b[d] + 1], s, p + 1, e)
  {
    hide Digit, Keep;
    assert s[..p + 1] == s[..p] + [s[p]];
    forall d | 0 <= d < BASE
      ensures Count(s[..p + 1], e, d) == Count(s[..p], e, d) + if Digit(s[p], e) == d then 1 else 0
    {
      KeepOneMore(s[..p], s[p], e, d);
    }
  }

  lemma CountStart(b: seq<int>, s: seq<nat>, e: nat)
    requires |b| == BASE && forall d :: 0 <= d < BASE ==> b[d] == 0
    ensures Counted(b, s, 0, e)
  {
    assert s[..0] == [];
  }

  /** Zeroes the buckets and counts the digits, four elements at a time. */
  method CountDigits(arr: array<nat>, bucket: array<int>, e: nat)
    requires bucket.Length == BASE
    modifies bucket
    ensures Counted(bucket[..], arr[..], arr.Length, e)
  {
    ghost var s := arr[..];
    for b := 0 to BASE
      invariant forall d :: 0 <= d < b ==> bucket[d] == 0
    {
      bucket[b] := 0;
    }
    CountStart(bucket[..], s, e);
    hide Counted, Digit;
    var n, p := arr.Length, 0;
    while p < n - 3
      invariant 0 <= p <= n && Counted(bucket[..], s, p, e)
    {
      CountFour(arr, bucket, e, p);
      p := p + 4;
    }
    while p < n
      invariant p <= n && Counted(bucket[..], s, p, e)
    {
      CountStep(bucket[..], s, p, e);
      var d := Digit(arr[p], e);
      bucket[d] := bucket[d] + 1;
      p := p + 1;
    }
  }

  method CountFour(arr: array<nat>, bucket: array<int>, e: nat, p: nat)
    requires p + 3 < arr.Length && Counted(bucket[..], arr[..], p, e)
    modifies bucket
    ensures Counted(bucket[..], arr[..], p + 4, e)
  {
    hide Counted, Digit;
    ghost var s := arr[..];
    var a0, a1, a2, a3 := arr[p], arr[p + 1], arr[p + 2], arr[p + 3];
    CountStep(bucket[..], s, p, e);
    var c := FetchAdd(bucket, Digit(a0, e), 1);
    CountStep(bucket[..], s, p + 1, e);
    c := FetchAdd(bucket, Digit(a1, e), 1);
    CountStep(bucket[..], s, p + 2, e);
    c := FetchAdd(bucket, Digit(a2, e), 1);
    CountStep(bucket[..], s, p + 3, e);
    c := FetchAdd(bucket, Digit(a3, e), 1);
  }

  // --------------------------------------------------------------- prefix sums

  /** The first `k` buckets hold where the next bucket starts, the others still counts. */
  ghost predicate Summed(b: seq<int>, s: seq<nat>, k: int, e: nat) {
    |b| == BASE && 0 <= k <= BASE &&
    forall d :: 0 <= d < BASE ==> b[d] == if d < k then Start(s, e, d + 1) else Count(s, e, d)
  }

  lemma SumStep(b: seq<int>, s: seq<nat>, k: nat, e: nat, prev: int)
    requires Summed(b, s, k, e) && k < BASE && prev == Start(s, e, k)
    ensures Summed(b[k := b[k] + prev], s, k + 1, e) && prev + b[k] == Start(s, e, k + 1)
  {
    assert Start(s, e, k + 1) == Start(s, e, k) + Count(s, e, k);
    hide Gather, Keep;
  }

  lemma SumStart(b: seq<int>, s: seq<nat>, e: nat)
    requires Counted(b, s, |s|, e)
    ensures Summed(b, s, 1, e) && b[0] == Start(s, e, 1)
  {
    assert s[..|s|] == s;
    assert Start(s, e, 0) == 0 && Start(s, e, 1) == Start(s, e, 0) + Count(s, e, 0);
    hide Gather, Keep;
  }

  /** Turns the counts into the ends of the buckets, two buckets at a time. */
  method AddUp(bucket: array<int>, ghost s: seq<nat>, e: nat)
    requires bucket.Length == BASE && Counted(bucket[..], s, |s|, e)
    modifies bucket
    ensures Summed(bucket[..], s, BASE, e)
  {
    hide Summed, Counted, Gather, Keep;
    SumStart(bucket[..], s, e);
    var prev := bucket[0];
    SumStep(bucket[..], s, 1, e, prev);
    var c := FetchAdd(bucket, 1, prev);
    prev := prev + c;
    var b := 2;
    while b < BASE
      invariant 2 <= b <= BASE && b % 2 == 0
      invariant Summed(bucket[..], s, b, e) && prev == Start(s, e, b)
    {
      SumStep(bucket[..], s, b, e, prev);
      c := FetchAdd(bucket, b, prev);
      prev := prev + c;
      SumStep(bucket[..], s, b + 1, e, prev);
      c := FetchAdd(bucket, b + 1, prev);
      prev := prev + c;
      b := b + 2;
    }
  }

  // ------------------------------------------------------------------- scatter

  /** Bucket `d` has received its elements among those of `s` from `p` on, in order, at
      its end, and its pointer stands before them. */
  ghost predicate Filling(t: seq<nat>, at: int, s: seq<nat>, p: nat, e: nat, d: nat)
    requires p <= |s|
  {
    && at == Start(s, e, d) + Count(s[..p], e, d)
    && Start(s, e, d) <= at <= Start(s, e, d + 1) <= |t|
    && t[at..Start(s, e, d + 1)] == Keep(s[p..], e, d)
  }

  ghost predicate Scattered(t: seq<nat>, b: seq<int>, s: seq<nat>, p: nat, e: nat) {
    && |b| == BASE && p <= |s| && |t| == |s|
    && forall d :: 0 <= d < BASE ==> Filling(t, b[d], s, p, e, d)
  }

  lemma BucketEnd(s: seq<nat>, e: nat, d: nat)
    requires d < BASE
    ensures Start(s, e, d + 1) == Start(s, e, d) + Count(s, e, d) <= |s|
  {
    PassPermutes(s, e);
    StartMonotone(s, e, d + 1, BASE);
  }

  lemma ScatterStart(t: seq<nat>, b: seq<int>, s: seq<nat>, e: nat)
    requires Summed(b, s, BASE, e) && |t| == |s|
    ensures Scattered(t, b, s, |s|, e)
  {
    hide Gather, Keep;
    assert s[..|s|] == s && s[|s|..] == [];
    forall d | 0 <= d < BASE ensures Filling(t, b[d], s, |s|, e, d) {
      BucketEnd(s, e, d);
      KeepSingle(0, e, d);
      assert t[b[d]..Start(s, e, d + 1)] == [];
    }
  }

  /** What moving one element from the front part to the back part does to a bucket. */
  lemma BackByOne(s: seq<nat>, p: nat, e: nat, d: nat)
    requires 0 < p <= |s|
    ensures var mine := Digit(s[p - 1], e) == d;
            && Count(s[..p], e, d) == Count(s[..p - 1], e, d) + (if mine then 1 else 0)
            && Keep(s[p - 1..], e, d) == if mine then [s[p - 1]] + Keep(s[p..], e, d) else Keep(s[p..], e, d)
  {
    var x := s[p - 1];
    hide Keep, Digit;
    assert s[..p] == s[..p - 1] + [x] && s[p - 1..] == [x] + s[p..];
    KeepOneMore(s[..p - 1], x, e, d);
    KeepAppend([x], s[p..], e, d);
    KeepSingle(x, e, d);
    AddEmpty(Keep(s[p..], e, d));
  }

  /** Putting away the element before `p`, seen from its own bucket. */
  lemma OwnBucket(t: seq<nat>, at: int, s: seq<nat>, p: nat, e: nat)
    requires 0 < p <= |s| && Filling(t, at, s, p, e, Digit(s[p - 1], e))
    ensures var d := Digit(s[p - 1], e);
            Start(s, e, d) < at && Filling(t[at - 1 := s[p - 1]], at - 1, s, p - 1, e, d)
  {
    hide Start, Count, Keep, Digit;
    BackByOne(s, p, e, Digit(s[p - 1], e));
    assert Count(s[..p - 1], e, Digit(s[p - 1], e)) >= 0;
    SliceOwn(t, s[p - 1], at - 1, Start(s, e, Digit(s[p - 1], e) + 1));
  }

  lemma SliceOwn(t: seq<nat>, x: nat, i: nat, end: nat)
    requires i < end <= |t|
    ensures t[i := x][i..end] == [x] + t[i + 1..end]
  {
  }

  lemma SliceOther(t: seq<nat>, x: nat, i: nat, lo: nat, hi: nat)
    requires lo <= hi <= |t| && i < |t| && !(lo <= i < hi)
    ensures t[i := x][lo..hi] == t[lo..hi]
  {
  }

  /** ... and from any other bucket. */
  lemma OtherBucket(t: seq<nat>, at: int, s: seq<nat>, p: nat, e: nat, d: nat, i: nat)
    requires 0 < p <= |s| && Digit(s[p - 1], e) != d && Filling(t, at, s, p, e, d)
    requires i < |t| && !(Start(s, e, d) <= i < Start(s, e, d + 1))
    ensures Filling(t[i := s[p - 1]], at, s, p - 1, e, d)
  {
    hide Start, Count, Keep, Digit;
    BackByOne(s, p, e, d);
    SliceOther(t, s[p - 1], i, at, Start(s, e, d + 1));
  }

  /** A position of one bucket is in no other bucket. */
  lemma BucketsApart(s: seq<nat>, e: nat, c: nat, d: nat, i: nat)
    requires c != d && Start(s, e, c) <= i < Start(s, e, c + 1)
    ensures !(Start(s, e, d) <= i < Start(s, e, d + 1))
  {
    hide Start;
    if c < d {
      StartMonotone(s, e, c + 1, d);
    } else {
      StartMonotone(s, e, d + 1, c);
    }
  }

  lemma ScatterStep(t: seq<nat>, b: seq<int>, s: seq<nat>, p: nat, e: nat)
    requires Scattered(t, b, s, p, e) && 0 < p
    ensures var c := Digit(s[p - 1], e);
            && c < |b| && 0 < b[c] <= |t|
            && Scattered(t[b[c] - 1 := s[p - 1]], b[c := b[c] - 1], s, p - 1, e)
  {
    var c := Digit(s[p - 1], e);
    assert Filling(t, b[c], s, p, e, c);
    OwnBucket(t, b[c], s, p, e);
    var i := b[c] - 1;
    assert Start(s, e, c) <= i < Start(s, e, c + 1) <= |t|;
    hide Filling, Gather, Keep, Digit;
    var t', b' := t[i := s[p - 1]], b[c := i];
    forall d | 0 <= d < BASE ensures Filling(t', b'[d], s, p - 1, e, d) {
      if d != c {
        BucketsApart(s, e, c, d, i);
        OtherBucket(t, b[d], s, p, e, d, i);
      }
    }
  }

  /** With everything put away, the buckets side by side are the result of the pass. */
  lemma ScatterEnd(t: seq<nat>, b: seq<int>, s: seq<nat>, e: nat)
    requires Scattered(t, b, s, 0, e)
    ensures t == Pass(s, e)
  {
    hide Filling, Gather, Digit;
    BucketsMakePass(t, b, s, e, BASE);
    PassPermutes(s, e);
    assert t[..|t|] == t;
  }

  lemma {:induction false} BucketsMakePass(t: seq<nat>, b: seq<int>, s: seq<nat>, e: nat, k: nat)
    requires Scattered(t, b, s, 0, e) && k <= BASE
    ensures Start(s, e, k) <= |t| && t[..Start(s, e, k)] == Gather(s, e, k)
  {
    hide Keep, Digit;
    if k > 0 {
      BucketsMakePass(t, b, s, e, k - 1);
      var d := k - 1;
      assert Filling(t, b[d], s, 0, e, d);
      assert s[..0] == [] && s[0..] == s;
      KeepSingle(0, e, d);
      var lo, hi := Start(s, e, d), Start(s, e, k);
      assert t[..hi] == t[..lo] + t[lo..hi];
    }
  }

  method ScatterFour(arr: array<nat>, scratch: array<nat>, bucket: array<int>, e: nat, p: nat)
    requires arr != scratch && 3 <= p < arr.Length
    requires Scattered(scratch[..], bucket[..], arr[..], p + 1, e)
    modifies scratch, bucket
    ensures Scattered(scratch[..], bucket[..], arr[..], p - 3, e)
  {
    hide Scattered, Digit;
    ghost var s, t, b := arr[..], scratch[..], bucket[..];
    var a0, a1, a2, a3 := arr[p], arr[p - 1], arr[p - 2], arr[p - 3];
    ghost var t1, b1 := Put(t, b, s, p + 1, e);
    ghost var t2, b2 := Put(t1, b1, s, p, e);
    ghost var t3, b3 := Put(t2, b2, s, p - 1, e);
    ghost var t4, b4 := Put(t3, b3, s, p - 2, e);
    var s0 := FetchAdd(bucket, Digit(a0, e), -1);
    var s1 := FetchAdd(bucket, Digit(a1, e), -1);
    var s2 := FetchAdd(bucket, Digit(a2, e), -1);
    var s3 := FetchAdd(bucket, Digit(a3, e), -1);
    assert bucket[..] == b4;
    scratch[s0 - 1] := a0;
    scratch[s1 - 1] := a1;
    scratch[s2 - 1] := a2;
    scratch[s3 - 1] := a3;
    assert scratch[..] == t4;
  }

  /** The next state of scratch buffer and buckets, as values. */
  lemma Put(t: seq<nat>, b: seq<int>, s: seq<nat>, p: nat, e: nat) returns (t': seq<nat>, b': seq<int>)
    requires Scattered(t, b, s, p, e) && 0 < p
    ensures p <= |s|
    ensures var c := Digit(s[p - 1], e);
            && c < |b| && 0 < b[c] <= |t|
            && t' == t[b[c] - 1 := s[p - 1]] && b' == b[c := b[c] - 1]
    ensures Scattered(t', b', s, p - 1, e)
  {
    ScatterStep(t, b, s, p, e);
    var c := Digit(s[p - 1], e);
    t', b' := t[b[c] - 1 := s[p - 1]], b[c := b[c] - 1];
  }

  /** Moves the elements from the last to the first into their buckets, four at a time. */
  method Scatter(arr: array<nat>, scratch: array<nat>, bucket: array<int>, e: nat)
    requires arr != scratch && scratch.Length == arr.Length
    requires bucket.Length == BASE && Summed(bucket[..], arr[..], BASE, e)
    modifies scratch, bucket
    ensures scratch[..] == Pass(arr[..], e)
  {
    hide Scattered, Summed, Digit, Pass;
    ghost var s := arr[..];
    ScatterStart(scratch[..], bucket[..], s, e);
    var p := arr.Length - 1;
    while p >= 3
      invariant -1 <= p < arr.Length && arr[..] == s
      invariant Scattered(scratch[..], bucket[..], s, p + 1, e)
    {
      ScatterFour(arr, scratch, bucket, e, p);
      p := p - 4;
    }
    while p >= 0
      invariant -1 <= p < arr.Length && arr[..] == s
      invariant Scattered(scratch[..], bucket[..], s, p + 1, e)
    {
      ScatterStep(scratch[..], bucket[..], s, p + 1, e);
      var d := Digit(arr[p], e);
      bucket[d] := bucket[d] - 1;
      scratch[bucket[d]] := arr[p];
      p := p - 1;
    }
    ScatterEnd(scratch[..], bucket[..], s, e);
  }

  // ------------------------------------------------------------------ the sort

  /** The sort of elements `bytes` bytes wide.  The last copy goes from the buffer that
      is not the result to the one that is, so an odd number of passes loses the last. */
  method Sort(arrIn: array<nat>, scratchIn: array<nat>, bytes: nat)
    requires arrIn != scratchIn && arrIn.Length == scratchIn.Length
    modifies arrIn, scratchIn
    ensures arrIn[..] == Passes(old(arrIn[..]), bytes / 2 * 2)
  {
    hide Pass, Counted, Summed;
    ghost var s := arrIn[..];
    var bucket := new int[BASE];
    var arr, scratch := arrIn, scratchIn;
    var e := 0;
    while e < bytes
      invariant e <= bytes && (arr, scratch) == if e % 2 == 0 then (arrIn, scratchIn) else (scratchIn, arrIn)
      invariant arr[..] == Passes(s, e) && (e > 0 ==> scratch[..] == Passes(s, e - 1))
      invariant bucket.Length == BASE
    {
      CountDigits(arr, bucket, e);
      AddUp(bucket, arr[..], e);
      Scatter(arr, scratch, bucket, e);
      arr, scratch := scratch, arr;
      e := e + 1;
    }
    if arr != arrIn {
      for i := 0 to arr.Length
        invariant arr[..] == scratch[..i] + arr[i..]
        invariant scratch[..] == Passes(s, bytes - 1)
      {
        arr[i] := scratch[i];
      }
    }
  }

  /** The 32-bit elements of the source take four passes, after which the input array
      holds the sorted permutation and the final copy is skipped. */
  lemma SortsWords(s: seq<nat>)
    requires forall x :: x in s ==> x < 0x1_0000_0000
    ensures Sorted(Passes(s, 4 / 2 * 2)) && multiset(Passes(s, 4 / 2 * 2)) == multiset(s)
  {
    assert Pow(4) == 0x1_0000_0000;
    EnoughPassesSort(s, 4);
  }

  // --------------------------------------------------- how wide elements may be

  ghost predicate FitIn(s: seq<nat>, bytes: nat) { forall x :: x in s ==> x < Pow(bytes) }

  /** The sort works for every array of elements of this width. */
  ghost predicate SortsAll(bytes: nat) {
    forall s: seq<nat> :: FitIn(s, bytes) ==> Sorted(Passes(s, bytes / 2 * 2))
  }

  /** The sort is right for all arrays exactly if the elements have an even number of
      bytes; otherwise the last copy throws the most significant pass away. */
  lemma EvenWidthsOnly(bytes: nat)
    ensures SortsAll(bytes) <==> bytes % 2 == 0
  {
    if bytes % 2 == 0 {
      forall s: seq<nat> | FitIn(s, bytes) ensures Sorted(Passes(s, bytes / 2 * 2)) {
        EnoughPassesSort(s, bytes);
      }
    } else {
      var k := bytes - 1;
      var s := [Pow(k), 0];
      PowPositive(k);
      assert Pow(bytes) == BASE * Pow(k);
      assert FitIn(s, bytes);
      TopByteUntouched(s, k, k);
      assert bytes / 2 * 2 == k;
      assert !Sorted(Passes(s, k)) by { assert Passes(s, k)[0] > Passes(s, k)[1]; }
    }
  }

  lemma {:induction false} TopByteUntouched(s: seq<nat>, n: nat, k: nat)
    requires s == [Pow(n), 0] && k <= n
    ensures Passes(s, k) == s
  {
    hide Digit, Pow, Gather;
    if k > 0 {
      TopByteUntouched(s, n, k - 1);
      LowDigitsZero(n, k - 1);
      DigitOfZero(k - 1);
      ZerosStay(s, k - 1, BASE);
    }
  }

  lemma DigitOfZero(e: nat)
    ensures Digit(0, e) == 0
  {
    PowPositive(e);
    DivModUnique(0, Pow(e), 0, 0);
  }

  lemma {:induction false} PowSplit(n: nat, e: nat)
    requires e <= n
    ensures Pow(n) == Pow(n - e) * Pow(e)
  {
    if e < n {
      PowSplit(n - 1, e);
      assert Pow(n) == BASE * (Pow(n - 1 - e) * Pow(e)) == (BASE * Pow(n - 1 - e)) * Pow(e);
    }
  }

  lemma LowDigitsZero(n: nat, e: nat)
    requires e < n
    ensures Digit(Pow(n), e) == 0
  {
    PowSplit(n, e);
    PowPositive(e);
    DivModUnique(Pow(n), Pow(e), Pow(n - e), 0);
    DivModUnique(Pow(n - e), BASE, Pow(n - e - 1), 0);
  }

  lemma {:induction false} ZerosStay(s: seq<nat>, e: nat, d: nat)
    requires |s| == 2 && Digit(s[0], e) == 0 && Digit(s[1], e) == 0
    ensures Gather(s, e, d) == if d == 0 then [] else s
  {
    hide Digit, Keep;
    if d > 0 {
      ZerosStay(s, e, d - 1);
      KeepTwo(s, e, d - 1);
      AddEmpty(s);
    }
  }

  lemma KeepTwo(s: seq<nat>, e: nat, d: nat)
    requires |s| == 2 && Digit(s[0], e) == 0 && Digit(s[1], e) == 0
    ensures Keep(s, e, d) == if d == 0 then s else []
  {
    hide Digit;
    KeepSingle(s[0], e, d);
    KeepOneMore([s[0]], s[1], e, d);
    assert s == [s[0]] + [s[1]];
  }
}
