/** `benchmarks/qsort/qsort_main.c`: quicksort with an explicit stack.

    Pointers into `arr` are indices; as in the source, the subarray with pointers
    `l` and `ir` consists of the positions l-1 .. ir-1. */
module QuickSort {
  import opened Arith

  const INSERTION_THRESHOLD: nat := 10
  const NSTACK: nat := 50

  // ------------------------------------------------------------ specification

  ghost predicate Sorted(s: seq<int>, lo: int, hi: int)
    requires 0 <= lo && hi <= |s|
  {
    forall p, q :: lo <= p < q < hi ==> s[p] <= s[q]
  }

  /** Nothing before position `c` is greater than anything from it on. */
  ghost predicate Cut(s: seq<int>, c: int) {
    forall p, q :: 0 <= p < c <= q < |s| ==> s[p] <= s[q]
  }

  /** `s'` differs from `s` at most by the order of the elements at lo .. hi-1. */
  ghost predicate Rearranged(s: seq<int>, s': seq<int>, lo: int, hi: int)
    requires 0 <= lo <= hi <= |s|
  {
    && |s'| == |s| && s'[..lo] == s[..lo] && s'[hi..] == s[hi..]
    && multiset(s'[lo..hi]) == multiset(s[lo..hi])
  }

  lemma RearrangedTrans(s: seq<int>, s': seq<int>, s'': seq<int>, lo: int, hi: int)
    requires 0 <= lo <= hi <= |s| && Rearranged(s, s', lo, hi) && Rearranged(s', s'', lo, hi)
    ensures Rearranged(s, s'', lo, hi)
  {
  }

  /** The middle piece between the two unchanged ones. */
  lemma RearrangedMultiset(s: seq<int>, s': seq<int>, lo: int, hi: int)
    requires 0 <= lo <= hi <= |s| && Rearranged(s, s', lo, hi)
    ensures multiset(s') == multiset(s) && |s'| == |s|
  {
    assert s == s[..lo] + s[lo..hi] + s[hi..];
    assert s' == s'[..lo] + s'[lo..hi] + s'[hi..];
  }

  /** Exchanging two positions of a range rearranges it. */
  lemma SwapRearranges(s: seq<int>, i: int, j: int, lo: int, hi: int)
    requires 0 <= lo <= i < hi <= |s| && lo <= j < hi
    ensures Rearranged(s, s[i := s[j]][j := s[i]], lo, hi)
  {
    var t := s[lo..hi];
    var s' := s[i := s[j]][j := s[i]];
    assert s'[lo..hi] == t[i - lo := t[j - lo]][j - lo := t[i - lo]];
  }

  /** Every element of the rearranged range was in the range before. */
  lemma FromRange(s: seq<int>, s': seq<int>, lo: int, hi: int, q: int) returns (q0: int)
    requires 0 <= lo <= q < hi <= |s| && Rearranged(s, s', lo, hi)
    ensures lo <= q0 < hi && s[q0] == s'[q]
  {
    assert s'[q] == s'[lo..hi][q - lo];
    assert s'[q] in multiset(s[lo..hi]);
    var x :| 0 <= x < hi - lo && s[lo..hi][x] == s'[q];
    q0 := lo + x;
  }

  /** A cut that is not strictly inside the rearranged range stays a cut. */
  lemma CutStays(s: seq<int>, s': seq<int>, lo: int, hi: int, c: int)
    requires 0 <= lo <= hi <= |s| && Rearranged(s, s', lo, hi)
    requires Cut(s, c) && (c <= lo || hi <= c)
    ensures Cut(s', c)
  {
    forall p, q | 0 <= p < c <= q < |s'| ensures s'[p] <= s'[q] {
      var p0, q0 := p, q;
      if lo <= p < hi { p0 := FromRange(s, s', lo, hi, p); } else { SameOutside(s, s', lo, hi, p); }
      if lo <= q < hi { q0 := FromRange(s, s', lo, hi, q); } else { SameOutside(s, s', lo, hi, q); }
      assert s[p0] <= s[q0];
    }
  }

  lemma SameOutside(s: seq<int>, s': seq<int>, lo: int, hi: int, p: int)
    requires 0 <= lo <= hi <= |s| && Rearranged(s, s', lo, hi)
    requires 0 <= p < |s| && !(lo <= p < hi)
    ensures s'[p] == s[p]
  {
    if p < lo {
      assert s'[..lo][p] == s[..lo][p];
    } else {
      assert s'[hi..][p - hi] == s[hi..][p - hi];
    }
  }

  // ---------------------------------------------------------------- the pieces

  method Swap(a: array<int>, i: int, j: int)
    requires 0 <= i < a.Length && 0 <= j < a.Length
    modifies a
    ensures a[..] == old(a[..][i := a[j]][j := a[i]])
  {
    a[i], a[j] := a[j], a[i];
  }

  /** SWAP_IF_GREATER(arr[i], arr[j]), within the range lo .. hi-1. */
  method SwapIfGreater(a: array<int>, i: int, j: int, ghost lo: int, ghost hi: int)
    requires 0 <= lo <= i < hi <= a.Length && lo <= j < hi && i != j
    modifies a
    ensures Rearranged(old(a[..]), a[..], lo, hi)
    ensures a[i] <= a[j]
    ensures if old(a[i]) > old(a[j]) then a[i] == old(a[j]) && a[j] == old(a[i])
            else a[i] == old(a[i]) && a[j] == old(a[j])
    ensures forall k :: 0 <= k < a.Length && k != i && k != j ==> a[k] == old(a[k])
  {
    if a[i] > a[j] {
      SwapRearranges(a[..], i, j, lo, hi);
      Swap(a, i, j);
    }
  }

  /** Insertion sort of the `n` elements from position `base` on. */
  method InsertionSort(a: array<int>, n: nat, base: nat)
    requires base + n <= a.Length
    modifies a
    ensures Rearranged(old(a[..]), a[..], base, base + n)
    ensures Sorted(a[..], base, base + n)
  {
    var i := base + 1;
    while i < base + n
      invariant base < i && (n > 0 ==> i <= base + n)
      invariant Rearranged(old(a[..]), a[..], base, base + n)
      invariant n > 0 ==> Sorted(a[..], base, i)
    {
      Insert(a, base, i, base + n);
      i := i + 1;
    }
  }

  /** Where the element at `k` comes from when element `i` moves to position `j`. */
  function From(k: int, j: int, i: int): int {
    if k == j then i else if j < k <= i then k - 1 else k
  }

  /** `s` with its element `i` moved to position `j`. */
  function Inserted(s: seq<int>, j: nat, i: nat): seq<int>
    requires j <= i < |s|
  {
    seq(|s|, k requires 0 <= k < |s| => s[From(k, j, i)])
  }

  lemma IsInserted(s: seq<int>, j: nat, i: nat, t: seq<int>)
    requires j <= i < |s| == |t|
    requires forall k :: 0 <= k < |s| ==> t[k] == s[From(k, j, i)]
    ensures t == Inserted(s, j, i)
  {
  }

  lemma InsertedRearranges(s: seq<int>, j: nat, i: nat, lo: nat, hi: nat)
    requires lo <= j <= i < hi <= |s|
    ensures Rearranged(s, Inserted(s, j, i), lo, hi)
  {
    var t := Inserted(s, j, i);
    assert t[lo..hi] == s[lo..j] + [s[i]] + s[j..i] + s[i + 1..hi];
    assert s[lo..hi] == s[lo..j] + s[j..i] + [s[i]] + s[i + 1..hi];
  }

  lemma InsertedSorted(s: seq<int>, j: nat, i: nat, lo: nat)
    requires lo <= j <= i < |s| && Sorted(s, lo, i)
    requires forall q :: j <= q < i ==> s[i] < s[q]
    requires j > lo ==> s[j - 1] <= s[i]
    ensures Sorted(Inserted(s, j, i), lo, i + 1)
  {
    var t := Inserted(s, j, i);
    forall p, q | lo <= p < q < i + 1 ensures t[p] <= t[q] {
      var p0 := if p < j then p else if p == j then i else p - 1;
      var q0 := if q < j then q else if q == j then i else q - 1;
      assert t[p] == s[p0] && t[q] == s[q0];
    }
  }

  /** One round of insertion sort: element `i` moves into the sorted part before it. */
  method Insert(a: array<int>, base: nat, i: nat, ghost hi: nat)
    requires base < i < hi <= a.Length && Sorted(a[..], base, i)
    modifies a
    ensures Rearranged(old(a[..]), a[..], base, hi)
    ensures Sorted(a[..], base, i + 1)
  {
    hide Rearranged, Sorted;
    ghost var s := a[..];
    var value := a[i];
    var j := i;
    while value < a[j - 1]
      invariant base < j <= i
      invariant forall k :: 0 <= k < a.Length ==> a[k] == s[if j < k <= i then k - 1 else k]
      invariant forall q :: j <= q < i ==> value < s[q]
      decreases j
    {
      a[j] := a[j - 1];
      j := j - 1;
      if j == base {
        break;
      }
    }
    a[j] := value;
    Placed(s, j, i, a[..], base, hi);
  }

  lemma Placed(s: seq<int>, j: nat, i: nat, t: seq<int>, base: nat, hi: nat)
    requires base <= j <= i < hi <= |s| == |t| && Sorted(s, base, i)
    requires forall k :: 0 <= k < |s| ==> t[k] == s[From(k, j, i)]
    requires forall q :: j <= q < i ==> s[i] < s[q]
    requires j > base ==> s[j - 1] <= s[i]
    ensures Rearranged(s, t, base, hi) && Sorted(t, base, i + 1)
  {
    hide Inserted, Rearranged, Sorted;
    IsInserted(s, j, i, t);
    InsertedRearranges(s, j, i, base, hi);
    InsertedSorted(s, j, i, base);
  }

  // ----------------------------------------------------------------- partition

  /** `j-1` and `i-1` split lo .. hi-1 into smaller, equal and greater elements. */
  ghost predicate Split(s: seq<int>, lo: int, hi: int, i: int, j: int) {
    && 0 <= lo < j - 1 < i - 1 < hi <= |s|
    && (forall k :: lo <= k < j - 1 ==> s[k] <= s[j - 1])
    && (forall k :: j - 1 <= k < i - 1 ==> s[k] == s[j - 1])
    && (forall k :: i - 1 <= k < hi ==> s[k] >= s[j - 1])
  }

  /** The median of three goes to position `l`, between sentinels at both ends. */
  method MedianOfThree(a: array<int>, l: int, ir: int)
    requires 1 <= l && l + INSERTION_THRESHOLD <= ir <= a.Length
    modifies a
    ensures Rearranged(old(a[..]), a[..], l - 1, ir)
    ensures a[l - 1] <= a[l] <= a[ir - 1]
  {
    ghost var s0 := a[..];
    var mid := (l + ir) / 2 - 1;
    SwapRearranges(a[..], mid, l, l - 1, ir);
    Swap(a, mid, l);
    ghost var s1 := a[..];
    SwapIfGreater(a, l - 1, ir - 1, l - 1, ir);
    ghost var s2 := a[..];
    SwapIfGreater(a, l, ir - 1, l - 1, ir);
    ghost var s3 := a[..];
    SwapIfGreater(a, l - 1, l, l - 1, ir);
    RearrangedTrans(s0, s1, s2, l - 1, ir);
    RearrangedTrans(s0, s2, s3, l - 1, ir);
    RearrangedTrans(s0, s3, a[..], l - 1, ir);
  }

  /** Between outer rounds: what has been scanned from the left is at most the pivot,
      what has been scanned from the right at least, and both ends are guarded. */
  ghost predicate Scanned(s: seq<int>, l: int, ir: int, i: int, j: int, pivot: int) {
    && 1 <= l < i < ir <= |s| && l + 2 <= j <= ir && i <= j
    && s[l] == pivot
    && (forall k :: l - 1 <= k < i ==> s[k] <= pivot)
    && (forall k :: j - 1 <= k < ir ==> s[k] >= pivot)
  }

  ghost predicate UpStop(s: seq<int>, i0: int, j0: int, i: int, pivot: int) {
    && 0 <= i0 < i <= |s| && (i <= j0 || i == i0 + 1) && s[i - 1] >= pivot
    && forall k :: i0 <= k < i - 1 ==> s[k] < pivot
  }

  ghost predicate DownStop(s: seq<int>, l: int, i0: int, j0: int, j: int, pivot: int) {
    && 0 <= l < j < j0 <= |s| && (i0 <= j || j == j0 - 1) && s[j - 1] <= pivot
    && forall k :: j <= k < j0 - 1 ==> s[k] > pivot
  }

  /** The scan upwards; it needs no bound, since the elements from j-1 on stop it. */
  method ScanUp(a: array<int>, ghost l: int, ghost ir: int, i0: int, ghost j: int, pivot: int)
    returns (i: int)
    requires Scanned(a[..], l, ir, i0, j, pivot)
    ensures UpStop(a[..], i0, j, i, pivot)
  {
    i := i0;
    while true
      invariant i0 <= i && (i < j || i == i0)
      invariant forall k :: i0 <= k < i ==> a[k] < pivot
      decreases ir - i
    {
      assert a[..][ir - 1] >= pivot && a[..][j - 1] >= pivot;
      i := i + 1;
      if !(a[i - 1] < pivot) { return; }
    }
  }

  /** The scan downwards, stopped at the latest by the elements up to i0-1. */
  method ScanDown(a: array<int>, ghost l: int, ghost ir: int, ghost i0: int, j0: int, pivot: int)
    returns (j: int)
    requires Scanned(a[..], l, ir, i0, j0, pivot)
    ensures DownStop(a[..], l, i0, j0, j, pivot)
  {
    j := j0;
    while true
      invariant l < j <= j0 && (i0 < j || j == j0)
      invariant forall k :: j - 1 <= k < j0 - 1 ==> a[k] > pivot
      decreases j
    {
      assert a[..][i0 - 1] <= pivot;
      j := j - 1;
      if !(a[j - 1] > pivot) { return; }
    }
  }

  /** The two scans of a round: where they met, the range is split but for the pivot itself. */
  ghost predicate Crossed(s: seq<int>, l: int, ir: int, i: int, j: int, pivot: int) {
    && 1 <= l < j < i <= ir <= |s| && s[l] == pivot && s[j - 1] <= pivot
    && (forall k :: l - 1 <= k < i - 1 ==> s[k] <= pivot)
    && (forall k :: j <= k < ir ==> s[k] >= pivot)
  }

  lemma SwapSplits(s: seq<int>, l: int, ir: int, i: int, j: int, pivot: int)
    requires Crossed(s, l, ir, i, j, pivot)
    ensures Split(s[l := s[j - 1]][j - 1 := pivot], l - 1, ir, i, j)
    ensures Rearranged(s, s[l := s[j - 1]][j - 1 := pivot], l - 1, ir)
  {
    SwapRearranges(s, l, j - 1, l - 1, ir);
  }

  /** Where the two scans of a round have stopped. */
  ghost predicate Stopped(s: seq<int>, l: int, i0: int, j0: int, i: int, j: int, pivot: int) {
    UpStop(s, i0, j0, i, pivot) && DownStop(s, l, i0, j0, j, pivot)
  }

  lemma StoppedCrossed(s: seq<int>, l: int, ir: int, i0: int, j0: int, i: int, j: int, pivot: int)
    requires Scanned(s, l, ir, i0, j0, pivot) && Stopped(s, l, i0, j0, i, j, pivot) && j < i
    ensures Crossed(s, l, ir, i, j, pivot)
  {
  }

  lemma StoppedSwapped(s: seq<int>, l: int, ir: int, i0: int, j0: int, i: int, j: int, pivot: int)
    requires Scanned(s, l, ir, i0, j0, pivot) && Stopped(s, l, i0, j0, i, j, pivot) && i <= j
    ensures 0 < i <= j < j0 <= |s|
    ensures var t := s[i - 1 := s[j - 1]][j - 1 := s[i - 1]];
            Scanned(t, l, ir, i, j, pivot) && Rearranged(s, t, l - 1, ir)
  {
    SwapRearranges(s, i - 1, j - 1, l - 1, ir);
    hide Rearranged;
    var t := s[i - 1 := s[j - 1]][j - 1 := s[i - 1]];
    forall k | l - 1 <= k < i ensures t[k] <= pivot {
      if k < i - 1 { assert s[k] <= pivot; }
    }
    forall k | j - 1 <= k < ir ensures t[k] >= pivot {
      if k >= j { assert s[k] >= pivot; }
    }
  }

  lemma SameRearranged(s: seq<int>, l: int, ir: int, i0: int, j0: int, pivot: int)
    requires Scanned(s, l, ir, i0, j0, pivot)
    ensures 0 <= l - 1 <= ir <= |s| && Rearranged(s, s, l - 1, ir)
  {
  }

  /** One round of the partitioning loop: both scans, and an exchange unless they crossed. */
  method Round(a: array<int>, ghost l: int, ghost ir: int, i0: int, j0: int, pivot: int)
    returns (i: int, j: int)
    requires Scanned(a[..], l, ir, i0, j0, pivot)
    modifies a
    ensures Rearranged(old(a[..]), a[..], l - 1, ir)
    ensures if j < i then Crossed(a[..], l, ir, i, j, pivot)
            else j < j0 && Scanned(a[..], l, ir, i, j, pivot)
  {
    hide Scanned, Crossed, UpStop, DownStop, Rearranged;
    ghost var s := a[..];
    i := ScanUp(a, l, ir, i0, j0, pivot);
    j := ScanDown(a, l, ir, i0, j0, pivot);
    if j < i {
      SameRearranged(s, l, ir, i0, j0, pivot);
      StoppedCrossed(s, l, ir, i0, j0, i, j, pivot);
    } else {
      StoppedSwapped(s, l, ir, i0, j0, i, j, pivot);
      Swap(a, i - 1, j - 1);
    }
  }

  /** Partitions the subarray of `l` and `ir`. */
  method Partition(a: array<int>, l: int, ir: int) returns (i: int, j: int)
    requires 1 <= l && l + INSERTION_THRESHOLD <= ir <= a.Length
    modifies a
    ensures Rearranged(old(a[..]), a[..], l - 1, ir)
    ensures Split(a[..], l - 1, ir, i, j)
  {
    ghost var s0 := a[..];
    MedianOfThree(a, l, ir);
    i := l + 1;
    j := ir;
    var pivot := a[l];
    assert Scanned(a[..], l, ir, i, j, pivot);
    hide Scanned, Crossed, Split;
    while true
      invariant Rearranged(s0, a[..], l - 1, ir)
      invariant Scanned(a[..], l, ir, i, j, pivot)
      decreases j
    {
      ghost var s := a[..];
      i, j := Round(a, l, ir, i, j, pivot);
      RearrangedTrans(s0, s, a[..], l - 1, ir);
      if j < i { break; }
    }
    PlacePivot(a, l, ir, i, j, pivot, s0);
  }

  method PlacePivot(a: array<int>, l: int, ghost ir: int, ghost i: int, j: int, pivot: int, ghost s0: seq<int>)
    requires Crossed(a[..], l, ir, i, j, pivot)
    requires |s0| == a.Length && Rearranged(s0, a[..], l - 1, ir)
    modifies a
    ensures Rearranged(s0, a[..], l - 1, ir)
    ensures Split(a[..], l - 1, ir, i, j)
  {
    SwapSplits(a[..], l, ir, i, j, pivot);
    RearrangedTrans(s0, a[..], a[..][l := a[j - 1]][j - 1 := pivot], l - 1, ir);
    a[l] := a[j - 1];
    a[j - 1] := pivot;
  }

  // ---------------------------------------------------------------- the driver

  /** A subarray still to be sorted, by the source's two pointers. */
  datatype Sub = Sub(l: int, ir: int) {
    function Size(): int { ir - l + 1 }
    predicate Inside(c: int) { l - 1 < c < ir }
    predicate Apart(o: Sub) { ir <= o.l - 1 || o.ir <= l - 1 }
  }

  ghost predicate Covered(subs: seq<Sub>, c: int) {
    exists x :: 0 <= x < |subs| && subs[x].Inside(c)
  }

  ghost predicate SubOk(s: seq<int>, b: Sub) {
    1 <= b.l && b.l - 1 <= b.ir <= |s| && Cut(s, b.l - 1) && Cut(s, b.ir)
  }

  /** Every position is a cut unless it is strictly inside one of the subarrays, which
      lie apart and have cuts at both ends.  The last one is being worked on, the
      others are on the stack. */
  ghost predicate Inv(s: seq<int>, subs: seq<Sub>) {
    && (forall x :: 0 <= x < |subs| ==> SubOk(s, subs[x]))
    && (forall x, y :: 0 <= x < y < |subs| ==> subs[x].Apart(subs[y]))
    && (forall c :: 0 <= c <= |s| ==> Cut(s, c) || Covered(subs, c))
  }

  lemma Start(s: seq<int>)
    ensures Inv(s, [Sub(1, |s|)])
  {
    var subs := [Sub(1, |s|)];
    forall c | 0 <= c <= |s| ensures Cut(s, c) || Covered(subs, c) {
      if 0 < c < |s| { assert subs[0].Inside(c); }
    }
  }

  /** With nothing left to do, the sequence is sorted. */
  lemma Finished(s: seq<int>)
    requires Inv(s, [])
    ensures Sorted(s, 0, |s|)
  {
    forall p, q | 0 <= p < q < |s| ensures s[p] <= s[q] {
      assert Cut(s, q) || Covered([], q);
    }
  }

  /** Whatever happens inside the last subarray, the others and the cuts outside stay. */
  lemma OthersStay(s: seq<int>, s': seq<int>, subs: seq<Sub>)
    requires subs != [] && Inv(s, subs)
    requires var b := subs[|subs| - 1];
             0 <= b.l - 1 <= b.ir <= |s| && Rearranged(s, s', b.l - 1, b.ir)
    ensures forall x :: 0 <= x < |subs| ==> SubOk(s', subs[x])
    ensures forall c :: 0 <= c <= |s| && !subs[|subs| - 1].Inside(c) ==>
              Cut(s', c) || Covered(subs[..|subs| - 1], c)
  {
    hide Cut, Rearranged;
    var b := subs[|subs| - 1];
    SameSize(s, s', b.l - 1, b.ir);
    forall x | 0 <= x < |subs| ensures SubOk(s', subs[x]) {
      assert SubOk(s, subs[x]);
      CutStays(s, s', b.l - 1, b.ir, subs[x].l - 1);
      CutStays(s, s', b.l - 1, b.ir, subs[x].ir);
    }
    forall c | 0 <= c <= |s| && !b.Inside(c)
      ensures Cut(s', c) || Covered(subs[..|subs| - 1], c)
    {
      if Covered(subs, c) {
        var x :| 0 <= x < |subs| && subs[x].Inside(c);
        assert subs[..|subs| - 1][x] == subs[x];
      } else {
        CutStays(s, s', b.l - 1, b.ir, c);
      }
    }
  }

  lemma SameSize(s: seq<int>, s': seq<int>, lo: int, hi: int)
    requires 0 <= lo <= hi <= |s| && Rearranged(s, s', lo, hi)
    ensures |s'| == |s|
  {
  }

  /** In a sorted range between two cuts every position is a cut. */
  lemma SortedCuts(s: seq<int>, lo: int, hi: int, c: int)
    requires 0 <= lo <= c <= hi <= |s| && Cut(s, lo) && Cut(s, hi) && Sorted(s, lo, hi)
    ensures Cut(s, c)
  {
  }

  /** The last subarray has been sorted. */
  lemma SortedLeaves(s: seq<int>, s': seq<int>, subs: seq<Sub>)
    requires subs != [] && Inv(s, subs)
    requires var b := subs[|subs| - 1];
             0 <= b.l - 1 <= b.ir <= |s| && Rearranged(s, s', b.l - 1, b.ir) && Sorted(s', b.l - 1, b.ir)
    ensures Inv(s', subs[..|subs| - 1])
  {
    var b, init := subs[|subs| - 1], subs[..|subs| - 1];
    OthersStay(s, s', subs);
    assert SubOk(s', subs[|subs| - 1]);
    forall c | 0 <= c <= |s'| ensures Cut(s', c) || Covered(init, c) {
      if b.Inside(c) { SortedCuts(s', b.l - 1, b.ir, c); }
    }
  }

  /** A split between two cuts has cuts from the pivot to the start of the right part. */
  lemma SplitCuts(s: seq<int>, lo: int, hi: int, i: int, j: int, c: int)
    requires Split(s, lo, hi, i, j) && Cut(s, lo) && Cut(s, hi) && j - 1 <= c <= i - 1
    ensures Cut(s, c)
  {
    forall p, q | 0 <= p < c <= q < |s| ensures s[p] <= s[q] {
      if lo <= p && q < hi {
        assert s[p] <= s[j - 1] <= s[q];
      }
    }
  }

  lemma SplitApart(s: seq<int>, subs: seq<Sub>, first: Sub, second: Sub, i: int, j: int)
    requires subs != [] && Inv(s, subs)
    requires var b := subs[|subs| - 1];
             b.l - 1 < j - 1 < i - 1 < b.ir && {first, second} == {Sub(b.l, j - 1), Sub(i, b.ir)}
    ensures var all := subs[..|subs| - 1] + [first, second];
            forall x, y :: 0 <= x < y < |all| ==> all[x].Apart(all[y])
  {
    var b, m := subs[|subs| - 1], |subs| - 1;
    var all := subs[..m] + [first, second];
    hide SubOk, Cut, Covered;
    assert first == Sub(b.l, j - 1) || first == Sub(i, b.ir);
    assert second == Sub(b.l, j - 1) || second == Sub(i, b.ir);
    forall x, y | 0 <= x < y < |all| ensures all[x].Apart(all[y]) {
      if x < m { assert subs[x].Apart(subs[if y < m then y else m]); }
    }
  }

  /** The last subarray has been split: its two parts take its place, in either order. */
  lemma SplitDivides(s: seq<int>, s': seq<int>, subs: seq<Sub>, i: int, j: int, first: Sub, second: Sub)
    requires subs != [] && Inv(s, subs)
    requires var b := subs[|subs| - 1];
             && 0 <= b.l - 1 <= b.ir <= |s| && Rearranged(s, s', b.l - 1, b.ir)
             && Split(s', b.l - 1, b.ir, i, j)
             && {first, second} == {Sub(b.l, j - 1), Sub(i, b.ir)}
    ensures Inv(s', subs[..|subs| - 1] + [first, second])
  {
    var b, init := subs[|subs| - 1], subs[..|subs| - 1];
    var m := |init|;
    var all := init + [first, second];
    var left, right := Sub(b.l, j - 1), Sub(i, b.ir);
    OthersStay(s, s', subs);
    assert SubOk(s', subs[m]);
    SplitCuts(s', b.l - 1, b.ir, i, j, j - 1);
    SplitCuts(s', b.l - 1, b.ir, i, j, i - 1);
    assert (first == left && second == right) || (first == right && second == left);
    forall x | 0 <= x < |all| ensures SubOk(s', all[x]) {
      if x < m { assert all[x] == subs[x]; }
    }
    SplitApart(s, subs, first, second, i, j);
    forall c | 0 <= c <= |s'| ensures Cut(s', c) || Covered(all, c) {
      if left.Inside(c) || right.Inside(c) {
        assert all[m].Inside(c) || all[m + 1].Inside(c);
      } else if b.Inside(c) {
        SplitCuts(s', b.l - 1, b.ir, i, j, c);
      } else if Covered(init, c) {
        var x :| 0 <= x < |init| && init[x].Inside(c);
        assert all[x].Inside(c);
      }
    }
  }

  // -------------------------------------------------- the stack and termination

  /** The subarray at depth x has less than (n + 1) / 2^x elements: two halves and the
      pivot between them make up no more than the whole. */
  predicate Small(sub: Sub, x: nat, n: nat) { (sub.Size() + 1) * Pow2(x) <= n + 1 }

  ghost predicate Shrinking(subs: seq<Sub>, n: nat) {
    forall x: nat :: x < |subs| ==> Small(subs[x], x, n)
  }

  /** What is left to do; every round of the driver lowers it. */
  function Work(subs: seq<Sub>): int {
    if subs == [] then 0 else Work(subs[..|subs| - 1]) + 2 * subs[|subs| - 1].Size() + 1
  }

  lemma {:induction false} WorkPositive(s: seq<int>, subs: seq<Sub>)
    requires forall x :: 0 <= x < |subs| ==> SubOk(s, subs[x])
    ensures Work(subs) >= |subs|
  {
    if subs != [] {
      WorkPositive(s, subs[..|subs| - 1]);
      assert SubOk(s, subs[|subs| - 1]);
    }
  }

  /** Pushing the larger part and going on with the smaller halves the size per level. */
  lemma HalvesShrink(subs: seq<Sub>, n: nat, first: Sub, second: Sub)
    requires subs != [] && Shrinking(subs, n)
    requires var b := subs[|subs| - 1];
             0 <= second.Size() <= first.Size() && first.Size() + second.Size() < b.Size()
    ensures var subs' := subs[..|subs| - 1] + [first, second];
            Shrinking(subs', n) && Work(subs') < Work(subs)
  {
    var m, b := |subs| - 1, subs[|subs| - 1];
    var subs' := subs[..m] + [first, second];
    assert subs'[..m + 1][..m] == subs[..m] && subs'[..m + 1] == subs[..m] + [first];
    assert Work(subs') == Work(subs[..m]) + 2 * first.Size() + 1 + 2 * second.Size() + 1;
    assert Small(b, m, n);
    HalvesFit(first.Size(), second.Size(), b.Size(), Pow2(m), n);
    assert Small(first, m, n) && Small(second, m + 1, n);
    hide Small;
    forall x: nat | x < |subs'| ensures Small(subs'[x], x, n) {
      if x < m { assert subs'[x] == subs[x]; }
    }
  }

  lemma HalvesFit(x: int, y: int, z: int, p: nat, n: nat)
    requires 0 <= y <= x && x + y < z && (z + 1) * p <= n + 1
    ensures (x + 1) * p <= n + 1 && (y + 1) * (2 * p) <= n + 1
  {
    MulMono(x + 1, z + 1, p);
    MulMono(2 * (y + 1), z + 1, p);
    assert (2 * (y + 1)) * p == (y + 1) * (2 * p);
  }

  /** Enough room on a stack of `nstack` entries, of which the source never uses the first. */
  predicate StackEnough(n: nat, nstack: nat) {
    nstack > 0 && n + 1 < (INSERTION_THRESHOLD + 2) * Pow2((nstack - 1) / 2)
  }

  lemma {:induction false} Pow2Mono(x: nat, y: nat)
    requires x <= y
    ensures Pow2(x) <= Pow2(y)
    decreases y
  {
    if x < y { Pow2Mono(x, y - 1); }
  }

  /** A subarray that is still split is not so deep that its push would overflow. */
  lemma RoomToPush(subs: seq<Sub>, n: nat, nstack: nat)
    requires subs != [] && Shrinking(subs, n) && StackEnough(n, nstack)
    requires subs[|subs| - 1].Size() > INSERTION_THRESHOLD
    ensures 2 * |subs| < nstack
  {
    var m, top := |subs| - 1, (nstack - 1) / 2;
    MulMono(INSERTION_THRESHOLD + 2, subs[m].Size() + 1, Pow2(m));
    assert Small(subs[m], m, n);
    if m >= top { Pow2Mono(top, m); }
  }

  /** What the source asks of NSTACK, at least 2 * lg(n), is enough. */
  lemma DocumentedStackEnough(n: nat, nstack: nat)
    requires nstack > 0 && n <= Pow2(nstack / 2)
    ensures StackEnough(n, nstack)
  {
    var top := (nstack - 1) / 2;
    Pow2Mono(nstack / 2, top + 1);
    Pow2Mono(0, top);
  }

  /** The source's NSTACK serves every array of fewer than 12 * 2^24 - 1 elements. */
  lemma NstackEnough(n: nat)
    ensures StackEnough(n, NSTACK) <==> n < 0xC000000 - 1
  {
    Pow2Byte(0);
    Pow2Byte(8);
    Pow2Byte(16);
    assert Pow2(24) == 0x1000000;
  }

  lemma Pow2Byte(k: nat)
    ensures Pow2(k + 8) == 256 * Pow2(k)
  {
    assert Pow2(k + 2) == 4 * Pow2(k);
    assert Pow2(k + 4) == 4 * Pow2(k + 2);
    assert Pow2(k + 6) == 4 * Pow2(k + 4);
    assert Pow2(k + 8) == 4 * Pow2(k + 6);
  }

  /** The stack holds the pointers of all subarrays but the last, two entries each. */
  ghost predicate OnStack(stack: seq<int>, sp: int, subs: seq<Sub>) {
    && subs != [] && sp == 2 * (|subs| - 1) && sp < |stack|
    && forall x :: 0 <= x < |subs| - 1 ==>
         stack[2 * x + 1] == subs[x].l && stack[2 * x + 2] == subs[x].ir
  }

  lemma Popped(stack: seq<int>, sp: int, subs: seq<Sub>)
    requires OnStack(stack, sp, subs) && |subs| > 1
    ensures 0 < sp - 1 < sp < |stack|
    ensures subs[|subs| - 2] == Sub(stack[sp - 1], stack[sp])
    ensures OnStack(stack, sp - 2, subs[..|subs| - 1])
  {
    var x := |subs| - 2;
    assert stack[2 * x + 1] == subs[x].l && stack[2 * x + 2] == subs[x].ir;
  }

  lemma Pushed(stack: seq<int>, sp: int, subs: seq<Sub>, first: Sub, second: Sub)
    requires OnStack(stack, sp, subs) && sp + 2 < |stack|
    ensures OnStack(stack[sp + 2 := first.ir][sp + 1 := first.l], sp + 2,
                    subs[..|subs| - 1] + [first, second])
  {
  }

  /** The state of the driver's loop. */
  ghost predicate Driving(s: seq<int>, s0: seq<int>, stack: seq<int>, sp: int, l: int, ir: int, subs: seq<Sub>) {
    && Inv(s, subs) && Shrinking(subs, |s|) && OnStack(stack, sp, subs)
    && subs[|subs| - 1] == Sub(l, ir) && StackEnough(|s|, |stack|)
    && |s| == |s0| && multiset(s) == multiset(s0)
  }

  lemma DriverStarts(s: seq<int>, stack: seq<int>)
    requires StackEnough(|s|, |stack|)
    ensures Driving(s, s, stack, 0, 1, |s|, [Sub(1, |s|)])
  {
    Start(s);
  }

  lemma Bounds(s: seq<int>, s0: seq<int>, stack: seq<int>, sp: int, l: int, ir: int, subs: seq<Sub>)
    requires Driving(s, s0, stack, sp, l, ir, subs)
    ensures 1 <= l && l - 1 <= ir <= |s| && subs != [] && Work(subs) > 0 && (sp == 0 <==> |subs| == 1)
  {
    assert SubOk(s, subs[|subs| - 1]);
    WorkPositive(s, subs);
  }

  /** A small subarray has been sorted and was the last one: everything is sorted. */
  lemma LastSorted(s: seq<int>, s0: seq<int>, stack: seq<int>, sp: int, l: int, ir: int, subs: seq<Sub>, s': seq<int>)
    requires Driving(s, s0, stack, sp, l, ir, subs) && 0 <= l - 1 <= ir <= |s|
    requires Rearranged(s, s', l - 1, ir) && Sorted(s', l - 1, ir)
    requires |subs| == 1
    ensures Sorted(s', 0, |s'|) && multiset(s') == multiset(s0)
  {
    SortedLeaves(s, s', subs);
    assert subs[..|subs| - 1] == [];
    RearrangedMultiset(s, s', l - 1, ir);
    Finished(s');
  }

  lemma ShrinkingPrefix(subs: seq<Sub>, n: nat)
    requires subs != [] && Shrinking(subs, n)
    ensures Shrinking(subs[..|subs| - 1], n)
  {
  }

  lemma PopWork(s: seq<int>, subs: seq<Sub>)
    requires subs != [] && Inv(s, subs)
    ensures Work(subs[..|subs| - 1]) < Work(subs)
  {
    assert SubOk(s, subs[|subs| - 1]);
  }

  /** A small subarray has been sorted and the next one popped. */
  lemma PopDrives(s: seq<int>, s0: seq<int>, stack: seq<int>, sp: int, l: int, ir: int, subs: seq<Sub>, s': seq<int>)
    requires Driving(s, s0, stack, sp, l, ir, subs) && 0 <= l - 1 <= ir <= |s|
    requires Rearranged(s, s', l - 1, ir) && Sorted(s', l - 1, ir)
    requires |subs| > 1
    ensures 0 < sp - 1 < sp < |stack|
    ensures Driving(s', s0, stack, sp - 2, stack[sp - 1], stack[sp], subs[..|subs| - 1])
    ensures Work(subs[..|subs| - 1]) < Work(subs)
  {
    hide Inv, OnStack, StackEnough, Sorted, Rearranged;
    SortedLeaves(s, s', subs);
    RearrangedMultiset(s, s', l - 1, ir);
    Popped(stack, sp, subs);
    PopWork(s, subs);
    assert Shrinking(subs[..|subs| - 1], |s|) by { ShrinkingPrefix(subs, |s|); }
    hide Shrinking;
  }

  /** A large subarray has been split, its larger part pushed, and the smaller is next. */
  lemma PushDrives(s: seq<int>, s0: seq<int>, stack: seq<int>, sp: int, l: int, ir: int, subs: seq<Sub>, s': seq<int>,
                   i: int, j: int, first: Sub, second: Sub)
    requires Driving(s, s0, stack, sp, l, ir, subs) && 0 <= l - 1 <= ir <= |s|
    requires Rearranged(s, s', l - 1, ir) && Split(s', l - 1, ir, i, j)
    requires {first, second} == {Sub(l, j - 1), Sub(i, ir)} && second.Size() <= first.Size()
    requires ir - l >= INSERTION_THRESHOLD
    ensures 0 <= sp && sp + 2 < |stack|
    ensures var subs' := subs[..|subs| - 1] + [first, second];
            && Driving(s', s0, stack[sp + 2 := first.ir][sp + 1 := first.l], sp + 2, second.l, second.ir, subs')
            && Work(subs') < Work(subs)
  {
    SplitDivides(s, s', subs, i, j, first, second);
    RearrangedMultiset(s, s', l - 1, ir);
    RoomToPush(subs, |s|, |stack|);
    assert (first == Sub(l, j - 1) && second == Sub(i, ir)) || (first == Sub(i, ir) && second == Sub(l, j - 1));
    HalvesShrink(subs, |s|, first, second);
    Pushed(stack, sp, subs, first, second);
    hide Inv, OnStack, StackEnough, Shrinking, Work;
  }

  /** The sort: `nstack` is the size of the array `stack`. */
  method Sort(arr: array<int>, nstack: nat)
    requires StackEnough(arr.Length, nstack)
    modifies arr
    ensures Sorted(arr[..], 0, arr.Length)
    ensures multiset(arr[..]) == multiset(old(arr[..]))
  {
    hide Sorted, Driving, Rearranged, Split, Work;
    var ir := arr.Length;
    var l := 1;
    var stack := new int[nstack](i => 0);
    var sp := 0;
    ghost var s0 := arr[..];
    ghost var subs := [Sub(1, |s0|)];
    DriverStarts(s0, stack[..]);
    while true
      invariant Driving(arr[..], s0, stack[..], sp, l, ir, subs)
      decreases Work(subs)
    {
      ghost var s, t := arr[..], stack[..];
      Bounds(s, s0, t, sp, l, ir, subs);
      if ir - l < INSERTION_THRESHOLD {
        InsertionSort(arr, ir - l + 1, l - 1);
        if sp == 0 {
          LastSorted(s, s0, t, sp, l, ir, subs, arr[..]);
          break;
        }
        PopDrives(s, s0, t, sp, l, ir, subs, arr[..]);
        ir := stack[sp];
        sp := sp - 1;
        l := stack[sp];
        sp := sp - 1;
        subs := subs[..|subs| - 1];
      } else {
        l, ir, sp, subs := SplitAndPush(arr, stack, l, ir, sp, s0, subs);
      }
    }
  }

  /** The partitioning branch of the driver. */
  method SplitAndPush(arr: array<int>, stack: array<int>, l0: int, ir0: int, sp0: int,
                      ghost s0: seq<int>, ghost subs0: seq<Sub>)
    returns (l: int, ir: int, sp: int, ghost subs: seq<Sub>)
    requires arr != stack && ir0 - l0 >= INSERTION_THRESHOLD
    requires Driving(arr[..], s0, stack[..], sp0, l0, ir0, subs0)
    modifies arr, stack
    ensures Driving(arr[..], s0, stack[..], sp, l, ir, subs) && Work(subs) < Work(subs0)
  {
    hide Driving, Rearranged, Work;
    ghost var s, t := arr[..], stack[..];
    Bounds(s, s0, t, sp0, l0, ir0, subs0);
    l, ir := l0, ir0;
    var i, j := Partition(arr, l, ir);
    ghost var larger, smaller;
    if ir - i + 1 >= j - l {
      larger, smaller := Sub(i, ir), Sub(l, j - 1);
    } else {
      larger, smaller := Sub(l, j - 1), Sub(i, ir);
    }
    PushDrives(s, s0, t, sp0, l, ir, subs0, arr[..], i, j, larger, smaller);
    subs := subs0[..|subs0| - 1] + [larger, smaller];
    sp := sp0 + 2;
    if ir - i + 1 >= j - l {
      stack[sp] := ir;
      stack[sp - 1] := i;
      ir := j - 1;
    } else {
      stack[sp] := j - 1;
      stack[sp - 1] := l;
      l := i;
    }
  }
}
