/** `python/ihex2rcf.py`: a partial memory image becomes either a flat list of
    words or a stream of boot commands, dump segments for what is defined and
    erase segments for the blanks between. */
module RcfImage {
  import opened Arith

  type Byte = x: int | 0 <= x < 256

  datatype Option<+T> = None | Some(value: T)

  datatype Error =
    | BadWidth          // the width is not 8, 16, 32 or 64
    | Misaligned        // start address or size is no multiple of the word size
    | IncompleteWord    // some but not all bytes of a word are given
    | NothingDefined    // no first non-blank word: range(None, ...) raises

  datatype Result<+T> = Ok(value: T) | Err(error: Error)

  /** What the Intel hex file defines, by address. */
  type HexFile = map<nat, Byte>

  datatype Args = Args(startAddr: nat, size: nat, width: nat, default: nat, allowUndefined: bool) {
    function Bytewidth(): nat { width / 8 }
    function NumWords(): nat { if Bytewidth() == 0 then 0 else size / Bytewidth() }
    /** The address of word `i` of the image. */
    function Addr(i: nat): nat { startAddr + i * Bytewidth() }

    predicate GoodWidth() { width == 8 || width == 16 || width == 32 || width == 64 }
    predicate Good() {
      GoodWidth() && startAddr % Bytewidth() == 0 && size % Bytewidth() == 0
    }
  }

  function Pow256(j: nat): nat { if j == 0 then 1 else 256 * Pow256(j - 1) }

  lemma Pow256Positive(j: nat)
    ensures Pow256(j) > 0
  {
  }

  /** Byte `j` of the default word. */
  function DefaultByte(default: nat, j: nat): nat {
    Pow256Positive(j);
    default / Pow256(j) % 256
  }

  /** The byte at `x` of the word at `addr`, taken from the default if it is missing. */
  function ByteAt(h: HexFile, addr: nat, x: nat, default: nat): nat
    requires addr <= x
  {
    if x in h then h[x] else DefaultByte(default, x - addr)
  }

  /** Little-endian value of the first `n` bytes at `addr`, missing ones taken from the default. */
  function WordValue(h: HexFile, addr: nat, n: nat, default: nat): nat {
    if n == 0 then 0
    else WordValue(h, addr, n - 1, default) + ByteAt(h, addr, addr + (n - 1), default) * Pow256(n - 1)
  }

  predicate Blank(h: HexFile, addr: nat, n: nat) { forall x: nat :: addr <= x < addr + n ==> x !in h }
  predicate Full(h: HexFile, addr: nat, n: nat) { forall x: nat :: addr <= x < addr + n ==> x in h }

  /** A word that is only partly given, without permission to fill it. */
  predicate Incomplete(h: HexFile, a: Args, i: nat) {
    var n := a.Bytewidth();
    !Blank(h, a.Addr(i), n) && !Full(h, a.Addr(i), n) && !a.allowUndefined
  }

  ghost predicate AllComplete(h: HexFile, a: Args, n: nat) {
    forall i :: 0 <= i < n ==> !Incomplete(h, a, i)
  }

  function Word(h: HexFile, a: Args, i: nat): Option<nat> {
    if Blank(h, a.Addr(i), a.Bytewidth()) then None
    else Some(WordValue(h, a.Addr(i), a.Bytewidth(), a.default))
  }

  /** The words of the image, blanks as None. */
  function Words(h: HexFile, a: Args, n: nat): (ws: seq<Option<nat>>)
    ensures |ws| == n
  {
    seq(n, i requires 0 <= i < n => Word(h, a, i))
  }

  function Flat(w: Option<nat>, default: nat): nat { if w.Some? then w.value else default }

  /** The image with every blank word replaced by the default. */
  function FlatWords(ws: seq<Option<nat>>, default: nat): (fs: seq<nat>)
    ensures |fs| == |ws|
  {
    seq(|ws|, i requires 0 <= i < |ws| => Flat(ws[i], default))
  }

  /** The word at word index `i`, bytes added up one by one. */
  method AssembleWord(h: HexFile, a: Args, i: nat) returns (r: Result<nat>)
    requires !Blank(h, a.Addr(i), a.Bytewidth())
    ensures r == if Incomplete(h, a, i) then Err(IncompleteWord)
                 else Ok(WordValue(h, a.Addr(i), a.Bytewidth(), a.default))
  {
    var word := 0;
    for j := 0 to a.Bytewidth()
      invariant word == WordValue(h, a.Addr(i), j, a.default)
      invariant a.allowUndefined || Full(h, a.Addr(i), j)
    {
      if a.Addr(i) + j !in h && !a.allowUndefined {
        assert !Full(h, a.Addr(i), a.Bytewidth());
        return Err(IncompleteWord);
      }
      word := word + ByteAt(h, a.Addr(i), a.Addr(i) + j, a.default) * Pow256(j);
    }
    r := Ok(word);
  }

  /** Collapses the bytes into words. */
  method CollapseWords(h: HexFile, a: Args) returns (r: Result<seq<Option<nat>>>)
    ensures r.Ok? <==> AllComplete(h, a, a.NumWords())
    ensures r == if r.Ok? then Ok(Words(h, a, a.NumWords())) else Err(IncompleteWord)
  {
    var allWords := [];
    for i := 0 to a.NumWords()
      invariant allWords == Words(h, a, i) && AllComplete(h, a, i)
    {
      if Blank(h, a.Addr(i), a.Bytewidth()) {
        allWords := allWords + [None];
      } else {
        var word := AssembleWord(h, a, i);
        if word.Err? {
          assert Incomplete(h, a, i);
          return Err(IncompleteWord);
        }
        allWords := allWords + [Some(word.value)];
      }
    }
    r := Ok(allWords);
  }

  /** The flat mode: one word per address, with the missing bytes of a partly given
      word first filled into the image itself. */
  method FlatDump(hexFile: HexFile, a: Args) returns (r: Result<seq<nat>>)
    requires a.GoodWidth()
    ensures r.Ok? <==> AllComplete(hexFile, a, a.NumWords())
    ensures r == if r.Ok? then Ok(FlatWords(Words(hexFile, a, a.NumWords()), a.default))
                 else Err(IncompleteWord)
  {
    var h: HexFile := hexFile;
    var s := [];
    for i := 0 to a.NumWords()
      invariant s == FlatWords(Words(hexFile, a, i), a.default) && AllComplete(hexFile, a, i)
      invariant forall x: nat :: x >= a.Addr(i) ==> (x in h <==> x in hexFile)
      invariant forall x: nat :: x >= a.Addr(i) && x in h ==> h[x] == hexFile[x]
    {
      var addr := a.Addr(i);
      assert a.Addr(i + 1) == addr + a.Bytewidth();
      var word := a.default;
      if !Blank(h, addr, a.Bytewidth()) {
        if !Full(h, addr, a.Bytewidth()) {
          if !a.allowUndefined {
            assert Incomplete(hexFile, a, i);
            return Err(IncompleteWord);
          }
          h := FillWord(h, addr, a.Bytewidth(), a.default);
        }
        word := SumBytes(h, addr, a.Bytewidth());
        SameValue(hexFile, h, addr, a.Bytewidth(), a.default);
      }
      s := s + [word];
    }
    r := Ok(s);
  }

  method FillWord(hexFile: HexFile, addr: nat, n: nat, default: nat) returns (h: HexFile)
    ensures forall x: nat :: addr <= x < addr + n ==> x in h && h[x] == ByteAt(hexFile, addr, x, default)
    ensures forall x: nat :: !(addr <= x < addr + n) ==> (x in h <==> x in hexFile)
    ensures forall x: nat :: !(addr <= x < addr + n) && x in h ==> h[x] == hexFile[x]
  {
    h := hexFile;
    for j := 0 to n
      invariant forall x: nat :: addr <= x < addr + j ==> x in h && h[x] == ByteAt(hexFile, addr, x, default)
      invariant forall x: nat :: !(addr <= x < addr + j) ==> (x in h <==> x in hexFile)
      invariant forall x: nat :: !(addr <= x < addr + j) && x in h ==> h[x] == hexFile[x]
    {
      if addr + j !in h {
        h := h[addr + j := DefaultByte(default, j)];
      }
    }
  }

  method SumBytes(h: HexFile, addr: nat, n: nat) returns (word: nat)
    requires Full(h, addr, n)
    ensures word == WordValue(h, addr, n, 0)
  {
    word := 0;
    for b := 0 to n
      invariant word == WordValue(h, addr, b, 0)
    {
      word := word + h[addr + b] * Pow256(b);
    }
  }

  lemma {:induction false} SameValue(h: HexFile, g: HexFile, addr: nat, n: nat, default: nat)
    requires forall x: nat :: addr <= x < addr + n ==> x in g && g[x] == ByteAt(h, addr, x, default)
    ensures WordValue(g, addr, n, 0) == WordValue(h, addr, n, default)
  {
    if n > 0 {
      SameValue(h, g, addr, n - 1, default);
      assert addr + (n - 1) in g;
    }
  }

  // ---------------------------------------------------------------- bytes of the words

  /** Byte `j` of a word. */
  function ByteOf(w: nat, j: nat): nat { w / Pow2(8 * j) % 256 }

  lemma {:induction false} Pow256Is(j: nat)
    ensures Pow256(j) == Pow2(8 * j)
  {
    if j > 0 {
      Pow256Is(j - 1);
      PowAdd(8, 8 * (j - 1));
      WordPowers();
    }
  }

  lemma {:induction false} Pow256Above(j: nat, n: nat) returns (m: nat)
    requires j < n
    ensures Pow256(n) == m * 256 * Pow256(j)
    decreases n
  {
    if n == j + 1 {
      m := 1;
    } else {
      var m' := Pow256Above(j, n - 1);
      m := 256 * m';
      assert 256 * (m' * 256 * Pow256(j)) == m * 256 * Pow256(j);
    }
  }

  /** A byte added on top of a word leaves the bytes below. */
  lemma BytesBelow(w: nat, b: nat, p: nat, m: nat)
    requires p > 0
    ensures (w + b * (m * 256 * p)) / p % 256 == w / p % 256
  {
    var q, r := w / p, w % p;
    var z := b * m;
    assert b * (m * 256 * p) == (z * 256) * p;
    assert (q + z * 256) * p == q * p + (z * 256) * p;
    DivModUnique(w + b * (m * 256 * p), p, q + z * 256, r);
    DivModUnique(q + z * 256, 256, q / 256 + z, q % 256);
  }

  lemma ByteOnTop(w: nat, b: nat, p: nat)
    requires w < p && b < 256
    ensures (w + b * p) / p % 256 == b && w + b * p < 256 * p
  {
    DivModUnique(w + b * p, p, b, w);
    MulMono(b + 1, 256, p);
    assert (b + 1) * p == b * p + p;
  }

  /** Reading a word back byte by byte gives the bytes of the file, and those of the default word where
      the file has none; and there is nothing above its `n` bytes. */
  lemma {:induction false} WordBytes(h: HexFile, addr: nat, n: nat, default: nat, j: nat)
    ensures WordValue(h, addr, n, default) < Pow2(8 * n)
    ensures j < n ==> ByteOf(WordValue(h, addr, n, default), j)
                      == if addr + j in h then h[addr + j] else ByteOf(default, j)
  {
    Pow256Is(n);
    Pow256Is(j);
    hide Pow256, Pow2, ByteAt;
    if n > 0 {
      WordBytes(h, addr, n - 1, default, j);
      Pow256Is(n - 1);
      Pow256Next(n - 1);
      var w, b := WordValue(h, addr, n - 1, default), ByteAt(h, addr, addr + (n - 1), default);
      ByteIs(h, addr, n - 1, default);
      ByteOnTop(w, b, Pow256(n - 1));
      if j < n - 1 {
        var m := Pow256Above(j, n - 1);
        Pow256Positive(j);
        BytesBelow(w, b, Pow256(j), m);
      }
    }
  }

  lemma Pow256Next(j: nat)
    ensures Pow256(j + 1) == 256 * Pow256(j)
  {
  }

  lemma ByteIs(h: HexFile, addr: nat, j: nat, default: nat)
    ensures ByteAt(h, addr, addr + j, default) == if addr + j in h then h[addr + j] else ByteOf(default, j)
    ensures ByteAt(h, addr, addr + j, default) < 256
  {
    Pow256Is(j);
    hide Pow256, Pow2;
  }

  /** Every byte of the flat image is that of the file, or of the default word; a word without bytes in
      the file is the default word. */
  lemma FlatBytes(h: HexFile, a: Args, n: nat, i: nat, j: nat)
    requires i < n && 8 * j < a.width && a.GoodWidth()
    ensures var x := a.startAddr + i * (a.width / 8) + j;
            ByteOf(FlatWords(Words(h, a, n), a.default)[i], j) == if x in h then h[x] else ByteOf(a.default, j)
    ensures Words(h, a, n)[i].None? <==>
              forall x: nat :: a.startAddr + i * (a.width / 8) <= x < a.startAddr + (i + 1) * (a.width / 8) ==> x !in h
    ensures Words(h, a, n)[i].Some? ==> Words(h, a, n)[i].value < Pow2(a.width)
  {
    hide ByteOf, WordValue, Pow2;
    assert 8 * a.Bytewidth() == a.width;
    assert (i + 1) * (a.width / 8) == i * (a.width / 8) + a.width / 8;
    WordBytes(h, a.Addr(i), a.Bytewidth(), a.default, j);
  }

  // ------------------------------------------------------------------ segments

  /** A run of words: from index `start`, `len` of them. */
  datatype Seg = Seg(start: nat, len: nat) {
    function End(): nat { start + len }
  }

  ghost predicate AllBlank(ws: seq<Option<nat>>, lo: nat, hi: nat) {
    forall i :: lo <= i < hi && i < |ws| ==> ws[i].None?
  }

  /** `k` blanks in a row from index `i`. */
  ghost predicate Gap(ws: seq<Option<nat>>, i: nat, k: nat) { AllBlank(ws, i, i + k) }

  /** No `k` blanks in a row anywhere between `lo` and `hi`. */
  ghost predicate NoLongGap(ws: seq<Option<nat>>, lo: nat, hi: nat, k: nat) {
    forall i: nat :: lo <= i && i + k <= hi ==> !Gap(ws, i, k)
  }

  /** A dump segment starts at a defined word and contains no gap of `k` blanks. */
  ghost predicate SegOk(ws: seq<Option<nat>>, k: nat, s: Seg) {
    s.len > 0 && s.End() <= |ws| && ws[s.start].Some? && NoLongGap(ws, s.start, s.End(), k)
  }

  /** Segments in order, everything outside them up to `upTo` blank, and at least `k`
      blanks between two of them. */
  ghost predicate Segmentation(ws: seq<Option<nat>>, k: nat, segs: seq<Seg>, upTo: nat) {
    && upTo <= |ws|
    && (forall x :: 0 <= x < |segs| ==> SegOk(ws, k, segs[x]) && segs[x].End() <= upTo)
    && (forall x :: 0 <= x < |segs| - 1 ==>
          segs[x].End() + k <= segs[x + 1].start && AllBlank(ws, segs[x].End(), segs[x + 1].start))
    && AllBlank(ws, 0, if segs == [] then upTo else segs[0].start)
    && (segs != [] ==> AllBlank(ws, segs[|segs| - 1].End(), upTo))
  }

  /** A segment ends right behind a defined word. */
  ghost predicate EndsDefined(ws: seq<Option<nat>>, s: Seg) {
    0 < s.End() <= |ws| && ws[s.End() - 1].Some?
  }

  ghost predicate AllEndDefined(ws: seq<Option<nat>>, segs: seq<Seg>) {
    forall x :: 0 <= x < |segs| ==> EndsDefined(ws, segs[x])
  }

  /** Complete: every segment ends behind a defined word, or with the image; the blanks after the last
      one are none, or at least `k`. */
  ghost predicate Segmented(ws: seq<Option<nat>>, k: nat, segs: seq<Seg>) {
    && segs != [] && Segmentation(ws, k, segs, |ws|)
    && (forall x :: 0 <= x < |segs| ==> segs[x].End() == |ws| || EndsDefined(ws, segs[x]))
    && (segs[|segs| - 1].End() == |ws| || segs[|segs| - 1].End() + k <= |ws|)
  }

  /** Inside a segment begun at `start`, with `blankCount` blanks since its last defined word. */
  ghost predicate Open(ws: seq<Option<nat>>, k: nat, segs: seq<Seg>, start: nat, i: nat, blankCount: nat) {
    && start <= i <= |ws| && start < |ws| && ws[start].Some? && blankCount < k
    && (if i == start then blankCount == 0
        else start + blankCount < i && ws[i - blankCount - 1].Some? && AllBlank(ws, i - blankCount, i))
    && NoLongGap(ws, start, i, k)
    && Segmentation(ws, k, segs, start)
    && (segs != [] ==> segs[|segs| - 1].End() + k <= start) && AllEndDefined(ws, segs)
  }

  /** Past a segment that `k` or more blanks have ended. */
  ghost predicate Closed(ws: seq<Option<nat>>, k: nat, segs: seq<Seg>, i: nat) {
    segs != [] && Segmentation(ws, k, segs, i) && segs[|segs| - 1].End() + k <= i && AllEndDefined(ws, segs)
  }

  lemma OpenStep(ws: seq<Option<nat>>, k: nat, segs: seq<Seg>, start: nat, i: nat, blankCount: nat)
    requires Open(ws, k, segs, start, i, blankCount) && i < |ws|
    requires ws[i].None? ==> blankCount + 1 < k
    ensures Open(ws, k, segs, start, i + 1, if ws[i].None? then blankCount + 1 else 0)
  {
    var last := if ws[i].None? then i - blankCount - 1 else i;
    forall g: nat | start <= g && g + k <= i + 1 ensures !Gap(ws, g, k) {
      if g + k == i + 1 {
        assert g <= last < g + k;
      }
    }
  }

  /** A complete segment joins the others. */
  lemma Append(ws: seq<Option<nat>>, k: nat, segs: seq<Seg>, s: Seg, upTo: nat)
    requires Segmentation(ws, k, segs, s.start) && SegOk(ws, k, s) && s.End() <= upTo <= |ws|
    requires segs != [] ==> segs[|segs| - 1].End() + k <= s.start
    requires AllBlank(ws, s.End(), upTo)
    ensures Segmentation(ws, k, segs + [s], upTo)
  {
    var all := segs + [s];
    forall x | 0 <= x < |all| ensures SegOk(ws, k, all[x]) && all[x].End() <= upTo {
      hide SegOk, AllBlank;
    }
    hide SegOk;
  }

  lemma CloseStep(ws: seq<Option<nat>>, k: nat, segs: seq<Seg>, start: nat, i: nat, blankCount: nat)
    requires Open(ws, k, segs, start, i, blankCount) && i < |ws|
    requires k > 1 && ws[i].None? && blankCount + 1 == k
    ensures start + k <= i
    ensures Closed(ws, k, segs + [Seg(start, i + 1 - k - start)], i + 1)
  {
    Append(ws, k, segs, Seg(start, i + 1 - k - start), i + 1);
  }

  lemma LastStep(ws: seq<Option<nat>>, k: nat, segs: seq<Seg>, start: nat, blankCount: nat)
    requires Open(ws, k, segs, start, |ws|, blankCount)
    ensures Segmented(ws, k, segs + [Seg(start, |ws| - start)])
  {
    Append(ws, k, segs, Seg(start, |ws| - start), |ws|);
  }

  lemma ClosedStep(ws: seq<Option<nat>>, k: nat, segs: seq<Seg>, i: nat)
    requires Closed(ws, k, segs, i) && i < |ws|
    ensures ws[i].None? ==> Closed(ws, k, segs, i + 1)
    ensures ws[i].Some? && k > 0 ==> Open(ws, k, segs, i, i, 0)
  {
    forall x | 0 <= x < |segs| ensures SegOk(ws, k, segs[x]) && segs[x].End() <= i + 1 {
      hide SegOk, AllBlank;
    }
    hide SegOk;
  }

  /** The loop's state before word `i`. */
  ghost predicate Going(ws: seq<Option<nat>>, k: nat, segs: seq<Seg>, start: Option<nat>, i: nat, blankCount: nat) {
    if start.Some? then Open(ws, k, segs, start.value, i, blankCount)
    else Closed(ws, k, segs, i) && blankCount >= k
  }

  lemma GoingStep(ws: seq<Option<nat>>, k: nat, segs: seq<Seg>, start: Option<nat>, i: nat, blankCount: nat)
    requires k > 1 && Going(ws, k, segs, start, i, blankCount) && i < |ws|
    ensures ws[i].None? && blankCount + 1 == k ==>
              start.Some? && start.value + k <= i &&
              Going(ws, k, segs + [Seg(start.value, i + 1 - k - start.value)], None, i + 1, k)
    ensures ws[i].None? && blankCount + 1 != k ==> Going(ws, k, segs, start, i + 1, blankCount + 1)
    ensures ws[i].Some? ==> Going(ws, k, segs, if start.None? then Some(i) else start, i + 1, 0)
  {
    if start.None? {
      ClosedStep(ws, k, segs, i);
      if ws[i].Some? { OpenStep(ws, k, segs, i, i, 0); }
    } else if ws[i].None? && blankCount + 1 == k {
      CloseStep(ws, k, segs, start.value, i, blankCount);
    } else {
      OpenStep(ws, k, segs, start.value, i, blankCount);
    }
  }

  /** The segmentation loops. */
  method FindSegments(ws: seq<Option<nat>>, k: nat) returns (r: Result<seq<Seg>>)
    requires k > 1
    ensures r.Ok? <==> exists i :: 0 <= i < |ws| && ws[i].Some?
    ensures if r.Ok? then Segmented(ws, k, r.value) else r.error == NothingDefined
  {
    var start: Option<nat> := FirstDefined(ws);
    if start.None? { return Err(NothingDefined); }
    var segments: seq<Seg> := [];
    var blankCount := 0;
    assert Going(ws, k, segments, start, start.value, 0);
    hide Going, Segmented;
    for i := start.value to |ws|
      invariant Going(ws, k, segments, start, i, blankCount)
    {
      GoingStep(ws, k, segments, start, i, blankCount);
      if ws[i].None? {
        blankCount := blankCount + 1;
        if blankCount == k {
          // the end of a segment
          segments := segments + [Seg(start.value, i + 1 - k - start.value)];
          start := None;
        }
      } else {
        blankCount := 0;
        if start.None? {
          start := Some(i);
        }
      }
    }
    GoingEnd(ws, k, segments, start, blankCount);
    if start.Some? {
      segments := segments + [Seg(start.value, |ws| - start.value)];
    }
    r := Ok(segments);
  }

  lemma GoingEnd(ws: seq<Option<nat>>, k: nat, segs: seq<Seg>, start: Option<nat>, blankCount: nat)
    requires Going(ws, k, segs, start, |ws|, blankCount)
    ensures if start.None? then Segmented(ws, k, segs)
            else start.value <= |ws| && Segmented(ws, k, segs + [Seg(start.value, |ws| - start.value)])
  {
    if start.Some? { LastStep(ws, k, segs, start.value, blankCount); }
  }

  method FirstDefined(ws: seq<Option<nat>>) returns (start: Option<nat>)
    ensures start.None? ==> AllBlank(ws, 0, |ws|)
    ensures start.Some? ==> start.value < |ws| && ws[start.value].Some? && AllBlank(ws, 0, start.value)
  {
    for i := 0 to |ws|
      invariant AllBlank(ws, 0, i)
    {
      if ws[i].Some? { return Some(i); }
    }
    start := None;
  }
}
