/** What a loader makes of the streams that `ihex2rcf.py` writes. */
module BootReplay {
  import opened RcfImage
  import opened BootStream

  // -------------------------------------------------------- one segment at a time

  /** The words `fs` stored from word index `s` on. */
  function Written(a: Args, mem: map<nat, nat>, s: nat, fs: seq<nat>): map<nat, nat>
    decreases |fs|
  {
    if fs == [] then mem else Written(a, mem[a.Addr(s) := fs[0]], s + 1, fs[1..])
  }

  lemma AddrStep(a: Args, i: nat)
    ensures a.Addr(i + 1) == a.Addr(i) + a.Bytewidth()
  {
  }

  lemma AddrOrder(a: Args, i: nat, j: nat)
    requires a.Bytewidth() > 0
    ensures i < j <==> a.Addr(i) < a.Addr(j)
    ensures i <= j <==> a.Addr(i) <= a.Addr(j)
  {
    assert a.Addr(j) - a.Addr(i) == (j - i) * a.Bytewidth();
  }

  lemma {:induction false} BurstWrites(a: Args, mem: map<nat, nat>, s: nat, fs: seq<nat>, rest: seq<nat>)
    requires fs != [] && a.Bytewidth() > 0
    ensures Burst(mem, a.Addr(s), a.Addr(s + |fs|), a.Bytewidth(), fs + rest)
         == Some((Written(a, mem, s, fs), rest))
    decreases |fs|
  {
    AddrStep(a, s);
    AddrOrder(a, s + 1, s + |fs|);
    hide Args.Addr, Args.Bytewidth;
    assert (fs + rest)[1..] == fs[1..] + rest;
    if |fs| > 1 {
      BurstWrites(a, mem[a.Addr(s) := fs[0]], s + 1, fs[1..], rest);
      assert s + 1 + |fs[1..]| == s + |fs|;
    } else {
      assert fs[1..] + rest == rest;
    }
  }

  lemma {:induction false} FillWrites(a: Args, mem: map<nat, nat>, s: nat, n: nat, v: nat)
    requires n > 0 && a.Bytewidth() > 0
    ensures Fill(mem, a.Addr(s), a.Addr(s + n), a.Bytewidth(), v)
         == Written(a, mem, s, seq(n, i => v))
    decreases n
  {
    AddrStep(a, s);
    AddrOrder(a, s + 1, s + n);
    hide Args.Addr;
    var fs := seq(n, i => v);
    assert fs[1..] == seq(n - 1, i => v);
    if n > 1 {
      FillWrites(a, mem[a.Addr(s) := v], s + 1, n - 1, v);
    }
  }

  /** The memory after segments were stored with their words of `flat`. */
  function Replayed(a: Args, mem: map<nat, nat>, flat: seq<nat>, segs: seq<Seg>): map<nat, nat>
    requires forall s :: s in segs ==> s.End() <= |flat|
  {
    if segs == [] then mem
    else
      var last := segs[|segs| - 1];
      assert last in segs && last.start <= last.End();
      Written(a, Replayed(a, mem, flat, segs[..|segs| - 1]), last.start, flat[last.start..last.End()])
  }

  /** The loader lets the segment pass. */
  predicate Accepts(rom: Rom, a: Args, s: Seg) { !Rejects(rom, a.Addr(s.start), a.Addr(s.End())) }

  ghost predicate AllAccepted(rom: Rom, a: Args, segs: seq<Seg>) {
    forall s :: s in segs ==> Accepts(rom, a, s)
  }

  /** A loader made for the stream: its command words and its word size. */
  predicate Fits(rom: Rom, a: Args) {
    rom.dump == CMD_DUMP && rom.erase == CMD_ERASE && rom.execute == CMD_EXECUTE
    && rom.stride == a.Bytewidth() && a.Good()
  }

  lemma BootDump(rom: Rom, a: Args, ws: seq<Option<nat>>, s: Seg, tail: seq<nat>, mem: map<nat, nat>)
    requires Fits(rom, a) && s.End() <= |ws|
    ensures Boot(rom, DumpOne(a, ws, s) + tail, mem)
         == if !Accepts(rom, a, s) then Trap
            else Boot(rom, tail, Written(a, mem, s.start, FlatWords(ws, a.default)[s.start..s.End()]))
  {
    var fs := FlatWords(ws[s.start..s.End()], a.default);
    var input := DumpOne(a, ws, s) + tail;
    assert input[0] == CMD_DUMP && input[1] == a.Addr(s.start) && input[2] == a.Addr(s.End());
    assert input[3..] == fs + tail;
    assert fs == FlatWords(ws, a.default)[s.start..s.End()];
    if Accepts(rom, a, s) {
      AddrOrder(a, s.start, s.End());
      BurstWrites(a, mem, s.start, fs, tail);
    }
  }

  lemma BootErase(rom: Rom, a: Args, ws: seq<Option<nat>>, s: Seg, tail: seq<nat>, mem: map<nat, nat>)
    requires Fits(rom, a) && s.End() <= |ws| && AllBlank(ws, s.start, s.End())
    ensures Boot(rom, EraseOne(a, s) + tail, mem)
         == if !Accepts(rom, a, s) then Trap
            else Boot(rom, tail, Written(a, mem, s.start, FlatWords(ws, a.default)[s.start..s.End()]))
  {
    var input := EraseOne(a, s) + tail;
    assert input[0] == CMD_ERASE && input[1] == a.Addr(s.start) && input[2] == a.Addr(s.End());
    assert input[3] == a.default && input[4..] == tail;
    if Accepts(rom, a, s) {
      AddrOrder(a, s.start, s.End());
      FillWrites(a, mem, s.start, s.len, a.default);
      assert FlatWords(ws, a.default)[s.start..s.End()] == seq(s.len, i => a.default);
    }
  }

  lemma {:induction false} BootDumps(rom: Rom, a: Args, ws: seq<Option<nat>>, segs: seq<Seg>,
                                     tail: seq<nat>, mem: map<nat, nat>)
    requires Fits(rom, a) && forall s :: s in segs ==> s.End() <= |ws|
    ensures Boot(rom, Dumps(a, ws, segs) + tail, mem)
         == if !AllAccepted(rom, a, segs) then Trap
            else Boot(rom, tail, Replayed(a, mem, FlatWords(ws, a.default), segs))
    decreases |segs|
  {
    if segs == [] {
      assert Dumps(a, ws, segs) + tail == tail;
    } else {
      var init, last := segs[..|segs| - 1], segs[|segs| - 1];
      assert segs == init + [last];
      var tail' := DumpOne(a, ws, last) + tail;
      assert Dumps(a, ws, segs) + tail == Dumps(a, ws, init) + tail';
      hide Boot, Dumps, DumpOne, Accepts, FlatWords, Fits;
      BootDumps(rom, a, ws, init, tail', mem);
      if AllAccepted(rom, a, init) {
        BootDump(rom, a, ws, last, tail, Replayed(a, mem, FlatWords(ws, a.default), init));
      }
    }
  }

  lemma {:induction false} BootErases(rom: Rom, a: Args, ws: seq<Option<nat>>, segs: seq<Seg>,
                                      tail: seq<nat>, mem: map<nat, nat>)
    requires Fits(rom, a)
    requires forall s :: s in segs ==> s.End() <= |ws| && AllBlank(ws, s.start, s.End())
    ensures Boot(rom, Erases(a, segs) + tail, mem)
         == if !AllAccepted(rom, a, segs) then Trap
            else Boot(rom, tail, Replayed(a, mem, FlatWords(ws, a.default), segs))
    decreases |segs|
  {
    if segs == [] {
      assert Erases(a, segs) + tail == tail;
    } else {
      var init, last := segs[..|segs| - 1], segs[|segs| - 1];
      assert segs == init + [last];
      var tail' := EraseOne(a, last) + tail;
      assert Erases(a, segs) + tail == Erases(a, init) + tail';
      hide Boot, Erases, EraseOne, Accepts, FlatWords, Fits, AllBlank;
      BootErases(rom, a, ws, init, tail', mem);
      if AllAccepted(rom, a, init) {
        BootErase(rom, a, ws, last, tail, Replayed(a, mem, FlatWords(ws, a.default), init));
      }
    }
  }

  // ---------------------------------------------------------- what memory holds

  /** The indices from `lo` up to `hi`. */
  function Span(lo: nat, hi: nat): (r: set<nat>)
    ensures forall i :: i in r <==> lo <= i < hi
    decreases hi
  {
    if lo < hi then Span(lo, hi - 1) + {hi - 1} else {}
  }

  function Range(s: Seg): set<nat> { Span(s.start, s.End()) }

  /** The word indices that some segment covers. */
  function Cover(segs: seq<Seg>): set<nat> {
    if segs == [] then {} else Cover(segs[..|segs| - 1]) + Range(segs[|segs| - 1])
  }

  /** `mem` is `mem0` with the words `done` of `flat` stored at their addresses, and
      nothing else changed. */
  ghost predicate Holds(a: Args, mem0: map<nat, nat>, mem: map<nat, nat>, flat: seq<nat>, done: set<nat>) {
    && (forall i :: i in done ==> i < |flat| && a.Addr(i) in mem && mem[a.Addr(i)] == flat[i])
    && (forall x: nat :: (forall i :: i in done ==> x != a.Addr(i)) ==>
          (x in mem <==> x in mem0) && (x in mem ==> mem[x] == mem0[x]))
  }

  lemma StoreHolds(a: Args, mem0: map<nat, nat>, mem: map<nat, nat>, flat: seq<nat>, done: set<nat>, k: nat)
    requires a.Bytewidth() > 0 && k < |flat| && Holds(a, mem0, mem, flat, done)
    ensures Holds(a, mem0, mem[a.Addr(k) := flat[k]], flat, done + {k})
  {
    forall i | i in done && i != k ensures a.Addr(i) != a.Addr(k) { AddrOrder(a, i, k); AddrOrder(a, k, i); }
    hide Args.Addr;
    var mem' := mem[a.Addr(k) := flat[k]];
    forall x: nat | forall i :: i in done + {k} ==> x != a.Addr(i)
      ensures (x in mem' <==> x in mem0) && (x in mem' ==> mem'[x] == mem0[x])
    {
      assert k in done + {k};
      assert forall i :: i in done ==> i in done + {k};
    }
  }

  lemma {:induction false} WrittenHolds(a: Args, mem0: map<nat, nat>, mem: map<nat, nat>, flat: seq<nat>,
                                        done: set<nat>, s: nat, e: nat)
    requires a.Bytewidth() > 0 && s <= e <= |flat| && Holds(a, mem0, mem, flat, done)
    ensures Holds(a, mem0, Written(a, mem, s, flat[s..e]), flat, done + Span(s, e))
    decreases e - s
  {
    hide Holds;
    if s == e {
      assert done + Span(s, e) == done;
    } else {
      StoreHolds(a, mem0, mem, flat, done, s);
      WrittenHolds(a, mem0, mem[a.Addr(s) := flat[s]], flat, done + {s}, s + 1, e);
      assert flat[s..e][1..] == flat[s + 1..e];
      assert done + {s} + Span(s + 1, e) == done + Span(s, e);
    }
  }

  lemma {:induction false} ReplayedHolds(a: Args, mem0: map<nat, nat>, mem: map<nat, nat>, flat: seq<nat>,
                                         done: set<nat>, segs: seq<Seg>)
    requires a.Bytewidth() > 0 && Holds(a, mem0, mem, flat, done)
    requires forall s :: s in segs ==> s.End() <= |flat|
    ensures Holds(a, mem0, Replayed(a, mem, flat, segs), flat, done + Cover(segs))
    decreases |segs|
  {
    hide Holds, Written;
    if segs == [] {
      assert done + Cover(segs) == done;
    } else {
      var init, last := segs[..|segs| - 1], segs[|segs| - 1];
      ReplayedHolds(a, mem0, mem, flat, done, init);
      WrittenHolds(a, mem0, Replayed(a, mem, flat, init), flat, done + Cover(init), last.start, last.End());
      assert done + Cover(init) + Range(last) == done + Cover(segs);
    }
  }

  // ------------------------------------------------------------------ coverage

  lemma StartInBounds(ws: seq<Option<nat>>, k: nat, segs: seq<Seg>, x: nat)
    requires Segmented(ws, k, segs) && x < |segs|
    ensures segs[x].start < segs[x].End() <= |ws|
  {
    assert SegOk(ws, k, segs[x]);
  }

  /** Segments and gaps up to the start of segment `x` tile everything before it. */
  lemma {:induction false} PrefixTiled(ws: seq<Option<nat>>, k: nat, segs: seq<Seg>, x: nat)
    requires Segmented(ws, k, segs) && x < |segs|
    ensures Cover(segs[..x]) + Cover(Gaps(segs, |ws|, x + 1)) == Span(0, segs[x].start)
    ensures Cover(segs[..x]) !! Cover(Gaps(segs, |ws|, x + 1))
  {
    StartInBounds(ws, k, segs, x);
    if x == 0 {
      FirstTile(segs, |ws|);
    } else {
      PrefixTiled(ws, k, segs, x - 1);
      SegmentOrder(ws, k, segs, x);
      hide Segmented, Gaps, Cover, Span;
      NextTile(segs, |ws|, x);
    }
  }

  lemma SegmentOrder(ws: seq<Option<nat>>, k: nat, segs: seq<Seg>, x: nat)
    requires Segmented(ws, k, segs) && 0 < x < |segs|
    ensures segs[x - 1].start < segs[x - 1].End() <= segs[x - 1].End() + k <= segs[x].start
  {
    StartInBounds(ws, k, segs, x - 1);
    var z := x - 1;
    assert segs[z].End() + k <= segs[z + 1].start;
  }

  lemma FirstTile(segs: seq<Seg>, n: nat)
    requires segs != []
    ensures Cover(segs[..0]) + Cover(Gaps(segs, n, 1)) == Span(0, segs[0].start)
    ensures Cover(segs[..0]) !! Cover(Gaps(segs, n, 1))
  {
    GapCover(segs, n, 0);
    NoGaps(segs, n);
    hide Gaps, Span;
  }

  lemma NextTile(segs: seq<Seg>, n: nat, x: nat)
    requires 0 < x < |segs| && segs[x - 1].End() <= segs[x].start
    requires Cover(segs[..x - 1]) + Cover(Gaps(segs, n, x)) == Span(0, segs[x - 1].start)
    requires Cover(segs[..x - 1]) !! Cover(Gaps(segs, n, x))
    ensures Cover(segs[..x]) + Cover(Gaps(segs, n, x + 1)) == Span(0, segs[x].start)
    ensures Cover(segs[..x]) !! Cover(Gaps(segs, n, x + 1))
  {
    var y := x - 1;
    GapCover(segs, n, x);
    CoverStep(segs[..x]);
    assert segs[..x][..y] == segs[..y] && segs[..x][y] == segs[y];
    hide Gaps, Cover, Span;
    TileStep(Cover(segs[..y]), Cover(Gaps(segs, n, x)), segs[y].start, segs[y].End(), segs[x].start);
  }

  lemma CoverStep(segs: seq<Seg>)
    requires segs != []
    ensures var last := segs[|segs| - 1];
            Cover(segs) == Cover(segs[..|segs| - 1]) + Span(last.start, last.End())
  {
  }

  /** A segment and then a gap continue a tiling. */
  lemma TileStep(dumped: set<nat>, erased: set<nat>, lo: nat, mid: nat, hi: nat)
    requires dumped + erased == Span(0, lo) && dumped !! erased && lo <= mid <= hi
    ensures (dumped + Span(lo, mid)) + (erased + Span(mid, hi)) == Span(0, hi)
    ensures (dumped + Span(lo, mid)) !! (erased + Span(mid, hi))
  {
    assert forall i :: i in dumped + erased ==> i < lo;
    hide Span;
  }

  lemma NoGaps(segs: seq<Seg>, n: nat)
    ensures Cover(Gaps(segs, n, 0)) == {}
  {
  }

  lemma GapCover(segs: seq<Seg>, n: nat, x: nat)
    requires x <= |segs|
    ensures var g := GapBefore(segs, n, x);
            Cover(Gaps(segs, n, x + 1)) == Cover(Gaps(segs, n, x)) + Span(g.start, g.End())
  {
    var before, g := Gaps(segs, n, x), GapBefore(segs, n, x);
    if g.len > 0 {
      assert (before + [g])[..|before|] == before;
    } else {
      assert before + [] == before && Span(g.start, g.End()) == {};
    }
  }

  /** Dump segments and erase segments are disjoint and cover the image exactly. */
  lemma Tiled(ws: seq<Option<nat>>, k: nat, segs: seq<Seg>)
    requires Segmented(ws, k, segs)
    ensures var dumped, erased := Cover(segs), Cover(Gaps(segs, |ws|, |segs| + 1));
            dumped + erased == Span(0, |ws|) && dumped !! erased
  {
    var x := |segs| - 1;
    PrefixTiled(ws, k, segs, x);
    GapCover(segs, |ws|, |segs|);
    CoverStep(segs);
    assert segs[x].End() <= |ws|;
    hide Segmented, Gaps, Cover, Span;
    TileStep(Cover(segs[..x]), Cover(Gaps(segs, |ws|, |segs|)), segs[x].start, segs[x].End(), |ws|);
  }

  /** Erase segments lie within the image and contain only blanks. */
  lemma {:induction false} GapsBlank(ws: seq<Option<nat>>, k: nat, segs: seq<Seg>, x: nat)
    requires Segmented(ws, k, segs) && x <= |segs| + 1
    ensures forall g :: g in Gaps(segs, |ws|, x) ==>
              g.len > 0 && g.End() <= |ws| && AllBlank(ws, g.start, g.End())
  {
    if x > 0 {
      GapsBlank(ws, k, segs, x - 1);
      OneGapBlank(ws, k, segs, x - 1);
      hide AllBlank, GapBefore;
    }
  }

  lemma OneGapBlank(ws: seq<Option<nat>>, k: nat, segs: seq<Seg>, x: nat)
    requires Segmented(ws, k, segs) && x <= |segs|
    ensures var g := GapBefore(segs, |ws|, x);
            g.len > 0 ==> g.End() <= |ws| && AllBlank(ws, g.start, g.End())
  {
    hide AllBlank, SegOk;
    if x < |segs| {
      StartInBounds(ws, k, segs, x);
      if x > 0 {
        var y := x - 1;
        assert AllBlank(ws, segs[y].End(), segs[y + 1].start);
      }
    }
  }

  /** No undefined word is lost in a gap: what is defined is dumped. */
  lemma DefinedIsDumped(ws: seq<Option<nat>>, k: nat, segs: seq<Seg>, i: nat)
    requires Segmented(ws, k, segs) && i < |ws| && ws[i].Some?
    ensures i in Cover(segs)
  {
    Tiled(ws, k, segs);
    assert i in Span(0, |ws|);
    if i !in Cover(segs) {
      GapsBlank(ws, k, segs, |segs| + 1);
      var g := Covering(Gaps(segs, |ws|, |segs| + 1), i);
    }
  }

  lemma {:induction false} Covering(segs: seq<Seg>, i: nat) returns (s: Seg)
    requires i in Cover(segs)
    ensures s in segs && s.start <= i < s.End()
  {
    var last := segs[|segs| - 1];
    if i in Range(last) { s := last; } else { s := Covering(segs[..|segs| - 1], i); }
  }

  // -------------------------------------------------------------- the theorems

  /** A loader made for the stream executes it exactly if it accepts all segments.
      Memory then holds the words of the flat dump -- all of them if gaps are erased,
      the dumped ones otherwise -- and is otherwise unchanged. */
  lemma Replay(rom: Rom, a: Args, ws: seq<Option<nat>>, k: nat, segs: seq<Seg>, erase: bool,
               mem0: map<nat, nat>)
    requires Fits(rom, a) && Segmented(ws, k, segs)
    ensures forall s :: s in segs ==> s.End() <= |ws|
    ensures var gaps := Gaps(segs, |ws|, |segs| + 1);
            var all := AllAccepted(rom, a, segs) && (erase ==> AllAccepted(rom, a, gaps));
            var out := Boot(rom, Stream(a, ws, segs, erase), mem0);
            if all then out.Running? &&
              Holds(a, mem0, out.mem, FlatWords(ws, a.default), if erase then Span(0, |ws|) else Cover(segs))
            else out == Trap
  {
    InBounds(ws, k, segs);
    GapsBlank(ws, k, segs, |segs| + 1);
    var gaps := Gaps(segs, |ws|, |segs| + 1);
    hide Gaps;
    StreamBoots(rom, a, ws, segs, gaps, erase, mem0);
    var flat := FlatWords(ws, a.default);
    Tiled(ws, k, segs);
    hide Boot, Segmented, Holds, AllBlank, FlatWords, Cover, Span, Stream, Accepts, Dumps, Erases;
    NothingHolds(a, mem0, flat);
    ReplayedHolds(a, mem0, mem0, flat, {}, segs);
    assert {} + Cover(segs) == Cover(segs);
    ReplayedHolds(a, mem0, Replayed(a, mem0, flat, segs), flat, Cover(segs), gaps);
  }

  /** What a loader made for the stream has in memory, byte by byte: every byte that the file defines in
      the range of the image, and with erased gaps the bytes of the default word for all others. */
  lemma LoadedBytes(rom: Rom, h: HexFile, a: Args, ws: seq<Option<nat>>, k: nat, segs: seq<Seg>, erase: bool,
                    mem0: map<nat, nat>, i: nat, j: nat)
    requires Fits(rom, a) && 8 * j < a.width && i < |ws|
    requires ws == Words(h, a, a.NumWords()) && Segmented(ws, k, segs)
    requires AllAccepted(rom, a, segs) && (erase ==> AllAccepted(rom, a, Gaps(segs, |ws|, |segs| + 1)))
    requires erase || a.Addr(i) + j in h
    ensures (forall s :: s in segs ==> s.End() <= |ws|) && rom.stride > 0
    ensures var out := Boot(rom, Stream(a, ws, segs, erase), mem0);
            var x, word := a.startAddr + i * (a.width / 8) + j, a.startAddr + i * (a.width / 8);
            && out.Running? && word in out.mem
            && ByteOf(out.mem[word], j) == if x in h then h[x] else ByteOf(a.default, j)
  {
    hide Segmented, AllAccepted, Boot, Stream, Cover, Gaps, Words, FlatWords, ByteOf, Holds, Span, Fits;
    var flat := FlatWords(ws, a.default);
    Replay(rom, a, ws, k, segs, erase, mem0);
    WordAddr(rom, a, i);
    FlatBytes(h, a, a.NumWords(), i, j);
    if !erase {
      WordGiven(h, a, i, j);
      DefinedIsDumped(ws, k, segs, i);
    }
    var out := Boot(rom, Stream(a, ws, segs, erase), mem0);
    HoldsWord(a, mem0, out.mem, flat, if erase then Span(0, |ws|) else Cover(segs), i);
  }

  lemma WordAddr(rom: Rom, a: Args, i: nat)
    requires Fits(rom, a)
    ensures rom.stride > 0 && a.GoodWidth() && a.Addr(i) == a.startAddr + i * (a.width / 8)
  {
  }

  lemma HoldsWord(a: Args, mem0: map<nat, nat>, mem: map<nat, nat>, flat: seq<nat>, done: set<nat>, i: nat)
    requires Holds(a, mem0, mem, flat, done) && i in done
    ensures i < |flat| && a.Addr(i) in mem && mem[a.Addr(i)] == flat[i]
  {
  }

  lemma WordGiven(h: HexFile, a: Args, i: nat, j: nat)
    requires a.GoodWidth() && i < a.NumWords() && 8 * j < a.width && a.Addr(i) + j in h
    ensures Words(h, a, a.NumWords())[i].Some?
  {
    assert j < a.Bytewidth();
  }

  lemma NothingHolds(a: Args, mem0: map<nat, nat>, flat: seq<nat>)
    ensures Holds(a, mem0, mem0, flat, {})
  {
  }

  lemma StreamBoots(rom: Rom, a: Args, ws: seq<Option<nat>>, segs: seq<Seg>, gaps: seq<Seg>, erase: bool,
                    mem0: map<nat, nat>)
    requires Fits(rom, a) && gaps == Gaps(segs, |ws|, |segs| + 1)
    requires forall s :: s in segs ==> s.End() <= |ws|
    requires forall s :: s in gaps ==> s.End() <= |ws| && AllBlank(ws, s.start, s.End())
    ensures var flat := FlatWords(ws, a.default);
            var dumped := Replayed(a, mem0, flat, segs);
            Boot(rom, Stream(a, ws, segs, erase), mem0) ==
            (if AllAccepted(rom, a, segs) && (erase ==> AllAccepted(rom, a, gaps))
             then Running(if erase then Replayed(a, dumped, flat, gaps) else dumped)
             else Trap)
  {
    var flat := FlatWords(ws, a.default);
    var mid := if erase then Erases(a, gaps) else [];
    assert Stream(a, ws, segs, erase) == Dumps(a, ws, segs) + (mid + [CMD_EXECUTE]);
    var dumped := Replayed(a, mem0, flat, segs);
    Executes(rom, dumped);
    Executes(rom, Replayed(a, dumped, flat, gaps));
    hide Boot, Stream, Dumps, Erases, Accepts, Gaps, FlatWords, AllBlank;
    BootDumps(rom, a, ws, segs, mid + [CMD_EXECUTE], mem0);
    if erase {
      BootErases(rom, a, ws, gaps, [CMD_EXECUTE], dumped);
    } else {
      assert mid + [CMD_EXECUTE] == [CMD_EXECUTE];
    }
  }

  lemma Executes(rom: Rom, mem: map<nat, nat>)
    requires rom.stride > 0 && rom.execute == CMD_EXECUTE && rom.dump == CMD_DUMP && rom.erase == CMD_ERASE
    ensures Boot(rom, [CMD_EXECUTE], mem) == Running(mem)
  {
  }

  /** All erase segments are gaps, and every non-empty gap is erased. */
  lemma {:induction false} GapListed(segs: seq<Seg>, n: nat, x: nat, y: nat)
    requires x < y <= |segs| + 1 && GapBefore(segs, n, x).len > 0
    ensures GapBefore(segs, n, x) in Gaps(segs, n, y)
  {
    if x + 1 < y { GapListed(segs, n, x, y - 1); }
  }

  lemma AcceptsWithin(rom: Rom, a: Args, s: Seg, lo: nat, hi: nat)
    requires a.Good() && s.len > 0 && lo <= s.start && s.End() <= hi
    requires rom.lo <= a.Addr(lo) && a.Addr(hi) <= rom.hi
    ensures Accepts(rom, a, s)
  {
    AddrOrder(a, lo, s.start);
    AddrOrder(a, s.start, s.End());
    AddrOrder(a, s.End(), hi);
  }

  lemma {:induction false} SegmentsBetween(ws: seq<Option<nat>>, k: nat, segs: seq<Seg>, x: nat, y: nat)
    requires Segmented(ws, k, segs) && x <= y < |segs|
    ensures segs[x].start <= segs[y].start && segs[x].End() <= segs[y].End()
    decreases y - x
  {
    if x < y {
      SegmentsBetween(ws, k, segs, x, y - 1);
      SegmentOrder(ws, k, segs, y);
      StartInBounds(ws, k, segs, y);
    }
  }

  /** Without erasing, the stream is executed exactly if the dumped part of the image
      lies in the loader's range. */
  lemma DumpsAcceptedExactly(rom: Rom, a: Args, ws: seq<Option<nat>>, k: nat, segs: seq<Seg>)
    requires a.Good() && Segmented(ws, k, segs)
    ensures AllAccepted(rom, a, segs) <==>
            rom.lo <= a.Addr(segs[0].start) && a.Addr(segs[|segs| - 1].End()) <= rom.hi
  {
    var last := |segs| - 1;
    if rom.lo <= a.Addr(segs[0].start) && a.Addr(segs[last].End()) <= rom.hi {
      forall s | s in segs ensures Accepts(rom, a, s) {
        var x :| 0 <= x < |segs| && segs[x] == s;
        SegmentsBetween(ws, k, segs, 0, x);
        SegmentsBetween(ws, k, segs, x, last);
        StartInBounds(ws, k, segs, x);
        hide Segmented, Args.Addr, Accepts;
        AcceptsWithin(rom, a, s, segs[0].start, segs[last].End());
      }
    } else {
      hide Segmented, Args.Addr;
      assert segs[0] in segs && segs[last] in segs;
    }
  }

  /** With erasing, the stream is executed exactly if the whole image does: whatever
      the file defines, its first and last words are dumped or erased. */
  lemma ErasedAcceptedExactly(rom: Rom, a: Args, ws: seq<Option<nat>>, k: nat, segs: seq<Seg>)
    requires a.Good() && Segmented(ws, k, segs) && |ws| == a.NumWords()
    ensures AllAccepted(rom, a, segs) && AllAccepted(rom, a, Gaps(segs, |ws|, |segs| + 1)) <==>
            rom.lo <= a.startAddr && a.startAddr + a.size <= rom.hi
  {
    EndAddr(a);
    assert a.Addr(0) == a.startAddr;
    InBounds(ws, k, segs);
    GapsBlank(ws, k, segs, |segs| + 1);
    assert Ends(segs, |ws|) by { EndsCovered(ws, k, segs); }
    StartInBounds(ws, k, segs, 0);
    StartInBounds(ws, k, segs, |segs| - 1);
    hide Gaps, Args.Addr, Args.NumWords, Args.Good, Ends;
    if rom.lo <= a.startAddr && a.startAddr + a.size <= rom.hi {
      WithinAccepted(rom, a, ws, k, segs);
    } else if AllAccepted(rom, a, segs) && AllAccepted(rom, a, Gaps(segs, |ws|, |segs| + 1)) {
      AcceptedEnds(rom, a, segs, |ws|);
    }
  }

  /** Some segment or gap begins the image, and some segment or gap ends it. */
  ghost predicate Ends(segs: seq<Seg>, n: nat) {
    var all := segs + Gaps(segs, n, |segs| + 1);
    (exists s :: s in all && s.start == 0) && (exists s :: s in all && s.End() == n)
  }

  lemma EndsCovered(ws: seq<Option<nat>>, k: nat, segs: seq<Seg>)
    requires Segmented(ws, k, segs)
    ensures Ends(segs, |ws|)
  {
    var n, last := |ws|, |segs| - 1;
    var all := segs + Gaps(segs, n, |segs| + 1);
    StartInBounds(ws, k, segs, last);
    if segs[0].start > 0 { GapListed(segs, n, 0, |segs| + 1); }
    if segs[last].End() < n { GapListed(segs, n, |segs|, |segs| + 1); }
    hide Gaps, Segmented;
    var first := if segs[0].start > 0 then GapBefore(segs, n, 0) else segs[0];
    var final := if segs[last].End() < n then GapBefore(segs, n, |segs|) else segs[last];
    assert first in all && first.start == 0;
    assert final in all && final.End() == n;
  }

  lemma AcceptedEnds(rom: Rom, a: Args, segs: seq<Seg>, n: nat)
    requires AllAccepted(rom, a, segs) && AllAccepted(rom, a, Gaps(segs, n, |segs| + 1)) && Ends(segs, n)
    ensures rom.lo <= a.Addr(0) && a.Addr(n) <= rom.hi
  {
    hide Gaps, Args.Addr;
    var all := segs + Gaps(segs, n, |segs| + 1);
    assert AllAccepted(rom, a, all);
    var first :| first in all && first.start == 0;
    var final :| final in all && final.End() == n;
    assert Accepts(rom, a, first) && Accepts(rom, a, final);
  }

  lemma WithinAccepted(rom: Rom, a: Args, ws: seq<Option<nat>>, k: nat, segs: seq<Seg>)
    requires a.Good() && Segmented(ws, k, segs)
    requires rom.lo <= a.Addr(0) && a.Addr(|ws|) <= rom.hi
    ensures AllAccepted(rom, a, segs) && AllAccepted(rom, a, Gaps(segs, |ws|, |segs| + 1))
  {
    GapsBlank(ws, k, segs, |segs| + 1);
    forall x | 0 <= x < |segs| ensures segs[x].len > 0 && segs[x].End() <= |ws| {
      StartInBounds(ws, k, segs, x);
    }
    hide Gaps, Segmented, Args.Addr, Args.Good, Accepts;
    forall s | s in segs + Gaps(segs, |ws|, |segs| + 1) ensures Accepts(rom, a, s) {
      AcceptsWithin(rom, a, s, 0, |ws|);
    }
  }

  // ------------------------------------------------------- the loader in the ROM

  const RAM0_BASE_ADDR: nat := 0x8000
  const RAM_SIZE: nat := 0x8000

  /** The loader of `start.S`: 32-bit words, its own command words, and RAM without
      its last word as the range for segment ends. */
  function BootRom(): Rom {
    Rom(0x10ADBEEF, 0xDEADBEEF, 0xCAFEBABE, RAM0_BASE_ADDR, RAM0_BASE_ADDR + RAM_SIZE - 4, 4)
  }

  /** The same loader with the command words the script writes. */
  function BootRomWithScriptCommands(): Rom {
    BootRom().(dump := CMD_DUMP, erase := CMD_ERASE, execute := CMD_EXECUTE)
  }

  /** The loader in the ROM traps on every stream the script writes: it knows none of
      the script's command words. */
  lemma {:induction false} BootRomTrapsOnScript(a: Args, ws: seq<Option<nat>>, k: nat, segs: seq<Seg>,
                                                erase: bool, mem: map<nat, nat>)
    requires Segmented(ws, k, segs)
    ensures forall s :: s in segs ==> s.End() <= |ws|
    ensures Boot(BootRom(), Stream(a, ws, segs, erase), mem) == Trap
  {
    InBounds(ws, k, segs);
    StartsWithDump(a, ws, segs);
    assert Stream(a, ws, segs, erase)[0] == CMD_DUMP;
  }

  lemma {:induction false} StartsWithDump(a: Args, ws: seq<Option<nat>>, segs: seq<Seg>)
    requires segs != [] && forall s :: s in segs ==> s.End() <= |ws|
    ensures Dumps(a, ws, segs) != [] && Dumps(a, ws, segs)[0] == CMD_DUMP
  {
    if |segs| > 1 { StartsWithDump(a, ws, segs[..|segs| - 1]); }
  }

  /** Even with the script's command words, an image of the whole RAM is never loaded
      with erasing on: its last segment ends where RAM ends, one word beyond what the
      loader accepts.  One word less is enough. */
  lemma WholeRamTraps(a: Args, ws: seq<Option<nat>>, k: nat, segs: seq<Seg>, mem: map<nat, nat>)
    requires a.Good() && a.width == 32 && Segmented(ws, k, segs) && |ws| == a.NumWords()
    requires a.startAddr == RAM0_BASE_ADDR
    ensures forall s :: s in segs ==> s.End() <= |ws|
    ensures Boot(BootRomWithScriptCommands(), Stream(a, ws, segs, true), mem) != Trap <==> a.size <= RAM_SIZE - 4
  {
    var rom := BootRomWithScriptCommands();
    Replay(rom, a, ws, k, segs, true, mem);
    ErasedAcceptedExactly(rom, a, ws, k, segs);
    hide Boot, Stream, Segmented, Gaps, Holds;
  }
}
