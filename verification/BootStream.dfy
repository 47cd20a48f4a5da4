/** The command stream that `python/ihex2rcf.py` writes for a boot loader, and the
    loader in `gcc/bootrom/src/start.S` that reads such streams. */
module BootStream {
  import opened Arith
  import opened RcfImage

  const CMD_DUMP: nat := 0x831D2F7C
  const CMD_ERASE: nat := 0xDBE556E8
  const CMD_EXECUTE: nat := 0xAE3BF97C

  // ------------------------------------------------------------------- writing

  function DumpOne(a: Args, ws: seq<Option<nat>>, s: Seg): seq<nat>
    requires s.End() <= |ws|
  {
    [CMD_DUMP, a.Addr(s.start), a.Addr(s.End())] + FlatWords(ws[s.start..s.End()], a.default)
  }

  function Dumps(a: Args, ws: seq<Option<nat>>, segs: seq<Seg>): seq<nat>
    requires forall s :: s in segs ==> s.End() <= |ws|
  {
    if segs == [] then []
    else Dumps(a, ws, segs[..|segs| - 1]) + DumpOne(a, ws, segs[|segs| - 1])
  }

  function EraseOne(a: Args, s: Seg): seq<nat> {
    [CMD_ERASE, a.Addr(s.start), a.Addr(s.End()), a.default]
  }

  function Erases(a: Args, segs: seq<Seg>): seq<nat> {
    if segs == [] then [] else Erases(a, segs[..|segs| - 1]) + EraseOne(a, segs[|segs| - 1])
  }

  /** The gap before segment `x`; the one after the last counts as number |segs|. */
  function GapBefore(segs: seq<Seg>, n: nat, x: nat): Seg
    requires x <= |segs|
  {
    var lo := if x == 0 then 0 else segs[x - 1].End();
    var hi := if x == |segs| then n else segs[x].start;
    Seg(lo, if lo <= hi then hi - lo else 0)
  }

  /** The non-empty ones among the first `x` gaps. */
  function Gaps(segs: seq<Seg>, n: nat, x: nat): seq<Seg>
    requires x <= |segs| + 1
  {
    if x == 0 then []
    else
      var g := GapBefore(segs, n, x - 1);
      Gaps(segs, n, x - 1) + if g.len > 0 then [g] else []
  }

  function Stream(a: Args, ws: seq<Option<nat>>, segs: seq<Seg>, erase: bool): seq<nat>
    requires forall s :: s in segs ==> s.End() <= |ws|
  {
    Dumps(a, ws, segs)
    + (if erase then Erases(a, Gaps(segs, |ws|, |segs| + 1)) else [])
    + [CMD_EXECUTE]
  }

  /** The dump part of the output. */
  method WriteDumps(a: Args, ws: seq<Option<nat>>, segs: seq<Seg>) returns (s: seq<nat>)
    requires forall seg :: seg in segs ==> seg.End() <= |ws|
    ensures s == Dumps(a, ws, segs)
  {
    s := [];
    for x := 0 to |segs|
      invariant s == Dumps(a, ws, segs[..x])
    {
      var seg := segs[x];
      ghost var before := s;
      s := s + [CMD_DUMP];
      s := s + [a.Addr(seg.start)];
      s := s + [a.Addr(seg.End())];
      for i := seg.start to seg.End()
        invariant s == before + [CMD_DUMP, a.Addr(seg.start), a.Addr(seg.End())]
                     + FlatWords(ws[seg.start..i], a.default)
      {
        assert ws[seg.start..i + 1] == ws[seg.start..i] + [ws[i]];
        s := s + [if ws[i].None? then a.default else ws[i].value];
      }
      assert s == before + DumpOne(a, ws, seg);
      assert segs[..x + 1][..x] == segs[..x];
    }
    assert segs[..|segs|] == segs;
  }

  lemma InBounds(ws: seq<Option<nat>>, k: nat, segs: seq<Seg>)
    requires Segmented(ws, k, segs)
    ensures forall s :: s in segs ==> s.End() <= |ws|
  {
    hide SegOk, AllBlank;
  }

  /** The gap before the first segment is erased unless it is empty. */
  lemma FirstGap(a: Args, segs: seq<Seg>, n: nat)
    requires segs != []
    ensures Erases(a, Gaps(segs, n, 1))
         == if segs[0].start != 0 then [] + [CMD_ERASE, a.Addr(0), a.Addr(segs[0].start), a.default] else []
  {
    assert Gaps(segs, n, 0) == [];
    var g := GapBefore(segs, n, 0);
    if g.len > 0 {
      assert Gaps(segs, n, 1) == [] + [g];
      ErasesAppend(a, [], g);
    }
  }

  /** A gap between two segments is always erased. */
  lemma MiddleGap(a: Args, ws: seq<Option<nat>>, k: nat, segs: seq<Seg>, x: nat)
    requires k > 0 && Segmented(ws, k, segs) && 0 < x < |segs|
    ensures Erases(a, Gaps(segs, |ws|, x + 1))
         == Erases(a, Gaps(segs, |ws|, x))
            + [CMD_ERASE, a.Addr(segs[x - 1].End()), a.Addr(segs[x].start), a.default]
  {
    hide SegOk, AllBlank, Erases;
    var y := x - 1;
    assert segs[y].End() + k <= segs[y + 1].start;
    ErasesAppend(a, Gaps(segs, |ws|, x), GapBefore(segs, |ws|, x));
  }

  /** The gap after the last segment is erased unless it is empty. */
  lemma LastGap(a: Args, segs: seq<Seg>, n: nat)
    requires a.Good() && segs != [] && n == a.NumWords()
    ensures var e := segs[|segs| - 1].End();
            var before := Erases(a, Gaps(segs, n, |segs|));
            Erases(a, Gaps(segs, n, |segs| + 1)) ==
            (if e < n then before + [CMD_ERASE, a.Addr(e), a.startAddr + a.size, a.default] else before)
  {
    EndAddr(a);
    hide Erases, Args.NumWords;
    assert Gaps(segs, n, |segs|) + [] == Gaps(segs, n, |segs|);
    ErasesAppend(a, Gaps(segs, n, |segs|), GapBefore(segs, n, |segs|));
  }

  /** The erase part of the output. */
  method WriteErases(a: Args, ws: seq<Option<nat>>, k: nat, segs: seq<Seg>) returns (s: seq<nat>)
    requires a.Good() && |ws| == a.NumWords() && k > 0 && Segmented(ws, k, segs)
    ensures s == Erases(a, Gaps(segs, |ws|, |segs| + 1))
  {
    assert segs != [];
    hide Gaps, Erases, Segmented, Args.Addr, Args.NumWords, Args.Good;
    FirstGap(a, segs, |ws|);
    LastGap(a, segs, |ws|);
    s := [];
    if segs[0].start != 0 {
      s := s + [CMD_ERASE, a.Addr(0), a.Addr(segs[0].start), a.default];
    }
    for x := 1 to |segs|
      invariant s == Erases(a, Gaps(segs, |ws|, x))
    {
      MiddleGap(a, ws, k, segs, x);
      s := s + [CMD_ERASE, a.Addr(segs[x - 1].End()), a.Addr(segs[x].start), a.default];
    }
    var last := segs[|segs| - 1];
    if last.End() < |ws| {
      s := s + [CMD_ERASE, a.Addr(last.End()), a.startAddr + a.size, a.default];
    }
  }

  lemma ErasesAppend(a: Args, segs: seq<Seg>, g: Seg)
    ensures Erases(a, segs + [g]) == Erases(a, segs) + EraseOne(a, g)
  {
    assert (segs + [g])[..|segs|] == segs;
  }

  lemma EndAddr(a: Args)
    requires a.Good()
    ensures a.Addr(a.NumWords()) == a.startAddr + a.size
  {
  }

  ghost predicate IsStream(a: Args, ws: seq<Option<nat>>, segs: seq<Seg>, erase: bool, r: Result<seq<nat>>)
    requires a.Good()
  {
    && Segmented(ws, 16 / a.Bytewidth(), segs)
    && (InBounds(ws, 16 / a.Bytewidth(), segs); r == Ok(Stream(a, ws, segs, erase)))
  }

  /** In bytes: at least sixteen lie between two dump segments, and a run of blank words within one
      is shorter. */
  lemma GapBytes(a: Args, ws: seq<Option<nat>>, segs: seq<Seg>, erase: bool, r: Result<seq<nat>>, x: nat,
                 lo: nat, hi: nat)
    requires a.Good() && IsStream(a, ws, segs, erase, r) && x < |segs|
    ensures x + 1 < |segs| ==> a.Addr(segs[x].End()) + 16 <= a.Addr(segs[x + 1].start)
    ensures segs[x].start <= lo <= hi <= segs[x].End() && AllBlank(ws, lo, hi) ==> a.Addr(hi) < a.Addr(lo) + 16
  {
    hide Args.Addr, Args.Bytewidth, Stream, EndsDefined, AllEndDefined;
    SixteenBytes(a);
    var k := 16 / a.Bytewidth();
    if x + 1 < |segs| {
      assert segs[x].End() + k <= segs[x + 1].start;
      WordsApart(a, k, segs[x].End(), segs[x + 1].start);
    }
    if segs[x].start <= lo <= hi <= segs[x].End() && AllBlank(ws, lo, hi) {
      assert SegOk(ws, k, segs[x]);
      WordsApart(a, k, lo, hi);
      ShortRun(ws, segs[x].start, segs[x].End(), k, lo, hi);
    }
  }

  lemma ShortRun(ws: seq<Option<nat>>, start: nat, end: nat, k: nat, lo: nat, hi: nat)
    requires NoLongGap(ws, start, end, k) && start <= lo <= hi <= end && AllBlank(ws, lo, hi)
    ensures hi < lo + k
  {
    assert lo + k <= end ==> !Gap(ws, lo, k);
  }

  lemma WordsApart(a: Args, k: nat, i: nat, j: nat)
    requires a.Bytewidth() > 0 && k * a.Bytewidth() == 16
    ensures if i + k <= j then a.Addr(i) + 16 <= a.Addr(j) else a.Addr(j) < a.Addr(i) + 16
  {
    var b := a.Bytewidth();
    assert (i + k) * b == i * b + 16 && (j + 1) * b == j * b + b;
    if i + k <= j { MulMono(i + k, j, b); } else { MulMono(j + 1, i + k, b); }
  }

  lemma SixteenBytes(a: Args)
    requires a.GoodWidth()
    ensures 16 / a.Bytewidth() * a.Bytewidth() == 16 && a.Bytewidth() > 0
  {
  }

  /** The whole script, for either mode: the words of the output, one per line. */
  method Convert(h: HexFile, a: Args, spiFlashCommands: bool, erase: bool) returns (r: Result<seq<nat>>)
    ensures !a.GoodWidth() ==> r == Err(BadWidth)
    ensures a.GoodWidth() && !a.Good() ==> r == Err(Misaligned)
    ensures a.Good() ==>
      var n := a.NumWords();
      var ws := Words(h, a, n);
      if !AllComplete(h, a, n) then r == Err(IncompleteWord)
      else if !spiFlashCommands then r == Ok(FlatWords(ws, a.default))
      else if forall i :: 0 <= i < n ==> ws[i].None? then r == Err(NothingDefined)
      else exists segs :: IsStream(a, ws, segs, erase, r)
  {
    hide Words, AllComplete, Segmented, Dumps, Erases, Gaps, FlatWords, IsStream;
    if !a.GoodWidth() { return Err(BadWidth); }
    if a.startAddr % a.Bytewidth() != 0 || a.size % a.Bytewidth() != 0 { return Err(Misaligned); }
    if !spiFlashCommands {
      r := FlatDump(h, a);
      return;
    }
    var words := CollapseWords(h, a);
    if words.Err? { return Err(words.error); }
    var ws := words.value;
    var k := 16 / a.Bytewidth();
    AtLeastTwo(a);
    var segs := FindSegments(ws, k);
    if segs.Err? { return Err(segs.error); }
    InBounds(ws, k, segs.value);
    FoundStream(a, ws, segs.value, erase);
    var dumps := WriteDumps(a, ws, segs.value);
    var s := dumps;
    if erase {
      var erases := WriteErases(a, ws, k, segs.value);
      s := s + erases;
    }
    r := Ok(s + [CMD_EXECUTE]);
  }

  lemma AtLeastTwo(a: Args)
    requires a.GoodWidth()
    ensures 16 / a.Bytewidth() > 1
  {
  }

  /** The parts of the output in order are the stream. */
  lemma FoundStream(a: Args, ws: seq<Option<nat>>, segs: seq<Seg>, erase: bool)
    requires a.Good() && Segmented(ws, 16 / a.Bytewidth(), segs)
    ensures forall s :: s in segs ==> s.End() <= |ws|
    ensures var s := if erase then Dumps(a, ws, segs) + Erases(a, Gaps(segs, |ws|, |segs| + 1))
                     else Dumps(a, ws, segs);
            IsStream(a, ws, segs, erase, Ok(s + [CMD_EXECUTE]))
  {
    hide Segmented, Dumps, Erases, Gaps;
    InBounds(ws, 16 / a.Bytewidth(), segs);
    NothingBetween(Dumps(a, ws, segs), [CMD_EXECUTE]);
  }

  lemma NothingBetween(x: seq<nat>, y: seq<nat>)
    ensures x + [] + y == x + y
  {
  }

  // ------------------------------------------------------------------- reading

  /** What a loader accepts: its command words, the range of addresses it lets a
      segment start and end in, and its word size. */
  datatype Rom = Rom(dump: nat, erase: nat, execute: nat, lo: nat, hi: nat, stride: nat)

  /** The loader jumps to the program with some memory, forces a trap, or waits for
      words that never come. */
  datatype Outcome = Running(mem: map<nat, nat>) | Trap | Starved

  /** Stores words from `addr` on until `end` is reached; at least one. */
  function Burst(mem: map<nat, nat>, addr: nat, end: nat, stride: nat, input: seq<nat>)
    : Option<(map<nat, nat>, seq<nat>)>
    decreases |input|
  {
    if input == [] then None
    else
      var mem' := mem[addr := input[0]];
      if addr + stride < end then Burst(mem', addr + stride, end, stride, input[1..])
      else Some((mem', input[1..]))
  }

  /** Stores one word from `addr` on until `end` is reached; at least once. */
  function Fill(mem: map<nat, nat>, addr: nat, end: nat, stride: nat, v: nat): map<nat, nat>
    requires stride > 0
    decreases if addr < end then end - addr else 0
  {
    var mem' := mem[addr := v];
    if addr + stride < end then Fill(mem', addr + stride, end, stride, v) else mem'
  }

  /** The segment check shared by both segment commands. */
  predicate Rejects(rom: Rom, start: nat, end: nat) {
    start >= end || start < rom.lo || rom.hi < end
  }

  /** The command loop. */
  function Boot(rom: Rom, input: seq<nat>, mem: map<nat, nat>): Outcome
    requires rom.stride > 0
    decreases |input|
  {
    if input == [] then Starved
    else if input[0] == rom.dump then
      if |input| < 3 then Starved
      else if Rejects(rom, input[1], input[2]) then Trap
      else
        var burst := Burst(mem, input[1], input[2], rom.stride, input[3..]);
        BurstConsumes(mem, input[1], input[2], rom.stride, input[3..]);
        if burst.None? then Starved else Boot(rom, burst.value.1, burst.value.0)
    else if input[0] == rom.erase then
      if |input| < 3 then Starved
      else if Rejects(rom, input[1], input[2]) then Trap
      else if |input| < 4 then Starved
      else Boot(rom, input[4..], Fill(mem, input[1], input[2], rom.stride, input[3]))
    else if input[0] == rom.execute then Running(mem)
    else Trap
  }

  lemma {:induction false} BurstConsumes(mem: map<nat, nat>, addr: nat, end: nat, stride: nat, input: seq<nat>)
    ensures var b := Burst(mem, addr, end, stride, input); b.Some? ==> |b.value.1| < |input|
    decreases |input|
  {
    if input != [] && addr + stride < end {
      BurstConsumes(mem[addr := input[0]], addr + stride, end, stride, input[1..]);
    }
  }
}
