/** `debug/rbb_daisychain.py`: several remote-bitbang TAPs presented as one chain.

    `Chain.execute` sends each TAP the whole batch of commands, rewritten so that
    the TDI bit of every scan is the TDO the TAP before answered.  The theorem is
    that this is the same as clocking all TAPs together, command by command. */
module DaisyChain {

  type Byte = x: int | 0 <= x < 256

  const READ: Byte := 'R' as int
  const ONE: Byte := '1' as int

  /** A write of TCK, TMS and TDI: one of the characters '0' to '7'. */
  predicate Scan(c: Byte) { '0' as int <= c <= '7' as int }

  /** The scan `c` with its lowest bit, TDI, taken from the reply `v`. */
  function SetTdi(c: Byte, v: Byte): Byte
    requires Scan(c)
  {
    (c - c % 2) + if v == ONE then 1 else 0
  }

  /** A deterministic TAP: a command other than 'R' moves it, 'R' reads its TDO. */
  datatype Machine<!S> = Machine(clock: (S, Byte) -> S, tdo: S -> Byte)

  /** What a TAP does with a batch: its final state and its replies. */
  function Drive<S>(m: Machine<S>, s: S, cmds: seq<Byte>): (S, seq<Byte>) {
    if cmds == [] then (s, [])
    else if cmds[0] == READ then
      var (s', out) := Drive(m, s, cmds[1..]);
      (s', [m.tdo(s)] + out)
    else Drive(m, m.clock(s, cmds[0]), cmds[1..])
  }

  function Reads(cmds: seq<Byte>): nat {
    if cmds == [] then 0 else (if cmds[0] == READ then 1 else 0) + Reads(cmds[1..])
  }

  function Scans(cmds: seq<Byte>): nat {
    if cmds == [] then 0 else (if Scan(cmds[0]) then 1 else 0) + Scans(cmds[1..])
  }

  /** What one command becomes in the batch for a TAP. */
  function RewriteOne(c: Byte, first: bool, last: bool, v: Byte): seq<Byte> {
    var c' := if !first && Scan(c) then SetTdi(c, v) else c;
    if last then [c']
    else if Scan(c') then [c', READ]
    else if c' == READ then []
    else [c']
  }

  /** The batch for a TAP, given the replies of the TAP before it. */
  function Rewrite(first: bool, last: bool, cmds: seq<Byte>, values: seq<Byte>): seq<Byte>
    requires first || |values| == Scans(cmds)
  {
    if cmds == [] then []
    else if !first && Scan(cmds[0]) then
      RewriteOne(cmds[0], first, last, values[0]) + Rewrite(first, last, cmds[1..], values[1..])
    else
      RewriteOne(cmds[0], first, last, ONE) + Rewrite(first, last, cmds[1..], values)
  }

  /** The TAPs of a chain one after the other, each with the replies of the one before. */
  function Batch<S>(ms: seq<Machine<S>>, ss: seq<S>, first: bool, cmds: seq<Byte>, values: seq<Byte>)
    : (r: (seq<S>, seq<Byte>))
    requires |ms| == |ss|
    requires ms != [] ==> first || |values| == Scans(cmds)
    ensures |r.0| == |ms|
    decreases |ms|
  {
    if ms == [] then ([], values)
    else
      var tmp := Rewrite(first, |ms| == 1, cmds, values);
      var (s', out) := Drive(ms[0], ss[0], tmp);
      RepliesPerScan(ms[0], ss[0], first, |ms| == 1, cmds, values);
      var (rest, result) := Batch(ms[1..], ss[1..], false, cmds, out);
      ([s'] + rest, result)
  }

  // ------------------------------------------------------------------ lock step

  /** All TAPs clocked once, the TDI of each but the first being the TDO that the
      TAP before shows after its own clock. */
  function ClockAll<S>(ms: seq<Machine<S>>, ss: seq<S>, c: Byte, first: bool, v: Byte): (r: seq<S>)
    requires |ms| == |ss|
    ensures |r| == |ms|
    decreases |ms|
  {
    if ms == [] then []
    else
      var s' := ms[0].clock(ss[0], if !first && Scan(c) then SetTdi(c, v) else c);
      [s'] + ClockAll(ms[1..], ss[1..], c, false, ms[0].tdo(s'))
  }

  /** The chain as one device: its states and the replies of its last TAP.  The
      bits `values` enter the first TAP's TDI unless the host drives it (`first`). */
  function LockStep<S>(ms: seq<Machine<S>>, ss: seq<S>, first: bool, cmds: seq<Byte>, values: seq<Byte>)
    : (r: (seq<S>, seq<Byte>))
    requires |ms| == |ss| > 0 && (first || |values| == Scans(cmds))
    ensures |r.0| == |ms|
    decreases |cmds|
  {
    if cmds == [] then (ss, [])
    else if cmds[0] == READ then
      var (ss', out) := LockStep(ms, ss, first, cmds[1..], values);
      (ss', [ms[|ms| - 1].tdo(ss[|ss| - 1])] + out)
    else if !first && Scan(cmds[0]) then
      LockStep(ms, ClockAll(ms, ss, cmds[0], first, values[0]), first, cmds[1..], values[1..])
    else
      LockStep(ms, ClockAll(ms, ss, cmds[0], first, ONE), first, cmds[1..], values)
  }

  // ------------------------------------------------------------------- lemmas

  /** A TAP answers every 'R' once; a TAP that is not the last is asked once per scan,
      and the last one as often as the host asks. */
  lemma {:induction false} RepliesPerScan<S>(m: Machine<S>, s: S, first: bool, last: bool,
                                             cmds: seq<Byte>, values: seq<Byte>)
    requires first || |values| == Scans(cmds)
    ensures |Drive(m, s, Rewrite(first, last, cmds, values)).1|
         == if last then Reads(cmds) else Scans(cmds)
  {
    DriveReplies(m, s, Rewrite(first, last, cmds, values));
    ReadsOfRewrite(first, last, cmds, values);
  }

  lemma {:induction false} DriveReplies<S>(m: Machine<S>, s: S, cmds: seq<Byte>)
    ensures |Drive(m, s, cmds).1| == Reads(cmds)
  {
    if cmds != [] {
      DriveReplies(m, if cmds[0] == READ then s else m.clock(s, cmds[0]), cmds[1..]);
    }
  }

  lemma {:induction false} ReadsAppend(c1: seq<Byte>, c2: seq<Byte>)
    ensures Reads(c1 + c2) == Reads(c1) + Reads(c2)
  {
    if c1 == [] {
      assert [] + c2 == c2;
    } else {
      assert (c1 + c2)[1..] == c1[1..] + c2;
      ReadsAppend(c1[1..], c2);
    }
  }

  lemma {:induction false} ReadsOfRewrite(first: bool, last: bool, cmds: seq<Byte>, values: seq<Byte>)
    requires first || |values| == Scans(cmds)
    ensures Reads(Rewrite(first, last, cmds, values)) == if last then Reads(cmds) else Scans(cmds)
  {
    if cmds != [] {
      var pop := !first && Scan(cmds[0]);
      var one := RewriteOne(cmds[0], first, last, if pop then values[0] else ONE);
      var rest := if pop then values[1..] else values;
      ReadsOfRewrite(first, last, cmds[1..], rest);
      ReadsAppend(one, Rewrite(first, last, cmds[1..], rest));
      if |one| == 2 { assert one[1..] == [READ]; }
    }
  }

  /** A chain of one TAP in lock step is that TAP run on the rewritten batch. */
  lemma {:induction false} LockStepOne<S>(m: Machine<S>, s: S, first: bool, cmds: seq<Byte>, values: seq<Byte>)
    requires first || |values| == Scans(cmds)
    ensures var (s', out) := Drive(m, s, Rewrite(first, true, cmds, values));
            LockStep([m], [s], first, cmds, values) == ([s'], out)
    decreases |cmds|
  {
    if cmds != [] {
      var pop := !first && Scan(cmds[0]);
      var v := if pop then values[0] else ONE;
      var one := RewriteOne(cmds[0], first, true, v);
      var rest := if pop then values[1..] else values;
      var tail := Rewrite(first, true, cmds[1..], rest);
      assert (one + tail)[1..] == tail;
      if cmds[0] == READ {
        LockStepOne(m, s, first, cmds[1..], rest);
      } else {
        assert ClockAll([m], [s], cmds[0], first, v) == [m.clock(s, one[0])];
        LockStepOne(m, m.clock(s, one[0]), first, cmds[1..], rest);
      }
    }
  }

  /** What the first TAP of a chain does with one rewritten command, in its own batch. */
  lemma DriveOne<S>(m: Machine<S>, s: S, c: Byte, first: bool, v: Byte, tail: seq<Byte>)
    ensures var one := RewriteOne(c, first, false, v);
            var s' := if c == READ then s else m.clock(s, if !first && Scan(c) then SetTdi(c, v) else c);
            var (t, out) := Drive(m, s', tail);
            Drive(m, s, one + tail) == (t, (if Scan(c) then [m.tdo(s')] else []) + out)
  {
    var one := RewriteOne(c, first, false, v);
    var s' := if c == READ then s else m.clock(s, if !first && Scan(c) then SetTdi(c, v) else c);
    var out := Drive(m, s', tail).1;
    assert [] + out == out;
    if Scan(c) {
      assert (one + tail)[1..] == [READ] + tail;
      assert ([READ] + tail)[1..] == tail;
    } else if c == READ {
      assert one + tail == tail;
    } else {
      assert (one + tail)[1..] == tail;
    }
  }

  /** The interchange: the first TAP can be run through its whole batch beforehand,
      if its replies are handed to the rest of the chain. */
  lemma {:induction false} FirstTapApart<S>(ms: seq<Machine<S>>, ss: seq<S>, first: bool,
                                            cmds: seq<Byte>, values: seq<Byte>)
    requires |ms| == |ss| > 1 && (first || |values| == Scans(cmds))
    ensures var (s', out) := Drive(ms[0], ss[0], Rewrite(first, false, cmds, values));
            && |out| == Scans(cmds)
            && var (rest, result) := LockStep(ms[1..], ss[1..], false, cmds, out);
               LockStep(ms, ss, first, cmds, values) == ([s'] + rest, result)
    decreases |cmds|
  {
    RepliesPerScan(ms[0], ss[0], first, false, cmds, values);
    if cmds == [] {
      assert [ss[0]] + ss[1..] == ss;
    } else {
      var c := cmds[0];
      var pop := !first && Scan(c);
      var v := if pop then values[0] else ONE;
      var values' := if pop then values[1..] else values;
      var tail := Rewrite(first, false, cmds[1..], values');
      DriveOne(ms[0], ss[0], c, first, v, tail);
      var ss' := if c == READ then ss else ClockAll(ms, ss, c, first, v);
      FirstTapApart(ms, ss', first, cmds[1..], values');
      var (s', out) := Drive(ms[0], ss[0], Rewrite(first, false, cmds, values));
      if c == READ {
        assert [] + tail == tail;
        assert ms[1..][|ms| - 2] == ms[|ms| - 1] && ss[1..][|ss| - 2] == ss[|ss| - 1];
      } else if Scan(c) {
        assert out == [ms[0].tdo(ss'[0])] + out[1..];
        assert ss'[1..] == ClockAll(ms[1..], ss[1..], c, false, out[0]);
      } else {
        assert ss'[1..] == ClockAll(ms[1..], ss[1..], c, false, ms[0].tdo(ss'[0]));
        PlainClock(ms[1..], ss[1..], c, ms[0].tdo(ss'[0]), ONE);
      }
    }
  }

  /** A command that is no scan reaches every TAP as it is. */
  lemma PlainClock<S>(ms: seq<Machine<S>>, ss: seq<S>, c: Byte, v: Byte, w: Byte)
    requires |ms| == |ss| && !Scan(c)
    ensures ClockAll(ms, ss, c, false, v) == ClockAll(ms, ss, c, false, w)
  {
  }

  /** Running the TAPs one after the other on their rewritten batches is clocking
      them all in lock step. */
  lemma {:induction false} BatchIsLockStep<S>(ms: seq<Machine<S>>, ss: seq<S>, first: bool,
                                              cmds: seq<Byte>, values: seq<Byte>)
    requires |ms| == |ss| > 0 && (first || |values| == Scans(cmds))
    ensures Batch(ms, ss, first, cmds, values) == LockStep(ms, ss, first, cmds, values)
    decreases |ms|
  {
    RepliesPerScan(ms[0], ss[0], first, |ms| == 1, cmds, values);
    if |ms| == 1 {
      LockStepOne(ms[0], ss[0], first, cmds, values);
      assert ms == [ms[0]] && ss == [ss[0]] && ms[1..] == [] && ss[1..] == [];
      var (s', out) := Drive(ms[0], ss[0], Rewrite(first, true, cmds, values));
      assert [s'] + [] == [s'];
      assert Batch(ms[1..], ss[1..], false, cmds, out) == ([], out);
    } else {
      FirstTapApart(ms, ss, first, cmds, values);
      var out := Drive(ms[0], ss[0], Rewrite(first, false, cmds, values)).1;
      BatchIsLockStep(ms[1..], ss[1..], false, cmds, out);
    }
  }

  /** Cutting the stream into batches anywhere changes neither states nor replies. */
  lemma {:induction false} SplitAnywhere<S>(ms: seq<Machine<S>>, ss: seq<S>, c1: seq<Byte>, c2: seq<Byte>)
    requires |ms| == |ss| > 0
    ensures var (ss1, r1) := Batch(ms, ss, true, c1, []);
            var (ss2, r2) := Batch(ms, ss1, true, c2, []);
            Batch(ms, ss, true, c1 + c2, []) == (ss2, r1 + r2)
    decreases |c1|
  {
    BatchIsLockStep(ms, ss, true, c1, []);
    BatchIsLockStep(ms, Batch(ms, ss, true, c1, []).0, true, c2, []);
    BatchIsLockStep(ms, ss, true, c1 + c2, []);
    LockStepAppend(ms, ss, c1, c2);
  }

  lemma {:induction false} LockStepAppend<S>(ms: seq<Machine<S>>, ss: seq<S>, c1: seq<Byte>, c2: seq<Byte>)
    requires |ms| == |ss| > 0
    ensures var (ss1, r1) := LockStep(ms, ss, true, c1, []);
            var (ss2, r2) := LockStep(ms, ss1, true, c2, []);
            LockStep(ms, ss, true, c1 + c2, []) == (ss2, r1 + r2)
    decreases |c1|
  {
    var (ss1, r1) := LockStep(ms, ss, true, c1, []);
    var r2 := LockStep(ms, ss1, true, c2, []).1;
    if c1 == [] {
      assert [] + c2 == c2 && [] + r2 == r2;
    } else {
      assert (c1 + c2)[1..] == c1[1..] + c2;
      if c1[0] == READ { assert r1 + r2 == [r1[0]] + (r1[1..] + r2); }
      LockStepAppend(ms, if c1[0] == READ then ss else ClockAll(ms, ss, c1[0], true, ONE), c1[1..], c2);
    }
  }

  /** The host gets exactly one reply per 'R' it sent. */
  lemma {:induction false} OneReplyPerRead<S>(ms: seq<Machine<S>>, ss: seq<S>, first: bool,
                                              cmds: seq<Byte>, values: seq<Byte>)
    requires |ms| == |ss| > 0 && (first || |values| == Scans(cmds))
    ensures |Batch(ms, ss, first, cmds, values).1| == Reads(cmds)
    decreases |ms|
  {
    RepliesPerScan(ms[0], ss[0], first, |ms| == 1, cmds, values);
    if |ms| > 1 {
      OneReplyPerRead(ms[1..], ss[1..], false, cmds,
                      Drive(ms[0], ss[0], Rewrite(first, false, cmds, values)).1);
    }
  }

  // --------------------------------------------------------- what is sent to each TAP

  /** The three wires that a scan sets, most significant bit first. */
  function Tck(c: Byte): bool { (c - '0' as int) / 4 % 2 == 1 }
  function Tms(c: Byte): bool { (c - '0' as int) / 2 % 2 == 1 }
  function Tdi(c: Byte): bool { (c - '0' as int) % 2 == 1 }

  /** The scans are the eight settings of the three wires. */
  lemma ScanIs(c: Byte)
    ensures Scan(c) <==> exists tck, tms, tdi :: c == Setting(tck, tms, tdi)
    ensures forall tck, tms, tdi :: var d := Setting(tck, tms, tdi); Tck(d) == tck && Tms(d) == tms && Tdi(d) == tdi
    ensures TckHigh(c) <==> Scan(c) && Tck(c)
  {
    if Scan(c) { assert c == Setting(Tck(c), Tms(c), Tdi(c)); }
  }

  function Setting(tck: bool, tms: bool, tdi: bool): Byte {
    '0' as int + (if tck then 4 else 0) + (if tms then 2 else 0) + if tdi then 1 else 0
  }

  /** The new TDI is the reply, and the other wires are as the client set them. */
  lemma SetTdiWires(c: Byte, v: Byte)
    requires Scan(c)
    ensures var d := SetTdi(c, v); Scan(d) && Tck(d) == Tck(c) && Tms(d) == Tms(c) && (Tdi(d) <==> v == ONE)
  {
  }

  /** What a TAP sees of a command besides TDI: the wires of a scan, or another command as it is. */
  datatype Seen = Wires(tck: bool, tms: bool) | Other(command: Byte)

  function See(c: Byte): Seen { if Scan(c) then Wires(Tck(c), Tms(c)) else Other(c) }

  /** What a TAP sees of a batch; reading TDO moves nothing. */
  function SeenOf(cmds: seq<Byte>): seq<Seen> {
    if cmds == [] then [] else (if cmds[0] == READ then [] else [See(cmds[0])]) + SeenOf(cmds[1..])
  }

  /** The bits of TDI in a batch. */
  function TdiOf(cmds: seq<Byte>): seq<bool> {
    if cmds == [] then [] else (if Scan(cmds[0]) then [Tdi(cmds[0])] else []) + TdiOf(cmds[1..])
  }

  lemma {:induction false} SeenAppend(c1: seq<Byte>, c2: seq<Byte>)
    ensures SeenOf(c1 + c2) == SeenOf(c1) + SeenOf(c2) && TdiOf(c1 + c2) == TdiOf(c1) + TdiOf(c2)
  {
    if c1 == [] {
      assert [] + c2 == c2;
    } else {
      assert (c1 + c2)[1..] == c1[1..] + c2;
      SeenAppend(c1[1..], c2);
    }
  }

  lemma SeenSingle(c: Byte)
    ensures SeenOf([c]) == if c == READ then [] else [See(c)]
    ensures TdiOf([c]) == if Scan(c) then [Tdi(c)] else []
    ensures Scan(c) ==> SeenOf([c, READ]) == [See(c)] && TdiOf([c, READ]) == [Tdi(c)]
  {
    assert [c][1..] == [] && [c, READ][1..] == [READ] && [READ][1..] == [];
  }

  lemma SeenOne(c: Byte, first: bool, last: bool, v: Byte)
    ensures var one := RewriteOne(c, first, last, v);
            && SeenOf(one) == SeenOf([c])
            && TdiOf(one) == if !Scan(c) then [] else if first then [Tdi(c)] else [v == ONE]
  {
    if Scan(c) { SetTdiWires(c, v); }
    var c' := if !first && Scan(c) then SetTdi(c, v) else c;
    SeenSingle(c);
    SeenSingle(c');
    hide SetTdi, Tck, Tms, Tdi;
    assert See(c') == See(c);
  }

  /** Which replies are ones. */
  function Ones(values: seq<Byte>): seq<bool> {
    seq(|values|, i requires 0 <= i < |values| => values[i] == ONE)
  }

  lemma OnesFirst(values: seq<Byte>)
    requires values != []
    ensures Ones(values) == [values[0] == ONE] + Ones(values[1..])
  {
  }

  /** Every batch has the client's TCK, TMS and other commands, in their order. */
  lemma {:induction false} RewriteKeepsWires(first: bool, last: bool, cmds: seq<Byte>, values: seq<Byte>)
    requires first || |values| == Scans(cmds)
    ensures SeenOf(Rewrite(first, last, cmds, values)) == SeenOf(cmds)
  {
    hide RewriteOne, See, Tdi, SeenOf;
    if cmds != [] {
      var pop := !first && Scan(cmds[0]);
      var v := if pop then values[0] else ONE;
      var rest := if pop then values[1..] else values;
      RewriteKeepsWires(first, last, cmds[1..], rest);
      SeenAppend(RewriteOne(cmds[0], first, last, v), Rewrite(first, last, cmds[1..], rest));
      SeenOne(cmds[0], first, last, v);
      SeenAppend([cmds[0]], cmds[1..]);
      assert [cmds[0]] + cmds[1..] == cmds;
    }
  }

  /** The first TAP gets the client's TDI, and the others the replies of the TAP before. */
  lemma {:induction false} RewriteSetsTdi(first: bool, last: bool, cmds: seq<Byte>, values: seq<Byte>)
    requires first || |values| == Scans(cmds)
    ensures TdiOf(Rewrite(first, last, cmds, values)) == if first then TdiOf(cmds) else Ones(values)
  {
    hide RewriteOne, Tdi, Ones, SeenOf;
    if cmds != [] {
      var pop := !first && Scan(cmds[0]);
      var v := if pop then values[0] else ONE;
      var rest := if pop then values[1..] else values;
      RewriteSetsTdi(first, last, cmds[1..], rest);
      SeenAppend(RewriteOne(cmds[0], first, last, v), Rewrite(first, last, cmds[1..], rest));
      SeenOne(cmds[0], first, last, v);
      if pop { OnesFirst(values); }
    } else {
      NoOnes(values);
    }
  }

  lemma NoOnes(values: seq<Byte>)
    ensures |values| == 0 ==> Ones(values) == []
  {
  }

  /** A TAP that records what it sees, whatever it answers. */
  function Recorder(tdo: seq<Seen> -> Byte): Machine<seq<Seen>> {
    Machine((s: seq<Seen>, c: Byte) => s + [See(c)], tdo)
  }

  lemma {:induction false} Recorded(tdo: seq<Seen> -> Byte, s: seq<Seen>, cmds: seq<Byte>)
    ensures Drive(Recorder(tdo), s, cmds).0 == s + SeenOf(cmds)
    decreases |cmds|
  {
    hide SeenOf, See;
    if cmds == [] {
      SeenFirst(cmds);
      assert s + [] == s;
    } else {
      var one := if cmds[0] == READ then [] else [See(cmds[0])];
      SeenFirst(cmds);
      Recorded(tdo, s + one, cmds[1..]);
      assert (s + one) + SeenOf(cmds[1..]) == s + (one + SeenOf(cmds[1..]));
      assert s + [] == s;
      RecorderStep(tdo, s, cmds[0]);
    }
  }

  lemma RecorderStep(tdo: seq<Seen> -> Byte, s: seq<Seen>, c: Byte)
    ensures Recorder(tdo).clock(s, c) == s + [See(c)]
  {
  }

  lemma SeenFirst(cmds: seq<Byte>)
    ensures SeenOf(cmds) ==
            if cmds == [] then [] else (if cmds[0] == READ then [] else [See(cmds[0])]) + SeenOf(cmds[1..])
  {
  }

  /** Every TAP of the chain sees the TCK, the TMS and the other commands that the client sent. */
  lemma {:induction false} AllTapsSee(tdos: seq<seq<Seen> -> Byte>, ss: seq<seq<Seen>>, first: bool,
                                      cmds: seq<Byte>, values: seq<Byte>, i: nat)
    requires i < |ss| == |tdos| && (first || |values| == Scans(cmds))
    ensures Batch(Recorders(tdos), ss, first, cmds, values).0[i] == ss[i] + SeenOf(cmds)
    decreases |ss|
  {
    hide Drive, Rewrite, Recorder;
    var ms := Recorders(tdos);
    RecordersTail(tdos);
    RepliesPerScan(ms[0], ss[0], first, |ms| == 1, cmds, values);
    RewriteKeepsWires(first, |ms| == 1, cmds, values);
    Recorded(tdos[0], ss[0], Rewrite(first, |ms| == 1, cmds, values));
    if i > 0 {
      var out := Drive(ms[0], ss[0], Rewrite(first, |ms| == 1, cmds, values)).1;
      AllTapsSee(tdos[1..], ss[1..], false, cmds, out, i - 1);
    }
  }

  function Recorders(tdos: seq<seq<Seen> -> Byte>): seq<Machine<seq<Seen>>> {
    seq(|tdos|, i requires 0 <= i < |tdos| => Recorder(tdos[i]))
  }

  lemma RecordersTail(tdos: seq<seq<Seen> -> Byte>)
    requires tdos != []
    ensures Recorders(tdos)[0] == Recorder(tdos[0]) && Recorders(tdos)[1..] == Recorders(tdos[1..])
  {
  }

  // ---------------------------------------------- the chain on a board, and the code

  /** A scan that writes TCK high: the TAPs take TDI at this edge, and change TDO at the other. */
  predicate TckHigh(c: Byte) { '4' as int <= c <= '7' as int }

  /** What TAP `i` of a chain on a board gets with the scan `c`: the TDO that the TAP before
      shows before the scan.  This is also the reading that the comment in the source announces. */
  function Wired<S>(ms: seq<Machine<S>>, ss: seq<S>, c: Byte, i: nat): Byte
    requires |ms| == |ss| && i < |ms|
  {
    if i == 0 || !Scan(c) then c else SetTdi(c, ms[i - 1].tdo(ss[i - 1]))
  }

  /** All TAPs clocked at the same moment. */
  function SyncClock<S>(ms: seq<Machine<S>>, ss: seq<S>, c: Byte): (r: seq<S>)
    requires |ms| == |ss|
    ensures |r| == |ms|
  {
    seq(|ms|, i requires 0 <= i < |ms| => ms[i].clock(ss[i], Wired(ms, ss, c, i)))
  }

  /** The chain on a board: its states and the replies of its last TAP. */
  function SyncRun<S>(ms: seq<Machine<S>>, ss: seq<S>, cmds: seq<Byte>): (r: (seq<S>, seq<Byte>))
    requires |ms| == |ss| > 0
    ensures |r.0| == |ms|
    decreases |cmds|
  {
    if cmds == [] then (ss, [])
    else if cmds[0] == READ then
      var (ss', out) := SyncRun(ms, ss, cmds[1..]);
      (ss', [ms[|ms| - 1].tdo(ss[|ss| - 1])] + out)
    else SyncRun(ms, SyncClock(ms, ss, cmds[0]), cmds[1..])
  }

  /** The scan leaves the TDO bit of the TAP as it was. */
  ghost predicate HoldsTdo<S>(m: Machine<S>, s: S, c: Byte) {
    (m.tdo(m.clock(s, c)) == ONE) == (m.tdo(s) == ONE)
  }

  /** The TAP does not look at TDI in this scan. */
  ghost predicate Blind<S>(m: Machine<S>, s: S, c: Byte)
    requires Scan(c)
  {
    m.clock(s, SetTdi(c, ONE)) == m.clock(s, SetTdi(c, READ))
  }

  /** For each two neighbours, the first holds its TDO in the scan it gets, or the second does
      not look at it.  All of this is known before the scan. */
  ghost predicate LinksQuiet<S>(ms: seq<Machine<S>>, ss: seq<S>, c: Byte)
    requires |ms| == |ss|
  {
    Scan(c) ==> forall i: nat :: i < |ms| - 1 ==>
      HoldsTdo(ms[i], ss[i], Wired(ms, ss, c, i)) || Blind(ms[i + 1], ss[i + 1], c)
  }

  /** The code clocks TAP `i` with the TDO that the TAP before shows after the scan. */
  lemma {:induction false} ClockAllAt<S>(ms: seq<Machine<S>>, ss: seq<S>, c: Byte, first: bool, v: Byte, i: nat)
    requires |ms| == |ss| && i < |ms|
    ensures var r := ClockAll(ms, ss, c, first, v);
            var tdi := if i == 0 then v else ms[i - 1].tdo(r[i - 1]);
            r[i] == ms[i].clock(ss[i], if Scan(c) && !(first && i == 0) then SetTdi(c, tdi) else c)
    decreases i
  {
    if i > 0 {
      var s' := ms[0].clock(ss[0], if !first && Scan(c) then SetTdi(c, v) else c);
      ClockAllAt(ms[1..], ss[1..], c, false, ms[0].tdo(s'), i - 1);
    }
  }

  /** Only whether the reply is a one matters, and not even that to a blind TAP. */
  lemma TdiMatters<S>(m: Machine<S>, s: S, c: Byte, v: Byte, w: Byte)
    requires Scan(c)
    ensures m.clock(s, SetTdi(c, v)) == m.clock(s, SetTdi(c, w)) <==> (v == ONE) == (w == ONE) || Blind(m, s, c)
  {
  }

  /** One link: if TAP `i` ends alike under both readings, the next one does exactly if the link is quiet. */
  lemma LinkAgrees<S>(ms: seq<Machine<S>>, ss: seq<S>, c: Byte, r: seq<S>, i: nat)
    requires |ms| == |ss| && i + 1 < |ms| && Scan(c) && r == ClockAll(ms, ss, c, true, ONE)
    requires r[i] == ms[i].clock(ss[i], Wired(ms, ss, c, i))
    ensures r[i + 1] == ms[i + 1].clock(ss[i + 1], Wired(ms, ss, c, i + 1)) <==>
            HoldsTdo(ms[i], ss[i], Wired(ms, ss, c, i)) || Blind(ms[i + 1], ss[i + 1], c)
  {
    hide ClockAll, Blind, SetTdi;
    ClockAllAt(ms, ss, c, true, ONE, i + 1);
    TdiMatters(ms[i + 1], ss[i + 1], c, ms[i].tdo(r[i]), ms[i].tdo(ss[i]));
  }

  lemma FirstOrPlain<S>(ms: seq<Machine<S>>, ss: seq<S>, c: Byte, i: nat)
    requires |ms| == |ss| && i < |ms| && (i == 0 || !Scan(c))
    ensures ClockAll(ms, ss, c, true, ONE)[i] == ms[i].clock(ss[i], Wired(ms, ss, c, i))
  {
    ClockAllAt(ms, ss, c, true, ONE, i);
  }

  /** One scan of the code is one scan on the board exactly if all links are quiet. */
  lemma ScanAgreesExactly<S>(ms: seq<Machine<S>>, ss: seq<S>, c: Byte)
    requires |ms| == |ss|
    ensures ClockAll(ms, ss, c, true, ONE) == SyncClock(ms, ss, c) <==> LinksQuiet(ms, ss, c)
  {
    var r := ClockAll(ms, ss, c, true, ONE);
    hide ClockAll, HoldsTdo, Blind, Wired;
    if LinksQuiet(ms, ss, c) {
      for n := 0 to |ms|
        invariant forall i: nat :: i < n ==> r[i] == ms[i].clock(ss[i], Wired(ms, ss, c, i))
      {
        if n > 0 && Scan(c) {
          LinkAgrees(ms, ss, c, r, n - 1);
        } else {
          FirstOrPlain(ms, ss, c, n);
        }
      }
      assert r == SyncClock(ms, ss, c);
    } else if r == SyncClock(ms, ss, c) {
      forall i: nat | i < |ms| - 1
        ensures HoldsTdo(ms[i], ss[i], Wired(ms, ss, c, i)) || Blind(ms[i + 1], ss[i + 1], c)
      {
        LinkAgrees(ms, ss, c, r, i);
      }
    }
  }

  /** All links are quiet in every scan of the batch, along the run on the board. */
  ghost predicate RunQuiet<S>(ms: seq<Machine<S>>, ss: seq<S>, cmds: seq<Byte>)
    requires |ms| == |ss|
    decreases |cmds|
  {
    if cmds == [] then true
    else if cmds[0] == READ then RunQuiet(ms, ss, cmds[1..])
    else LinksQuiet(ms, ss, cmds[0]) && RunQuiet(ms, SyncClock(ms, ss, cmds[0]), cmds[1..])
  }

  ghost predicate SameSoFar<S>(ms: seq<Machine<S>>, ss: seq<S>, cmds: seq<Byte>, k: nat)
    requires |ms| == |ss| > 0 && k <= |cmds|
  {
    LockStep(ms, ss, true, cmds[..k], []) == SyncRun(ms, ss, cmds[..k])
  }

  lemma {:induction false} QuietIsSame<S>(ms: seq<Machine<S>>, ss: seq<S>, cmds: seq<Byte>, k: nat)
    requires |ms| == |ss| > 0 && k <= |cmds| && RunQuiet(ms, ss, cmds)
    ensures SameSoFar(ms, ss, cmds, k)
    decreases k
  {
    if k > 0 {
      var c, rest := cmds[0], cmds[1..];
      assert cmds[..k][0] == c && cmds[..k][1..] == rest[..k - 1];
      if c == READ {
        QuietIsSame(ms, ss, rest, k - 1);
      } else {
        ScanAgreesExactly(ms, ss, c);
        QuietIsSame(ms, SyncClock(ms, ss, c), rest, k - 1);
      }
    }
  }

  lemma {:induction false} SameIsQuiet<S>(ms: seq<Machine<S>>, ss: seq<S>, cmds: seq<Byte>)
    requires |ms| == |ss| > 0 && forall k: nat :: k <= |cmds| ==> SameSoFar(ms, ss, cmds, k)
    ensures RunQuiet(ms, ss, cmds)
    decreases |cmds|
  {
    if cmds != [] {
      var c, rest := cmds[0], cmds[1..];
      assert SameSoFar(ms, ss, cmds, 1);
      SameFirst(ms, ss, cmds);
      var next := if c == READ then ss else SyncClock(ms, ss, c);
      forall k: nat | k <= |rest| ensures SameSoFar(ms, next, rest, k) {
        assert SameSoFar(ms, ss, cmds, k + 1);
        SameRest(ms, ss, cmds, k);
      }
      hide SameSoFar;
      SameIsQuiet(ms, next, rest);
    }
  }

  lemma SameFirst<S>(ms: seq<Machine<S>>, ss: seq<S>, cmds: seq<Byte>)
    requires |ms| == |ss| > 0 && cmds != [] && SameSoFar(ms, ss, cmds, 1)
    ensures cmds[0] != READ ==>
              ClockAll(ms, ss, cmds[0], true, ONE) == SyncClock(ms, ss, cmds[0]) && LinksQuiet(ms, ss, cmds[0])
  {
    var one := cmds[..1];
    assert one[0] == cmds[0] && one[1..] == [];
    if cmds[0] != READ {
      assert LockStep(ms, ss, true, one, []).0 == ClockAll(ms, ss, cmds[0], true, ONE);
      assert SyncRun(ms, ss, one).0 == SyncClock(ms, ss, cmds[0]);
      ScanAgreesExactly(ms, ss, cmds[0]);
    }
  }

  lemma SameRest<S>(ms: seq<Machine<S>>, ss: seq<S>, cmds: seq<Byte>, k: nat)
    requires |ms| == |ss| > 0 && cmds != [] && k < |cmds| && SameSoFar(ms, ss, cmds, k + 1)
    requires cmds[0] != READ ==> ClockAll(ms, ss, cmds[0], true, ONE) == SyncClock(ms, ss, cmds[0])
    ensures SameSoFar(ms, if cmds[0] == READ then ss else SyncClock(ms, ss, cmds[0]), cmds[1..], k)
  {
    var c, part, rest := cmds[0], cmds[..k + 1], cmds[1..][..k];
    assert part[0] == c && part[1..] == rest;
    hide ClockAll, SyncClock;
    if c == READ {
      var l, r := LockStep(ms, ss, true, rest, []), SyncRun(ms, ss, rest);
      var x := [ms[|ms| - 1].tdo(ss[|ss| - 1])];
      assert LockStep(ms, ss, true, part, []) == (l.0, x + l.1) && SyncRun(ms, ss, part) == (r.0, x + r.1);
      assert (x + l.1)[1..] == l.1 && (x + r.1)[1..] == r.1;
    }
  }

  /** The code shows the states and replies of a chain on a board, at every moment of a batch,
      exactly if no link is disturbed in any of its scans. */
  lemma SynchronousExactly<S>(ms: seq<Machine<S>>, ss: seq<S>, cmds: seq<Byte>)
    requires |ms| == |ss| > 0
    ensures (forall k: nat :: k <= |cmds| ==> Batch(ms, ss, true, cmds[..k], []) == SyncRun(ms, ss, cmds[..k]))
            <==> RunQuiet(ms, ss, cmds)
  {
    forall k: nat | k <= |cmds|
      ensures Batch(ms, ss, true, cmds[..k], []) == LockStep(ms, ss, true, cmds[..k], [])
    {
      BatchIsLockStep(ms, ss, true, cmds[..k], []);
    }
    hide Batch, LockStep, SyncRun;
    if RunQuiet(ms, ss, cmds) {
      forall k: nat | k <= |cmds| ensures Batch(ms, ss, true, cmds[..k], []) == SyncRun(ms, ss, cmds[..k]) {
        QuietIsSame(ms, ss, cmds, k);
      }
    }
    if forall k: nat :: k <= |cmds| ==> Batch(ms, ss, true, cmds[..k], []) == SyncRun(ms, ss, cmds[..k]) {
      forall k: nat | k <= |cmds| ensures SameSoFar(ms, ss, cmds, k) {
        assert Batch(ms, ss, true, cmds[..k], []) == SyncRun(ms, ss, cmds[..k]);
      }
      SameIsQuiet(ms, ss, cmds);
    }
  }

  // ------------------------------------------------------------------- real TAPs

  /** A TAP as IEEE 1149.1 has it: TDO changes only while TCK falls, TDI matters only while it rises. */
  ghost predicate Jtag<S(!new)>(m: Machine<S>) {
    && (forall s, d :: TckHigh(d) ==> HoldsTdo(m, s, d))
    && (forall s, d :: Scan(d) && !TckHigh(d) ==> Blind(m, s, d))
  }

  lemma JtagQuiet<S(!new)>(ms: seq<Machine<S>>, ss: seq<S>, c: Byte)
    requires |ms| == |ss| && forall m :: m in ms ==> Jtag(m)
    ensures LinksQuiet(ms, ss, c)
  {
    if Scan(c) {
      forall i: nat | i < |ms| - 1
        ensures HoldsTdo(ms[i], ss[i], Wired(ms, ss, c, i)) || Blind(ms[i + 1], ss[i + 1], c)
      {
        assert ms[i] in ms && ms[i + 1] in ms;
        if TckHigh(c) { assert TckHigh(Wired(ms, ss, c, i)); }
      }
    }
  }

  lemma {:induction false} JtagRunQuiet<S(!new)>(ms: seq<Machine<S>>, ss: seq<S>, cmds: seq<Byte>)
    requires |ms| == |ss| && forall m :: m in ms ==> Jtag(m)
    ensures RunQuiet(ms, ss, cmds)
    decreases |cmds|
  {
    hide LinksQuiet, Jtag;
    if cmds != [] {
      JtagQuiet(ms, ss, cmds[0]);
      JtagRunQuiet(ms, ss, cmds[1..]);
      JtagRunQuiet(ms, SyncClock(ms, ss, cmds[0]), cmds[1..]);
    }
  }

  /** With real TAPs the multiplexer is the chain on a board, for every batch. */
  lemma SynchronousChain<S(!new)>(ms: seq<Machine<S>>, ss: seq<S>, cmds: seq<Byte>)
    requires |ms| == |ss| > 0 && forall m :: m in ms ==> Jtag(m)
    ensures Batch(ms, ss, true, cmds, []) == SyncRun(ms, ss, cmds)
  {
    JtagRunQuiet(ms, ss, cmds);
    QuietIsSame(ms, ss, cmds, |cmds|);
    assert cmds[..|cmds|] == cmds;
    BatchIsLockStep(ms, ss, true, cmds, []);
    hide Batch, LockStep, SyncRun, RunQuiet, Jtag;
  }

  /** A one-bit data register: TDI is taken when TCK rises, and shown when it falls. */
  datatype Cell = Cell(tck: bool, bit: bool, shown: bool)

  function ClockCell(s: Cell, c: Byte): Cell {
    if !Scan(c) then s
    else if TckHigh(c) then Cell(true, if s.tck then s.bit else c % 2 == 1, s.shown)
    else Cell(false, s.bit, s.bit)
  }

  function Register(): Machine<Cell> {
    Machine(ClockCell, (s: Cell) => if s.shown then ONE else '0' as int)
  }

  /** Such a register is a real TAP. */
  lemma RegisterIsJtag()
    ensures Jtag(Register())
  {
    var m := Register();
    forall s: Cell, d: Byte | TckHigh(d) ensures HoldsTdo(m, s, d) {
      assert m.clock(s, d).shown == s.shown;
    }
    forall s: Cell, d: Byte | Scan(d) && !TckHigh(d) ensures Blind(m, s, d) {
      assert forall v :: v in {ONE, READ} ==> m.clock(s, SetTdi(d, v)) == Cell(false, s.bit, s.bit);
    }
  }

  /** It shifts: what it takes at one rising edge it shows after the next falling one. */
  lemma RegisterShifts(s: Cell, v: Byte)
    requires !s.tck
    ensures Drive(Register(), s, [SetTdi('4' as int, v), '0' as int, READ]).1 == [if v == ONE then ONE else '0' as int]
  {
    hide Drive;
    var m := Register();
    var up: Byte := SetTdi('4' as int, v);
    var s1 := m.clock(s, up);
    var s2 := m.clock(s1, '0' as int);
    DriveRead(m, s2);
    DriveClock(m, s1, '0' as int, [READ]);
    DriveClock(m, s, up, ['0' as int, READ]);
    assert ['0' as int, READ] == ['0' as int] + [READ];
    assert [up, '0' as int, READ] == [up] + ['0' as int, READ];
    assert s1 == ClockCell(s, up) == Cell(true, v == ONE, s.shown);
    assert s2 == ClockCell(s1, '0' as int) == Cell(false, v == ONE, v == ONE);
    assert m.tdo(s2) == if v == ONE then ONE else '0' as int;
  }

  lemma DriveRead<S>(m: Machine<S>, s: S)
    ensures Drive(m, s, [READ]) == (s, [m.tdo(s)])
  {
    assert [READ][1..] == [] && [m.tdo(s)] + [] == [m.tdo(s)];
    assert Drive(m, s, []) == (s, []);
  }

  lemma DriveClock<S>(m: Machine<S>, s: S, c: Byte, cmds: seq<Byte>)
    requires c != READ
    ensures Drive(m, s, [c] + cmds) == Drive(m, m.clock(s, c), cmds)
  {
    assert ([c] + cmds)[1..] == cmds;
  }

  lemma SyncClockAt<S>(ms: seq<Machine<S>>, ss: seq<S>, c: Byte, i: nat)
    requires |ms| == |ss| && i < |ms|
    ensures SyncClock(ms, ss, c)[i] == ms[i].clock(ss[i], Wired(ms, ss, c, i))
  {
  }

  /** A one-bit register without the second edge. */
  function Flop(): Machine<bool> {
    Machine((s: bool, c: Byte) => if Scan(c) then c % 2 == 1 else s, (s: bool) => if s then ONE else '0' as int)
  }

  /** Registers that show at once what they take are disturbed: a bit shifted into two of them
      reaches both in one scan of the code, and on a board only the first. */
  lemma ReadingsDiffer()
    ensures ClockAll([Flop(), Flop()], [false, false], ONE, true, ONE) == [true, true]
    ensures SyncClock([Flop(), Flop()], [false, false], ONE) == [true, false]
    ensures !LinksQuiet([Flop(), Flop()], [false, false], ONE)
  {
    var f := Flop();
    var ms, ss := [f, f], [false, false];
    ClockAllAt(ms, ss, ONE, true, ONE, 0);
    ClockAllAt(ms, ss, ONE, true, ONE, 1);
    SyncClockAt(ms, ss, ONE, 0);
    SyncClockAt(ms, ss, ONE, 1);
    assert SyncClock(ms, ss, ONE) == [true, false];
    ScanAgreesExactly(ms, ss, ONE);
  }

  // ------------------------------------------------------------------- the code

  /** A connection to a TAP process, with the process's state. */
  class Tap<S> {
    const machine: Machine<S>
    var state: S

    constructor (m: Machine<S>, s: S)
      ensures machine == m && state == s
    {
      machine, state := m, s;
    }

    /** Sends a batch and collects one reply per 'R'. */
    method Execute(commands: seq<Byte>) returns (result: seq<Byte>)
      modifies this
      ensures (state, result) == Drive(machine, old(state), commands)
      ensures |result| == Reads(commands)
    {
      result := [];
      DriveReplies(machine, state, commands);
      ghost var whole := Drive(machine, state, commands);
      assert commands[0..] == commands;
      for i := 0 to |commands|
        invariant whole.0 == Drive(machine, state, commands[i..]).0
        invariant whole.1 == result + Drive(machine, state, commands[i..]).1
      {
        assert commands[i..][0] == commands[i] && commands[i..][1..] == commands[i + 1..];
        if commands[i] == READ {
          result := result + [machine.tdo(state)];
        } else {
          state := machine.clock(state, commands[i]);
        }
      }
      assert commands[|commands|..] == [] && result + [] == result;
    }
  }

  class Chain<S(!new)> {
    var taps: seq<Tap<S>>

    ghost predicate Valid() reads this {
      forall i, j :: 0 <= i < j < |taps| ==> taps[i] != taps[j]
    }

    /** The machines and the states of the TAPs, in chain order. */
    ghost predicate Are(ms: seq<Machine<S>>, ss: seq<S>)
      reads this, taps
    {
      && |ms| == |ss| == |taps|
      && forall i :: 0 <= i < |taps| ==> taps[i].machine == ms[i] && taps[i].state == ss[i]
    }

    constructor ()
      ensures Valid() && taps == []
    {
      taps := [];
    }

    method Append(tap: Tap<S>)
      requires Valid() && tap !in taps
      modifies this
      ensures Valid() && taps == old(taps) + [tap]
    {
      taps := taps + [tap];
    }

    /** The batch for TAP number `i` of `n`; `replies` are used up exactly. */
    static method RewriteFor(i: nat, n: nat, commands: seq<Byte>, replies: seq<Byte>) returns (tmp: seq<Byte>)
      requires i < n
      requires if i == 0 then replies == [] else |replies| == Scans(commands)
      ensures tmp == Rewrite(i == 0, i == n - 1, commands, replies)
    {
      tmp := [];
      var values := replies;
      ghost var whole := Rewrite(i == 0, i == n - 1, commands, values);
      assert commands[0..] == commands && [] + whole == whole;
      for k := 0 to |commands|
        invariant if i == 0 then values == [] else |values| == Scans(commands[k..])
        invariant whole == tmp + Rewrite(i == 0, i == n - 1, commands[k..], values)
      {
        assert commands[k..][0] == commands[k] && commands[k..][1..] == commands[k + 1..];
        ghost var values0, tmp0 := values, tmp;
        var command := commands[k];
        if i > 0 && Scan(command) {
          // replace TDI with the value from the previous TAP
          command := SetTdi(command, values[0]);
          values := values[1..];
        }
        if i < n - 1 {
          if command != READ {
            tmp := tmp + [command];
          }
          if Scan(command) {
            tmp := tmp + [READ];
          }
        } else {
          tmp := tmp + [command];
        }
        RewriteStep(i == 0, i == n - 1, commands[k..], values0, tmp0, tmp);
      }
      assert commands[|commands|..] == [] && tmp + [] == tmp;
      assert values == [];
    }

    static lemma RewriteStep(first: bool, last: bool, cmds: seq<Byte>, values: seq<Byte>,
                             tmp0: seq<Byte>, tmp: seq<Byte>)
      requires cmds != [] && (first || |values| == Scans(cmds))
      requires var pop := !first && Scan(cmds[0]);
               var c := if pop then SetTdi(cmds[0], values[0]) else cmds[0];
               tmp == if last then tmp0 + [c]
                      else if Scan(c) then tmp0 + [c] + [READ]
                      else if c == READ then tmp0
                      else tmp0 + [c]
      ensures var rest := if !first && Scan(cmds[0]) then values[1..] else values;
              tmp0 + Rewrite(first, last, cmds, values) == tmp + Rewrite(first, last, cmds[1..], rest)
    {
      var pop := !first && Scan(cmds[0]);
      var one := RewriteOne(cmds[0], first, last, if pop then values[0] else ONE);
      assert tmp == tmp0 + one;
      var rest := Rewrite(first, last, cmds[1..], if pop then values[1..] else values);
      assert tmp0 + (one + rest) == tmp + rest;
    }

    /** The turn of TAP number `i` in a batch. */
    static lemma BatchStep(ms: seq<Machine<S>>, ss: seq<S>, i: nat, cmds: seq<Byte>, values: seq<Byte>)
      requires i < |ms| == |ss| && (i == 0 || |values| == Scans(cmds))
      ensures var (s', out) := Drive(ms[i], ss[i], Rewrite(i == 0, i == |ms| - 1, cmds, values));
              && |out| == (if i == |ms| - 1 then Reads(cmds) else Scans(cmds))
              && var b := Batch(ms[i..], ss[i..], i == 0, cmds, values);
                 var b' := Batch(ms[i + 1..], ss[i + 1..], false, cmds, out);
                 b.0 == [s'] + b'.0 && b.1 == b'.1
    {
      RepliesPerScan(ms[i], ss[i], i == 0, i == |ms| - 1, cmds, values);
      assert ms[i..][1..] == ms[i + 1..] && ss[i..][1..] == ss[i + 1..];
    }

    /** What the TAPs from number `i` on make of `values` is what is missing of the batch. */
    static ghost predicate Halfway(whole: (seq<S>, seq<Byte>), done: seq<S>, ms: seq<Machine<S>>, ss: seq<S>,
                                   i: nat, cmds: seq<Byte>, values: seq<Byte>)
      requires i <= |ms| == |ss| && (0 < i < |ms| ==> |values| == Scans(cmds))
    {
      var b := Batch(ms[i..], ss[i..], i == 0, cmds, values);
      whole == (done + b.0, b.1)
    }

    static lemma HalfwayStart(ms: seq<Machine<S>>, ss: seq<S>, cmds: seq<Byte>)
      requires |ms| == |ss|
      ensures Halfway(Batch(ms, ss, true, cmds, []), [], ms, ss, 0, cmds, [])
    {
      var whole := Batch(ms, ss, true, cmds, []);
      assert ms[0..] == ms && ss[0..] == ss && [] + whole.0 == whole.0;
    }

    static lemma HalfwayStep(whole: (seq<S>, seq<Byte>), done: seq<S>, ms: seq<Machine<S>>, ss: seq<S>,
                             i: nat, cmds: seq<Byte>, values: seq<Byte>)
      requires i < |ms| == |ss| && (i == 0 || |values| == Scans(cmds))
      requires Halfway(whole, done, ms, ss, i, cmds, values)
      ensures var (s', out) := Drive(ms[i], ss[i], Rewrite(i == 0, i == |ms| - 1, cmds, values));
              && (i + 1 < |ms| ==> |out| == Scans(cmds))
              && Halfway(whole, done + [s'], ms, ss, i + 1, cmds, out)
    {
      hide Drive, Rewrite, Batch;
      BatchStep(ms, ss, i, cmds, values);
      var (s', out) := Drive(ms[i], ss[i], Rewrite(i == 0, i == |ms| - 1, cmds, values));
      var b := Batch(ms[i + 1..], ss[i + 1..], false, cmds, out);
      assert done + ([s'] + b.0) == (done + [s']) + b.0;
    }

    static lemma HalfwayEnd(whole: (seq<S>, seq<Byte>), done: seq<S>, ms: seq<Machine<S>>, ss: seq<S>,
                            cmds: seq<Byte>, values: seq<Byte>)
      requires |ms| == |ss| && Halfway(whole, done, ms, ss, |ms|, cmds, values)
      ensures whole == (done, values)
    {
      assert ms[|ms|..] == [] && done + [] == done;
    }

    /** TAP number `i` gets its batch. */
    method ExecuteOne(i: nat, commands: seq<Byte>, values: seq<Byte>) returns (replies: seq<Byte>)
      requires i < |taps| && if i == 0 then values == [] else |values| == Scans(commands)
      modifies taps[i]
      ensures (taps[i].state, replies)
           == Drive(taps[i].machine, old(taps[i].state),
                    Rewrite(i == 0, i == |taps| - 1, commands, values))
    {
      var tmp := RewriteFor(i, |taps|, commands, values);
      replies := taps[i].Execute(tmp);
    }

    /** The TAPs in turn, each with the replies of the one before. */
    method ExecuteInTurn(commands: seq<Byte>, ghost ms: seq<Machine<S>>, ghost ss: seq<S>)
      returns (values: seq<Byte>)
      requires Valid() && Are(ms, ss)
      modifies taps
      ensures taps == old(taps)
      ensures var (ss', replies) := Batch(ms, ss, true, commands, []); Are(ms, ss') && values == replies
    {
      hide Drive, Rewrite, Scans, Batch, Halfway;
      values := [];
      ghost var whole := Batch(ms, ss, true, commands, []);
      ghost var done: seq<S> := [];
      HalfwayStart(ms, ss, commands);
      for i := 0 to |taps|
        invariant taps == old(taps) && |done| == i
        invariant if i == 0 then values == [] else i < |taps| ==> |values| == Scans(commands)
        invariant forall k :: 0 <= k < i ==> taps[k].state == done[k]
        invariant forall k :: i <= k < |taps| ==> taps[k].state == ss[k]
        invariant Halfway(whole, done, ms, ss, i, commands, values)
      {
        HalfwayStep(whole, done, ms, ss, i, commands, values);
        values := ExecuteOne(i, commands, values);
        done := done + [taps[i].state];
      }
      HalfwayEnd(whole, done, ms, ss, commands, values);
    }

    /** Executes a batch on the chain whose TAPs are the machines `ms` in the states `ss`. */
    method Execute(commands: seq<Byte>, ghost ms: seq<Machine<S>>, ghost ss: seq<S>)
      returns (result: seq<Byte>)
      requires Valid() && Are(ms, ss)
      modifies taps
      ensures Valid() && taps == old(taps)
      ensures taps == [] ==> result == []
      ensures taps != [] ==>
                var (ss', replies) := LockStep(ms, ss, true, commands, []);
                Are(ms, ss') && result == replies && |result| == Reads(commands)
      ensures taps != [] && (forall m :: m in ms ==> Jtag(m)) ==>
                var (ss', replies) := SyncRun(ms, ss, commands);
                Are(ms, ss') && result == replies
    {
      result := ExecuteInTurn(commands, ms, ss);
      if ms != [] {
        BatchIsLockStep(ms, ss, true, commands, []);
        OneReplyPerRead(ms, ss, true, commands, []);
        if forall m :: m in ms ==> Jtag(m) { SynchronousChain(ms, ss, commands); }
      }
    }
  }
}
