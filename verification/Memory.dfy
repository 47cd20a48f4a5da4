/** `memcpy` and `memset` of `benchmarks/common/syscalls.c` over one memory of bytes: where the
    addresses allow it they work on words, and leave what the bytewise loops would leave. */
module Memory {
  import opened Arith

  type Byte = x: nat | x < 256

  /** The bytes of a word, of four or eight bytes, in order of their significance. */
  predicate WordSize(w: nat) { w == 4 || w == 8 }

  // -------------------------------------------------------------------- bits and words

  /** `x | y` */
  function Or(x: nat, y: nat): nat {
    if x == 0 && y == 0 then 0
    else 2 * Or(x / 2, y / 2) + if x % 2 == 1 || y % 2 == 1 then 1 else 0
  }

  /** `x << k` in a register of `bits` bits. */
  function Shl(x: nat, k: nat, bits: nat): nat { x * Pow2(k) % Pow2(bits) }

  /** The lowest three bits of both numbers are clear exactly if those of `x | y` are; or two. */
  lemma OrAligned(x: nat, y: nat)
    ensures Or(x, y) % 4 == 0 <==> x % 4 == 0 && y % 4 == 0
    ensures Or(x, y) % 8 == 0 <==> x % 8 == 0 && y % 8 == 0
  {
    hide Or;
    OrHalves(x, y);
    OrHalves(x / 2, y / 2);
    OrHalves(x / 2 / 2, y / 2 / 2);
    LowBits(x);
    LowBits(y);
    LowBits(Or(x, y));
  }

  lemma LowBits(x: nat)
    ensures x % 4 == 0 <==> x % 2 == 0 && x / 2 % 2 == 0
    ensures x % 8 == 0 <==> x % 2 == 0 && x / 2 % 2 == 0 && x / 2 / 2 % 2 == 0
  {
    var h := x / 2;
    var q := h / 2;
    DivModUnique(x, 4, q, 2 * (h % 2) + x % 2);
    DivModUnique(x, 8, q / 2, 4 * (q % 2) + 2 * (h % 2) + x % 2);
  }

  lemma OrHalves(x: nat, y: nat)
    ensures Or(x, y) / 2 == Or(x / 2, y / 2)
    ensures Or(x, y) % 2 == 0 <==> x % 2 == 0 && y % 2 == 0
  {
  }

  lemma {:induction false} OrZero(x: nat)
    ensures Or(x, 0) == x == Or(0, x)
  {
    if x > 0 { OrZero(x / 2); }
  }

  /** Where the bits do not meet, `|` is a sum. */
  lemma {:induction false} OrDisjoint(x: nat, y: nat, k: nat)
    requires x < Pow2(k)
    ensures Or(x, y * Pow2(k)) == x + y * Pow2(k)
  {
    if k == 0 {
      OrZero(y);
    } else {
      var z := y * Pow2(k - 1);
      assert y * Pow2(k) == 2 * z;
      OrDisjoint(x / 2, y, k - 1);
      OrHalves(x, 2 * z);
    }
  }

  /** What a load of these bytes puts into the register. */
  function Word(b: seq<Byte>): nat { if b == [] then 0 else b[0] + 256 * Word(b[1..]) }

  /** What a store of `w` bytes of the register `x` puts into memory. */
  function Bytes(x: nat, w: nat): (b: seq<Byte>)
    ensures |b| == w
  {
    if w == 0 then [] else [x % 256] + Bytes(x / 256, w - 1)
  }

  lemma BytesStep(x: nat, w: nat)
    requires w > 0
    ensures Bytes(x, w) == [x % 256] + Bytes(x / 256, w - 1)
  {
  }

  /** A word that is loaded and stored arrives as it was. */
  lemma {:induction false} StoreLoaded(b: seq<Byte>)
    ensures Bytes(Word(b), |b|) == b
  {
    if b != [] {
      StoreLoaded(b[1..]);
      DivModUnique(Word(b), 256, Word(b[1..]), b[0]);
      BytesStep(Word(b), |b|);
      assert b == [b[0]] + b[1..];
    }
  }

  // ---------------------------------------------------------------------------- memory

  /** The memory `m` with the bytes `b` from address `a` on. */
  function Put(m: seq<Byte>, a: nat, b: seq<Byte>): (r: seq<Byte>)
    requires a + |b| <= |m|
    ensures |r| == |m|
  {
    m[..a] + b + m[a + |b|..]
  }

  lemma PutMore(m: seq<Byte>, a: nat, b: seq<Byte>, c: seq<Byte>)
    requires a + |b| + |c| <= |m|
    ensures Put(Put(m, a, b), a + |b|, c) == Put(m, a, b + c)
  {
    var p := Put(m, a, b);
    assert p[..a + |b|] == m[..a] + b;
    assert p[a + |b| + |c|..] == m[a + |b| + |c|..];
  }

  /** Bytes that the writes so far have not reached. */
  lemma PutElsewhere(m: seq<Byte>, a: nat, b: seq<Byte>, s: nat, n: nat)
    requires a + |b| <= |m| && s + n <= |m| && (s + n <= a || a + |b| <= s)
    ensures Put(m, a, b)[s..s + n] == m[s..s + n]
  {
  }

  function WordAt(m: seq<Byte>, a: nat, w: nat): nat
    requires a + w <= |m|
  {
    Word(m[a..a + w])
  }

  /** A load. */
  method LoadWord(mem: array<Byte>, a: nat, w: nat) returns (x: nat)
    requires a + w <= mem.Length
    ensures x == WordAt(mem[..], a, w)
  {
    assert mem[..][a..a + w] == mem[a..a + w];
    x := Word(mem[a..a + w]);
  }

  /** A store. */
  method StoreWord(mem: array<Byte>, a: nat, x: nat, w: nat)
    requires a + w <= mem.Length
    modifies mem
    ensures mem[..] == Put(old(mem[..]), a, Bytes(x, w))
  {
    hide Put, Bytes;
    ghost var m := mem[..];
    var b := Bytes(x, w);
    PutNothing(m, a, b[..0]);
    for i := 0 to w
      invariant mem[..] == Put(m, a, b[..i])
    {
      StoreByte(mem, a + i, b[i]);
      PutMore(m, a, b[..i], [b[i]]);
      assert b[..i] + [b[i]] == b[..i + 1];
    }
    assert b[..w] == b;
  }

  method StoreByte(mem: array<Byte>, a: nat, b: Byte)
    requires a < mem.Length
    modifies mem
    ensures mem[..] == Put(old(mem[..]), a, [b])
  {
    mem[a] := b;
  }

  lemma PutNothing(m: seq<Byte>, a: nat, b: seq<Byte>)
    requires a <= |m| && b == []
    ensures Put(m, a, b) == m
  {
  }

  // ---------------------------------------------------------------------------- memcpy

  /** The memory `p` is `m` with the first `o` bytes from `s` on copied to `d`. */
  ghost predicate Moved(p: seq<Byte>, m: seq<Byte>, d: nat, s: nat, o: nat) {
    d + o <= |m| && s + o <= |m| && p == Put(m, d, m[s..s + o])
  }

  lemma MovedNothing(m: seq<Byte>, d: nat, s: nat)
    requires d <= |m| && s <= |m|
    ensures Moved(m, m, d, s, 0)
  {
    PutNothing(m, d, m[s..s]);
  }

  /** Moves the word at `s + o` of the memory `m`, which the register `x` holds, to `d + o`. */
  method StoreNext(mem: array<Byte>, d: nat, w: nat, o: nat, x: nat, ghost m: seq<Byte>, ghost s: nat)
    requires |m| == mem.Length && d + o + w <= |m| && s + o + w <= |m|
    requires Moved(mem[..], m, d, s, o) && x == WordAt(m, s + o, w)
    modifies mem
    ensures Moved(mem[..], m, d, s, o + w)
  {
    hide Put, Word, Bytes;
    StoreWord(mem, d + o, x, w);
    StoreLoaded(m[s + o..s + o + w]);
    PutMore(m, d, m[s..s + o], m[s + o..s + o + w]);
    assert m[s..s + o] + m[s + o..s + o + w] == m[s..s + o + w];
  }

  /** One round of the unrolled loop: eight loads, then eight stores. */
  method MoveEight(mem: array<Byte>, d: nat, s: nat, w: nat)
    requires d + 8 * w <= mem.Length && s + 8 * w <= mem.Length
    modifies mem
    ensures Moved(mem[..], old(mem[..]), d, s, 8 * w)
  {
    hide Moved, WordAt;
    ghost var m := mem[..];
    var r0 := LoadWord(mem, s, w);
    var r1 := LoadWord(mem, s + w, w);
    var r2 := LoadWord(mem, s + 2 * w, w);
    var r3 := LoadWord(mem, s + 3 * w, w);
    var r4 := LoadWord(mem, s + 4 * w, w);
    var r5 := LoadWord(mem, s + 5 * w, w);
    var r6 := LoadWord(mem, s + 6 * w, w);
    var r7 := LoadWord(mem, s + 7 * w, w);
    MovedNothing(m, d, s);
    StoreNext(mem, d, w, 0, r0, m, s);
    StoreNext(mem, d, w, w, r1, m, s);
    StoreNext(mem, d, w, 2 * w, r2, m, s);
    StoreNext(mem, d, w, 3 * w, r3, m, s);
    StoreNext(mem, d, w, 4 * w, r4, m, s);
    StoreNext(mem, d, w, 5 * w, r5, m, s);
    StoreNext(mem, d, w, 6 * w, r6, m, s);
    StoreNext(mem, d, w, 7 * w, r7, m, s);
  }

  method MoveWord(mem: array<Byte>, d: nat, s: nat, w: nat)
    requires d + w <= mem.Length && s + w <= mem.Length
    modifies mem
    ensures Moved(mem[..], old(mem[..]), d, s, w)
  {
    hide Moved, WordAt;
    ghost var m := mem[..];
    MovedNothing(m, d, s);
    var x := LoadWord(mem, s, w);
    StoreNext(mem, d, w, 0, x, m, s);
  }

  method MoveByte(mem: array<Byte>, d: nat, s: nat)
    requires d < mem.Length && s < mem.Length
    modifies mem
    ensures Moved(mem[..], old(mem[..]), d, s, 1)
  {
    ghost var m := mem[..];
    assert [m[s]] == m[s..s + 1];
    StoreByte(mem, d, mem[s]);
  }

  /** The destination does not lie inside the source. */
  predicate Forward(dest: nat, src: nat, len: nat) { dest <= src || src + len <= dest }

  /** After `k` bytes, `n` more. */
  lemma MovedMore(m: seq<Byte>, p: seq<Byte>, q: seq<Byte>, dest: nat, src: nat, len: nat, k: nat, n: nat)
    requires dest + len <= |m| && src + len <= |m| && Forward(dest, src, len) && k + n <= len
    requires Moved(p, m, dest, src, k) && Moved(q, p, dest + k, src + k, n)
    ensures Moved(q, m, dest, src, k + n)
  {
    hide Put;
    PutElsewhere(m, dest, m[src..src + k], src + k, n);
    PutMore(m, dest, m[src..src + k], m[src + k..src + k + n]);
    assert m[src..src + k] + m[src + k..src + k + n] == m[src..src + k + n];
  }

  /** The number of words left, `n`, against the address. */
  lemma WordsLeft(d: nat, end: nat, w: nat, n: nat)
    requires w > 0 && end == d + n * w
    ensures d < end <==> n > 0
    ensures d + 8 * w < end <==> n > 8
    ensures n > 0 ==> d + w <= end && end == d + w + (n - 1) * w
    ensures n > 8 ==> end == d + 8 * w + (n - 8) * w
  {
    if n > 8 {
      MulMono(9, n, w);
      assert (n - 8) * w == n * w - 8 * w;
    } else {
      MulMono(n, 8, w);
    }
    if n > 0 {
      MulMono(1, n, w);
      assert (n - 1) * w == n * w - w;
    }
  }

  /** The branch that copies words. */
  method CopyWords(mem: array<Byte>, dest: nat, src: nat, len: nat, w: nat, ghost words: nat)
    requires w > 0 && len == words * w
    requires dest + len <= mem.Length && src + len <= mem.Length && Forward(dest, src, len)
    modifies mem
    ensures Moved(mem[..], old(mem[..]), dest, src, len)
  {
    hide Moved;
    ghost var m := mem[..];
    var s, d, end := src, dest, dest + len;
    ghost var n := words;
    MovedNothing(m, dest, src);
    while d + 8 * w < end
      invariant end == d + n * w && dest <= d <= end && s - src == d - dest
      invariant Moved(mem[..], m, dest, src, d - dest)
      decreases end - d
    {
      ghost var p := mem[..];
      WordsLeft(d, end, w, n);
      MoveEight(mem, d, s, w);
      MovedMore(m, p, mem[..], dest, src, len, d - dest, 8 * w);
      d := d + 8 * w;
      s := s + 8 * w;
      n := n - 8;
    }
    while d < end
      invariant end == d + n * w && dest <= d <= end && s - src == d - dest
      invariant Moved(mem[..], m, dest, src, d - dest)
      decreases end - d
    {
      ghost var p := mem[..];
      WordsLeft(d, end, w, n);
      MoveWord(mem, d, s, w);
      MovedMore(m, p, mem[..], dest, src, len, d - dest, w);
      d := d + w;
      s := s + w;
      n := n - 1;
    }
  }

  /** The branch that copies bytes. */
  method CopyBytes(mem: array<Byte>, dest: nat, src: nat, len: nat)
    requires dest + len <= mem.Length && src + len <= mem.Length && Forward(dest, src, len)
    modifies mem
    ensures Moved(mem[..], old(mem[..]), dest, src, len)
  {
    hide Moved;
    ghost var m := mem[..];
    var s, d := src, dest;
    MovedNothing(m, dest, src);
    while d < dest + len
      invariant dest <= d <= dest + len && s - src == d - dest
      invariant Moved(mem[..], m, dest, src, d - dest)
    {
      ghost var p := mem[..];
      MoveByte(mem, d, s);
      MovedMore(m, p, mem[..], dest, src, len, d - dest, 1);
      d := d + 1;
      s := s + 1;
    }
  }

  /** `memcpy`: in either branch, for every length, the destination holds the bytes of the source
      and nothing else has changed; also where the destination overlaps the source from below. */
  method Memcpy(mem: array<Byte>, dest: nat, src: nat, len: nat, w: nat) returns (r: nat)
    requires WordSize(w) && dest + len <= mem.Length && src + len <= mem.Length && Forward(dest, src, len)
    modifies mem
    ensures mem[..] == Put(old(mem[..]), dest, old(mem[..])[src..src + len]) && r == dest
  {
    hide Put, Or;
    if Or(Or(dest, src), len) % w == 0 {
      ghost var words := WholeWords(dest, src, len, w);
      CopyWords(mem, dest, src, len, w, words);
    } else {
      CopyBytes(mem, dest, src, len);
    }
    return dest;
  }

  /** The test of all addresses at once finds the length to be whole words. */
  lemma WholeWords(x: nat, y: nat, len: nat, w: nat) returns (words: nat)
    requires WordSize(w) && Or(Or(x, y), len) % w == 0
    ensures len == words * w && x % w == 0 && y % w == 0
  {
    hide Or;
    OrAligned(Or(x, y), len);
    OrAligned(x, y);
    words := if w == 4 then len / 4 else len / 8;
  }

  // ---------------------------------------------------------------------------- memset

  /** `n` times the byte `b`. */
  function Run(b: Byte, n: nat): (r: seq<Byte>)
    ensures |r| == n
  {
    seq(n, i => b)
  }

  lemma RunMore(b: Byte, n: nat, k: nat)
    ensures Run(b, n) + Run(b, k) == Run(b, n + k)
  {
  }

  /** The word that `memset` builds by doubling: its shifts by 32 bits are two shifts by 16,
      which leave nothing in a register of 32 bits. */
  function Pattern(b: Byte, w: nat): nat {
    var bits := 8 * w;
    var w1 := Or(b, Shl(b, 8, bits));
    var w2 := Or(w1, Shl(w1, 16, bits));
    Or(w2, Shl(Shl(w2, 16, bits), 16, bits))
  }

  /** Every byte of that word is the byte. */
  lemma PatternIsRun(b: Byte, w: nat)
    requires WordSize(w)
    ensures Bytes(Pattern(b, w), w) == Run(b, w)
  {
    hide Or, Shl, Bytes, Word, Pow2;
    WordPowers();
    var bits := 8 * w;
    var w1, w2 := 0x101 * b, 0x1010101 * b;
    Doubled(b, 8, bits);
    Doubled(w1, 16, bits);
    if w == 4 {
      ShiftedOut(w2, bits);
      RunOfFour(b);
    } else {
      ShiftTwice(w2, bits);
      Doubled(w2, 32, bits);
      RunOfEight(b);
    }
    StoreLoaded(Run(b, w));
  }

  /** `x |= x << k`, if the register has room. */
  lemma Doubled(x: nat, k: nat, bits: nat)
    requires x < Pow2(k) && x * Pow2(k) < Pow2(bits)
    ensures Or(x, Shl(x, k, bits)) == x + x * Pow2(k)
  {
    hide Or, Pow2;
    DivModUnique(x * Pow2(k), Pow2(bits), 0, x * Pow2(k));
    OrDisjoint(x, x, k);
  }

  lemma ShiftedOut(x: nat, bits: nat)
    requires bits == 32 && x < Pow2(32)
    ensures Or(x, Shl(Shl(x, 16, bits), 16, bits)) == x
  {
    hide Or, Pow2;
    WordPowers();
    var h, l := x / 0x1_0000, x % 0x1_0000;
    DivModUnique(x * 0x1_0000, 0x1_0000_0000, h, l * 0x1_0000);
    DivModUnique(l * 0x1_0000 * 0x1_0000, 0x1_0000_0000, l, 0);
    OrZero(x);
  }

  lemma ShiftTwice(x: nat, bits: nat)
    requires bits == 64 && x < Pow2(32)
    ensures Shl(Shl(x, 16, bits), 16, bits) == Shl(x, 32, bits)
  {
    hide Pow2;
    WordPowers();
    DivModUnique(x * 0x1_0000, 0x1_0000_0000_0000_0000, 0, x * 0x1_0000);
  }

  lemma RunStep(b: Byte, n: nat)
    ensures Word(Run(b, 0)) == 0
    ensures Word(Run(b, n + 1)) == b + 256 * Word(Run(b, n))
  {
    assert Run(b, n + 1)[1..] == Run(b, n);
  }

  lemma RunOfFour(b: Byte)
    ensures Word(Run(b, 4)) == 0x1010101 * b
  {
    hide Word, Run;
    RunStep(b, 0);
    RunStep(b, 1);
    RunStep(b, 2);
    RunStep(b, 3);
  }

  lemma RunOfEight(b: Byte)
    ensures Word(Run(b, 8)) == 0x1010101_01010101 * b
  {
    hide Word, Run;
    RunOfFour(b);
    RunStep(b, 4);
    RunStep(b, 5);
    RunStep(b, 6);
    RunStep(b, 7);
  }

  method FillWords(mem: array<Byte>, dest: nat, b: Byte, word: nat, len: nat, w: nat, ghost words: nat)
    requires w > 0 && len == words * w && dest + len <= mem.Length && Bytes(word, w) == Run(b, w)
    modifies mem
    ensures mem[..] == Put(old(mem[..]), dest, Run(b, len))
  {
    hide Put, Bytes, Run;
    ghost var m := mem[..];
    var d := dest;
    ghost var n := words;
    RunNothing(m, dest, b);
    while d < dest + len
      invariant dest + len == d + n * w && dest <= d <= dest + len
      invariant mem[..] == Put(m, dest, Run(b, d - dest))
      decreases dest + len - d
    {
      WordsLeft(d, dest + len, w, n);
      StoreWord(mem, d, word, w);
      PutMore(m, dest, Run(b, d - dest), Run(b, w));
      RunMore(b, d - dest, w);
      d := d + w;
      n := n - 1;
    }
  }

  lemma RunNothing(m: seq<Byte>, a: nat, b: Byte)
    requires a <= |m|
    ensures Run(b, 0) == [] && Put(m, a, Run(b, 0)) == m
  {
  }

  method FillBytes(mem: array<Byte>, dest: nat, b: Byte, len: nat)
    requires dest + len <= mem.Length
    modifies mem
    ensures mem[..] == Put(old(mem[..]), dest, Run(b, len))
  {
    hide Put;
    ghost var m := mem[..];
    var d := dest;
    RunNothing(m, dest, b);
    while d < dest + len
      invariant dest <= d <= dest + len
      invariant mem[..] == Put(m, dest, Run(b, d - dest))
    {
      StoreByte(mem, d, b);
      assert [b] == Run(b, 1);
      PutMore(m, dest, Run(b, d - dest), Run(b, 1));
      RunMore(b, d - dest, 1);
      d := d + 1;
    }
  }

  /** `memset`: the low byte of `value`, in either branch, for every length, and nothing else. */
  method Memset(mem: array<Byte>, dest: nat, value: int, len: nat, w: nat) returns (r: nat)
    requires WordSize(w) && dest + len <= mem.Length
    modifies mem
    ensures mem[..] == Put(old(mem[..]), dest, Run(value % 256, len)) && r == dest
  {
    hide Put, Or, Bytes, Run, Shl;
    if Or(dest, len) % w == 0 {
      var word := value % 256;
      var bits := 8 * w;
      PatternIsRun(word, w);
      OrZero(dest);
      ghost var words := WholeWords(0, dest, len, w);
      word := Or(word, Shl(word, 8, bits));
      word := Or(word, Shl(word, 16, bits));
      word := Or(word, Shl(Shl(word, 16, bits), 16, bits));
      FillWords(mem, dest, value % 256, word, len, w, words);
    } else {
      FillBytes(mem, dest, value % 256, len);
    }
    return dest;
  }
}
