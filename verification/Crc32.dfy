/** `debug/programs/checksum.c`: the checksum that download tests compute on the target,
    against the table-driven CRC of RFC 1952, section 8, that the host computes. */
module Crc32 {

  type Byte = b: bv32 | b < 0x100

  // ------------------------------------------------------------------- bit reversal

  /** The butterfly of `reverse`. */
  function Reverse(x: bv32): bv32 {
    var x1 := ((x & 0x55555555) << 1) | ((x >> 1) & 0x55555555);
    var x2 := ((x1 & 0x33333333) << 2) | ((x1 >> 2) & 0x33333333);
    var x3 := ((x2 & 0x0F0F0F0F) << 4) | ((x2 >> 4) & 0x0F0F0F0F);
    (x3 << 24) | ((x3 & 0xFF00) << 8) | ((x3 >> 8) & 0xFF00) | (x3 >> 24)
  }

  function Bit(x: bv32, i: bv6): bv32
    requires i < 32
  {
    (x >> i) & 1
  }

  /** Bit i goes to place 31 - i. */
  lemma ReverseBits(x: bv32, i: bv6)
    requires i < 32
    ensures Bit(Reverse(x), i) == Bit(x, 31 - i)
  {
  }

  lemma ReverseTwice(x: bv32)
    ensures Reverse(Reverse(x)) == x
  {
  }

  lemma ReverseXor(x: bv32, y: bv32)
    ensures Reverse(x ^ y) == Reverse(x) ^ Reverse(y)
  {
  }

  // --------------------------------------------------------- one bit of the register

  /** The register shifted left, as `crc32a` does. */
  function ShiftLeft(x: bv32): bv32 { if x & 0x80000000 != 0 then (x << 1) ^ 0x04C11DB7 else x << 1 }

  /** The register shifted right, as the table of RFC 1952 is made. */
  function ShiftRight(x: bv32): bv32 { if x & 1 == 1 then 0xEDB88320 ^ (x >> 1) else x >> 1 }

  lemma ReverseShift(x: bv32)
    ensures Reverse(x << 1) == Reverse(x) >> 1
    ensures x & 0x80000000 != 0 <==> Reverse(x) & 1 == 1
  {
  }

  lemma ReversePolynomial(p: bv32)
    requires p == 0x04C11DB7
    ensures Reverse(p) == 0xEDB88320
  {
  }

  /** The two registers are mirror images, and stay so. */
  lemma ShiftMirrored(x: bv32)
    ensures Reverse(ShiftLeft(x)) == ShiftRight(Reverse(x))
  {
    hide Reverse;
    ReverseShift(x);
    if x & 0x80000000 != 0 {
      ReverseFeedback(x << 1, 0x04C11DB7, Reverse(x) >> 1);
    }
  }

  lemma ReverseFeedback(x: bv32, p: bv32, y: bv32)
    requires Reverse(x) == y && p == 0x04C11DB7
    ensures Reverse(x ^ p) == 0xEDB88320 ^ y
  {
    hide Reverse;
    ReverseXor(x, p);
    ReversePolynomial(p);
    XorCommutes(y, Reverse(p));
  }

  /** XOR under a name, so that proofs about many steps need not look at bits. */
  function Xor(x: bv32, y: bv32): bv32 { x ^ y }

  lemma XorCommutes(x: bv32, y: bv32)
    ensures Xor(x, y) == Xor(y, x)
  {
  }

  lemma XorAssociates(x: bv32, y: bv32, z: bv32)
    ensures Xor(Xor(x, y), z) == Xor(x, Xor(y, z))
  {
  }

  lemma XorSelf(x: bv32)
    ensures Xor(x, x) == 0 && Xor(x, 0) == x
  {
  }

  /** The polynomial that a low bit of one feeds back. */
  function Feedback(x: bv32): bv32 { if x & 1 == 1 then 0xEDB88320 else 0 }

  lemma FeedbackXor(x: bv32, y: bv32)
    ensures Feedback(x ^ y) == Feedback(x) ^ Feedback(y)
  {
  }

  lemma ShiftSplit(x: bv32)
    ensures ShiftRight(x) == Feedback(x) ^ (x >> 1)
  {
    if x & 1 != 1 { XorZero(x >> 1); }
  }

  lemma XorZero(x: bv32)
    ensures 0 ^ x == x
  {
  }

  lemma XorPairs(a: bv32, x: bv32, b: bv32, y: bv32)
    ensures (a ^ b) ^ ((x ^ y) >> 1) == (a ^ (x >> 1)) ^ (b ^ (y >> 1))
  {
  }

  /** The shift is linear over XOR. */
  lemma ShiftXor(x: bv32, y: bv32)
    ensures ShiftRight(Xor(x, y)) == Xor(ShiftRight(x), ShiftRight(y))
  {
    hide ShiftRight, Feedback;
    calc {
      ShiftRight(x ^ y);
      { ShiftSplit(x ^ y); }
      Feedback(x ^ y) ^ ((x ^ y) >> 1);
      { FeedbackXor(x, y); }
      (Feedback(x) ^ Feedback(y)) ^ ((x ^ y) >> 1);
      { XorPairs(Feedback(x), x, Feedback(y), y); }
      (Feedback(x) ^ (x >> 1)) ^ (Feedback(y) ^ (y >> 1));
      { ShiftSplit(x); ShiftSplit(y); }
      ShiftRight(x) ^ ShiftRight(y);
    }
  }

  lemma ShiftInjective(x: bv32, y: bv32)
    requires ShiftRight(x) == ShiftRight(y)
    ensures x == y
  {
  }

  // ------------------------------------------------------------------- many shifts

  lemma XorCancels(x: bv32, y: bv32, z: bv32)
    requires Xor(x, y) == Xor(x, z)
    ensures y == z
  {
    assert x ^ (x ^ y) == y;
  }

  function Shifts(x: bv32, n: nat): bv32 { if n == 0 then x else ShiftRight(Shifts(x, n - 1)) }

  lemma {:induction false} ShiftsXor(x: bv32, y: bv32, n: nat)
    ensures Shifts(Xor(x, y), n) == Xor(Shifts(x, n), Shifts(y, n))
  {
    if n > 0 {
      ShiftsXor(x, y, n - 1);
      ShiftXor(Shifts(x, n - 1), Shifts(y, n - 1));
    }
    hide ShiftRight;
  }

  lemma {:induction false} ShiftsInjective(x: bv32, y: bv32, n: nat)
    requires Shifts(x, n) == Shifts(y, n)
    ensures x == y
  {
    hide ShiftRight;
    if n > 0 {
      ShiftInjective(Shifts(x, n - 1), Shifts(y, n - 1));
      ShiftsInjective(x, y, n - 1);
    }
  }

  lemma {:induction false} ShiftsAdd(x: bv32, m: nat, n: nat)
    ensures Shifts(Shifts(x, m), n) == Shifts(x, m + n)
  {
    hide ShiftRight;
    if n > 0 { ShiftsAdd(x, m, n - 1); }
  }

  function Eight(x: bv32): bv32 {
    ShiftRight(ShiftRight(ShiftRight(ShiftRight(ShiftRight(ShiftRight(ShiftRight(ShiftRight(x))))))))
  }

  lemma EightShifts(x: bv32)
    ensures Shifts(x, 8) == Eight(x)
  {
    hide ShiftRight;
    Unroll(x, 1);
    Unroll(x, 2);
    Unroll(x, 3);
    Unroll(x, 4);
    Unroll(x, 5);
    Unroll(x, 6);
    Unroll(x, 7);
    Unroll(x, 8);
    hide Shifts;
    assert Shifts(x, 0) == x by { NoShift(x); }
  }

  lemma NoShift(x: bv32)
    ensures Shifts(x, 0) == x
  {
  }

  lemma Unroll(x: bv32, n: nat)
    requires n > 0
    ensures Shifts(x, n) == ShiftRight(Shifts(x, n - 1))
  {
  }

  /** A clear low byte feeds nothing back. */
  lemma EightClear(x: bv32)
    requires x & 0xFF == 0
    ensures Eight(x) == x >> 8
  {
  }

  // ---------------------------------------------------- the checksum of RFC 1952

  /** Entry `n` of the table. */
  function Table(n: Byte): bv32 { Shifts(n, 8) }

  function LowByte(x: bv32): Byte { x & 0xFF }

  /** One byte enters the register. */
  function Update(c: bv32, b: Byte): bv32 { Xor(Table(LowByte(Xor(c, b))), c >> 8) }

  function Fold(c: bv32, s: seq<Byte>): bv32 {
    if s == [] then c else Update(Fold(c, s[..|s| - 1]), s[|s| - 1])
  }

  function Not(x: bv32): bv32 { !x }

  function Crc(s: seq<Byte>): bv32 { Not(Fold(0xFFFFFFFF, s)) }

  function HighBytes(x: bv32): bv32 { x & 0xFFFFFF00 }

  lemma SplitByte(z: bv32)
    ensures z == Xor(LowByte(z), HighBytes(z))
  {
  }

  lemma HighShifts(c: bv32, b: Byte)
    ensures Shifts(HighBytes(Xor(c, b)), 8) == c >> 8
  {
    var hi := HighBytes(Xor(c, b));
    EightShifts(hi);
    hide Shifts, Eight;
    HighClear(c, b);
    EightClear(hi);
  }

  lemma HighClear(c: bv32, b: Byte)
    ensures HighBytes(Xor(c, b)) & 0xFF == 0 && HighBytes(Xor(c, b)) >> 8 == c >> 8
  {
  }

  /** A table look-up stands for eight shifts of the whole register. */
  lemma UpdateShifts(c: bv32, b: Byte)
    ensures Update(c, b) == Shifts(Xor(c, b), 8)
  {
    hide Shifts, Xor, LowByte, HighBytes;
    var z := Xor(c, b);
    SplitByte(z);
    ShiftsXor(LowByte(z), HighBytes(z), 8);
    HighShifts(c, b);
  }

  // ------------------------------------------------------------------------ crc32a

  /** The register after the comparison of its top bit with that of the message. */
  function Compared(crc: bv32, byte: bv32): bv32 {
    if (crc ^ byte) & 0x80000000 != 0 then (crc << 1) ^ 0x04C11DB7 else crc << 1
  }

  /** Register and message together shift like one register. */
  lemma ComparedShift(crc: bv32, byte: bv32)
    ensures Compared(crc, byte) ^ (byte << 1) == ShiftLeft(crc ^ byte)
  {
    hide ShiftLeft, Compared;
    if (crc ^ byte) & 0x80000000 != 0 {
      ComparedSet(crc, byte);
      SetShift(crc, byte, Compared(crc, byte));
    } else {
      ComparedClear(crc, byte);
      ClearShift(crc, byte, Compared(crc, byte));
    }
  }

  lemma SetShift(crc: bv32, byte: bv32, r: bv32)
    requires (crc ^ byte) & 0x80000000 != 0 && r == (crc << 1) ^ 0x04C11DB7
    ensures r ^ (byte << 1) == ShiftLeft(crc ^ byte)
  {
    hide ShiftLeft;
    TopSet(crc ^ byte);
    FeedbackMoves(crc, byte);
  }

  lemma ClearShift(crc: bv32, byte: bv32, r: bv32)
    requires (crc ^ byte) & 0x80000000 == 0 && r == crc << 1
    ensures r ^ (byte << 1) == ShiftLeft(crc ^ byte)
  {
    hide ShiftLeft;
    TopClear(crc ^ byte);
    LeftXor(crc, byte);
  }

  lemma TopClear(x: bv32)
    requires x & 0x80000000 == 0
    ensures ShiftLeft(x) == x << 1
  {
  }

  lemma LeftXor(x: bv32, y: bv32)
    ensures (x << 1) ^ (y << 1) == (x ^ y) << 1
  {
  }

  lemma ComparedSet(crc: bv32, byte: bv32)
    requires (crc ^ byte) & 0x80000000 != 0
    ensures Compared(crc, byte) == (crc << 1) ^ 0x04C11DB7
  {
  }

  lemma ComparedClear(crc: bv32, byte: bv32)
    requires (crc ^ byte) & 0x80000000 == 0
    ensures Compared(crc, byte) == crc << 1
  {
  }

  lemma TopSet(x: bv32)
    requires x & 0x80000000 != 0
    ensures ShiftLeft(x) == (x << 1) ^ 0x04C11DB7
  {
  }

  lemma FeedbackMoves(crc: bv32, byte: bv32)
    ensures ((crc << 1) ^ 0x04C11DB7) ^ (byte << 1) == ((crc ^ byte) << 1) ^ 0x04C11DB7
  {
  }

  function Half(x: bv32): bv32 { x >> 1 }

  function Halves(x: bv32, n: nat): bv32 { if n == 0 then x else Half(Halves(x, n - 1)) }

  /** After `j` bits of byte `b`, from the register (mirrored) `start` with the byte XORed in. */
  ghost predicate InByte(crc: bv32, byte: bv32, start: bv32, b: Byte, j: nat) {
    Reverse(crc ^ byte) == Shifts(start, j) && Reverse(byte) == Halves(b, j)
  }

  lemma InByteStep(crc: bv32, byte: bv32, start: bv32, b: Byte, j: nat)
    requires InByte(crc, byte, start, b, j)
    ensures InByte(Compared(crc, byte), byte << 1, start, b, j + 1)
  {
    hide Reverse, Shifts, Halves, Compared;
    CrcStep(crc, byte, start, j);
    ByteStep(byte, b, j);
  }

  lemma CrcStep(crc: bv32, byte: bv32, start: bv32, j: nat)
    requires Reverse(crc ^ byte) == Shifts(start, j)
    ensures Reverse(Compared(crc, byte) ^ (byte << 1)) == Shifts(start, j + 1)
  {
    hide Reverse, ShiftLeft, ShiftRight, Compared;
    ComparedShift(crc, byte);
    ShiftMirrored(crc ^ byte);
  }

  lemma ByteStep(byte: bv32, b: Byte, j: nat)
    requires Reverse(byte) == Halves(b, j)
    ensures Reverse(byte << 1) == Halves(b, j + 1)
  {
    hide Reverse;
    ReverseShift(byte);
  }

  lemma InByteStart(crc: bv32, c: bv32, b: Byte)
    requires Reverse(crc) == c
    ensures InByte(crc, Reverse(b), Xor(c, b), b, 0)
  {
    hide Reverse;
    ReverseXor(crc, Reverse(b));
    ReverseTwice(b);
  }

  lemma InByteEnd(crc: bv32, byte: bv32, c: bv32, b: Byte)
    requires InByte(crc, byte, Xor(c, b), b, 8)
    ensures Reverse(crc) == Update(c, b)
  {
    hide Reverse, Update, Shifts, Xor, Halves;
    AllShifted(b);
    ReverseTwice(byte);
    ReverseZero(Reverse(byte));
    assert crc ^ byte == crc;
    UpdateShifts(c, b);
  }

  lemma AllShifted(b: Byte)
    ensures Halves(b, 8) == 0
  {
    hide Half;
    HalvesUnroll(b, 1);
    HalvesUnroll(b, 2);
    HalvesUnroll(b, 3);
    HalvesUnroll(b, 4);
    HalvesUnroll(b, 5);
    HalvesUnroll(b, 6);
    HalvesUnroll(b, 7);
    HalvesUnroll(b, 8);
    EightGone(b);
    hide Halves;
    assert Halves(b, 0) == b by { NoHalf(b); }
  }

  lemma NoHalf(x: bv32)
    ensures Halves(x, 0) == x
  {
  }

  lemma HalvesUnroll(x: bv32, n: nat)
    requires n > 0
    ensures Halves(x, n) == Half(Halves(x, n - 1))
  {
  }

  lemma EightGone(b: Byte)
    ensures Half(Half(Half(Half(Half(Half(Half(Half(b)))))))) == 0
  {
  }

  lemma ReverseZero(x: bv32)
    requires x == 0
    ensures Reverse(x) == 0
  {
  }

  lemma ReverseNot(x: bv32)
    ensures Reverse(!x) == Not(Reverse(x))
  {
  }

  lemma ReverseOnes(x: bv32)
    requires x == 0xFFFFFFFF
    ensures Reverse(x) == 0xFFFFFFFF
  {
  }

  /** The checksum of the first `size` bytes is the one of RFC 1952. */
  method Crc32a(message: array<Byte>, size: nat) returns (r: bv32)
    requires size <= message.Length
    ensures r == Crc(message[..size])
  {
    hide Reverse, Update, InByte, Compared, Xor;
    ghost var ones: bv32 := 0xFFFFFFFF;
    var i := 0;
    var crc: bv32 := 0xFFFFFFFF;
    ReverseOnes(crc);
    assert Reverse(crc) == Fold(0xFFFFFFFF, message[..0]);
    while i < size
      invariant i <= size && Reverse(crc) == Fold(0xFFFFFFFF, message[..i])
    {
      ghost var c, b := Fold(0xFFFFFFFF, message[..i]), message[i];
      var byte: bv32 := message[i];
      byte := Reverse(byte);
      InByteStart(crc, c, b);
      var j := 0;
      while j <= 7
        invariant j <= 8 && InByte(crc, byte, Xor(c, b), b, j)
      {
        InByteStep(crc, byte, Xor(c, b), b, j);
        if (crc ^ byte) & 0x80000000 != 0 {
          ComparedSet(crc, byte);
          crc := (crc << 1) ^ 0x04C11DB7;
        } else {
          ComparedClear(crc, byte);
          crc := crc << 1;
        }
        byte := byte << 1;
        j := j + 1;
      }
      InByteEnd(crc, byte, c, b);
      FoldStep(message[..i + 1]);
      assert message[..i + 1][..i] == message[..i];
      i := i + 1;
    }
    ReverseNot(crc);
    r := Reverse(!crc);
  }

  lemma FoldStep(s: seq<Byte>)
    requires s != []
    ensures Fold(0xFFFFFFFF, s) == Update(Fold(0xFFFFFFFF, s[..|s| - 1]), s[|s| - 1])
  {
    hide Update;
  }

  // ----------------------------------------------------------------- the host's side

  /** The library call of the download test: continues the checksum `crc` over `s`. */
  function HostCrc(s: seq<Byte>, crc: bv32): bv32 { Not(Fold(Not(crc), s)) }

  /** The host's loop: one call per byte. */
  function OneByOne(s: seq<Byte>): bv32 {
    if s == [] then 0 else HostCrc([s[|s| - 1]], OneByOne(s[..|s| - 1]))
  }

  lemma {:induction false} FoldAppend(c: bv32, s: seq<Byte>, t: seq<Byte>)
    ensures Fold(c, s + t) == Fold(Fold(c, s), t)
  {
    hide Update;
    if t == [] {
      assert s + t == s;
    } else {
      assert (s + t)[..|s + t| - 1] == s + t[..|t| - 1];
      FoldAppend(c, s, t[..|t| - 1]);
    }
  }

  lemma NotTwice(x: bv32)
    ensures Not(Not(x)) == x
  {
  }

  lemma NotOnes(x: bv32)
    requires x == 0xFFFFFFFF
    ensures Not(x) == 0
  {
  }

  /** A checksum can be continued where it stopped. */
  lemma HostContinues(crc: bv32, s: seq<Byte>, t: seq<Byte>)
    ensures HostCrc(t, HostCrc(s, crc)) == HostCrc(s + t, crc)
  {
    hide Fold, Not;
    FoldAppend(Not(crc), s, t);
    NotTwice(Fold(Not(crc), s));
  }

  lemma FoldOne(c: bv32, b: Byte)
    ensures Fold(c, [b]) == Update(c, b)
  {
    hide Update;
    assert [b][..0] == [];
  }

  /** Byte by byte the host arrives at the checksum of the whole message, the one that
      `Crc32a` computes on the target. */
  lemma {:induction false} OneByOneIsCrc(s: seq<Byte>)
    ensures OneByOne(s) == Crc(s)
  {
    hide Update, Not;
    if s == [] {
      NotOnes(Fold(0xFFFFFFFF, s));
    } else {
      var t, b := s[..|s| - 1], s[|s| - 1];
      OneByOneIsCrc(t);
      NotTwice(Fold(0xFFFFFFFF, t));
      FoldOne(Fold(0xFFFFFFFF, t), b);
    }
  }

  // ----------------------------------------------------------------------- linearity

  function XorByte(x: Byte, y: Byte): Byte { x ^ y }

  function XorBytes(x: seq<Byte>, y: seq<Byte>): seq<Byte>
    requires |x| == |y|
  {
    seq(|x|, i requires 0 <= i < |x| => XorByte(x[i], y[i]))
  }

  lemma XorExchange(a: bv32, b: bv32, c: bv32, d: bv32)
    ensures Xor(Xor(a, b), Xor(c, d)) == Xor(Xor(a, c), Xor(b, d))
  {
    hide Xor;
    XorAssociates(a, b, Xor(c, d));
    XorAssociates(b, c, d);
    XorCommutes(b, c);
    XorAssociates(c, b, d);
    XorAssociates(a, c, Xor(b, d));
  }

  lemma XorByteIs(x: Byte, y: Byte)
    ensures XorByte(x, y) == Xor(x, y)
  {
  }

  lemma UpdateXor(c: bv32, d: bv32, x: Byte, y: Byte)
    ensures Update(Xor(c, d), XorByte(x, y)) == Xor(Update(c, x), Update(d, y))
  {
    hide Update, Xor, XorByte, Shifts;
    UpdateShifts(c, x);
    UpdateShifts(d, y);
    UpdateShifts(Xor(c, d), XorByte(x, y));
    XorByteIs(x, y);
    XorExchange(c, d, x, y);
    ShiftsXor(Xor(c, x), Xor(d, y), 8);
  }

  lemma {:induction false} FoldXor(c: bv32, d: bv32, x: seq<Byte>, y: seq<Byte>)
    requires |x| == |y|
    ensures Fold(Xor(c, d), XorBytes(x, y)) == Xor(Fold(c, x), Fold(d, y))
  {
    hide Update, Xor, XorByte;
    if x != [] {
      var n := |x| - 1;
      FoldXor(c, d, x[..n], y[..n]);
      UpdateXor(Fold(c, x[..n]), Fold(d, y[..n]), x[n], y[n]);
      assert XorBytes(x, y)[..n] == XorBytes(x[..n], y[..n]);
    }
  }

  lemma NotIsXor(x: bv32)
    ensures Not(x) == Xor(x, 0xFFFFFFFF)
  {
  }

  lemma OnesThrice(ones: bv32)
    ensures Xor(Xor(ones, ones), ones) == ones
  {
    XorSelf(ones);
    XorCommutes(0, ones);
    hide Xor;
  }

  /** The checksum is affine over XOR of messages of equal length. */
  lemma CrcAffine(x: seq<Byte>, y: seq<Byte>, z: seq<Byte>)
    requires |x| == |y| == |z|
    ensures Crc(XorBytes(XorBytes(x, y), z)) == Xor(Xor(Crc(x), Crc(y)), Crc(z))
  {
    hide Fold, Xor, XorBytes, Not;
    AffineOver(0xFFFFFFFF, x, y, z);
    NotIsXor(Fold(0xFFFFFFFF, x));
    NotIsXor(Fold(0xFFFFFFFF, y));
    NotIsXor(Fold(0xFFFFFFFF, z));
    NotIsXor(Fold(0xFFFFFFFF, XorBytes(XorBytes(x, y), z)));
  }

  lemma AffineOver(ones: bv32, x: seq<Byte>, y: seq<Byte>, z: seq<Byte>)
    requires |x| == |y| == |z|
    ensures |XorBytes(x, y)| == |z|
    ensures Xor(Fold(ones, XorBytes(XorBytes(x, y), z)), ones)
         == Xor(Xor(Xor(Fold(ones, x), ones), Xor(Fold(ones, y), ones)), Xor(Fold(ones, z), ones))
  {
    hide Fold, Xor, XorByte;
    var fx, fy, fz := Fold(ones, x), Fold(ones, y), Fold(ones, z);
    FoldXor(ones, ones, x, y);
    FoldXor(Xor(ones, ones), ones, XorBytes(x, y), z);
    OnesThrice(ones);
    XorExchange(fx, ones, fy, ones);
    XorExchange(Xor(fx, fy), Xor(ones, ones), fz, ones);
  }

  // ---------------------------------------------------------------- error detection

  /** Byte `b` at place `k` of a word, least significant first. */
  function Place(b: Byte, k: nat): bv32
    requires k < 4
  {
    if k == 0 then b else if k == 1 then b << 8 else if k == 2 then b << 16 else b << 24
  }

  predicate Below(x: bv32, k: nat)
    requires k <= 4
  {
    if k == 0 then x == 0 else if k == 1 then x < 0x100 else if k == 2 then x < 0x10000
    else if k == 3 then x < 0x1000000 else true
  }

  lemma PlaceApart(x: bv32, y: bv32, a: Byte, b: Byte, k: nat)
    requires k < 4 && Below(x, k) && Below(y, k)
    requires Xor(x, Place(a, k)) == Xor(y, Place(b, k))
    ensures x == y && a == b
  {
  }

  lemma PlaceBelow(x: bv32, a: Byte, k: nat)
    requires k < 4 && Below(x, k)
    ensures Below(Xor(x, Place(a, k)), k + 1)
  {
  }

  lemma PlaceClear(b: Byte, k: nat)
    requires 0 < k < 4
    ensures Place(b, k) & 0xFF == 0 && Place(b, k) >> 8 == Place(b, k - 1)
  {
  }

  lemma {:induction false} PlaceShifts(b: Byte, k: nat)
    requires k < 4
    ensures Shifts(Place(b, k), 8 * k) == b
  {
    if k > 0 {
      PlaceEight(b, k);
      hide Place, Shifts;
      PlaceShifts(b, k - 1);
      ShiftsAdd(Place(b, k), 8, 8 * (k - 1));
    }
  }

  lemma PlaceEight(b: Byte, k: nat)
    requires 0 < k < 4
    ensures Shifts(Place(b, k), 8) == Place(b, k - 1)
  {
    hide Place, Shifts, Eight;
    PlaceClear(b, k);
    EightShifts(Place(b, k));
    EightClear(Place(b, k));
  }

  function Word(u: seq<Byte>): bv32
    requires |u| <= 4
  {
    if u == [] then 0 else Xor(Word(u[..|u| - 1]), Place(u[|u| - 1], |u| - 1))
  }

  lemma {:induction false} WordInjective(u: seq<Byte>, v: seq<Byte>)
    requires |u| == |v| <= 4 && Word(u) == Word(v)
    ensures u == v
  {
    hide Xor, Place, Below;
    if u != [] {
      var n := |u| - 1;
      WordBelow(u[..n]);
      WordBelow(v[..n]);
      PlaceApart(Word(u[..n]), Word(v[..n]), u[n], v[n], n);
      WordInjective(u[..n], v[..n]);
      assert u == u[..n] + [u[n]] && v == v[..n] + [v[n]];
    }
  }

  lemma {:induction false} WordBelow(u: seq<Byte>)
    requires |u| <= 4
    ensures Below(Word(u), |u|)
  {
    hide Xor, Place;
    if u != [] {
      WordBelow(u[..|u| - 1]);
      PlaceBelow(Word(u[..|u| - 1]), u[|u| - 1], |u| - 1);
    }
  }

  /** Up to four bytes enter the register as one word. */
  lemma {:induction false} FoldWord(c: bv32, u: seq<Byte>)
    requires |u| <= 4
    ensures Fold(c, u) == Shifts(Xor(c, Word(u)), 8 * |u|)
  {
    XorSelf(c);
    hide Xor, Update, Place, Shifts;
    if u == [] {
      NoShift(Xor(c, 0));
    } else {
      var n := |u| - 1;
      var w, b := Word(u[..n]), u[n];
      FoldWord(c, u[..n]);
      UpdateShifts(Shifts(Xor(c, w), 8 * n), b);
      PlaceShifts(b, n);
      ShiftsXor(Xor(c, w), Place(b, n), 8 * n);
      ShiftsAdd(Xor(Xor(c, w), Place(b, n)), 8 * n, 8);
      XorAssociates(c, w, Place(b, n));
    }
  }

  lemma {:induction false} FoldInjective(c: bv32, d: bv32, s: seq<Byte>)
    requires Fold(c, s) == Fold(d, s)
    ensures c == d
  {
    hide Update, Xor, Shifts;
    if s != [] {
      var n := |s| - 1;
      var c', d' := Fold(c, s[..n]), Fold(d, s[..n]);
      UpdateShifts(c', s[n]);
      UpdateShifts(d', s[n]);
      ShiftsInjective(Xor(c', s[n]), Xor(d', s[n]), 8);
      XorCommutes(c', s[n]);
      XorCommutes(d', s[n]);
      XorCancels(s[n], c', d');
      FoldInjective(c, d, s[..n]);
    }
  }

  /** Damage within four neighbouring bytes is always seen. */
  lemma BurstDetected(before: seq<Byte>, u: seq<Byte>, v: seq<Byte>, after: seq<Byte>)
    requires |u| == |v| <= 4 && u != v
    ensures Crc(before + u + after) != Crc(before + v + after)
  {
    hide Fold, Xor, Shifts, Word, Not;
    if Crc(before + u + after) == Crc(before + v + after) {
      var c := Fold(0xFFFFFFFF, before);
      NotTwice(Fold(0xFFFFFFFF, before + u + after));
      NotTwice(Fold(0xFFFFFFFF, before + v + after));
      FoldAppend(0xFFFFFFFF, before + u, after);
      FoldAppend(0xFFFFFFFF, before + v, after);
      FoldAppend(0xFFFFFFFF, before, u);
      FoldAppend(0xFFFFFFFF, before, v);
      FoldInjective(Fold(c, u), Fold(c, v), after);
      FoldWord(c, u);
      FoldWord(c, v);
      ShiftsInjective(Xor(c, Word(u)), Xor(c, Word(v)), 8 * |u|);
      XorCancels(c, Word(u), Word(v));
      WordInjective(u, v);
    }
  }
}
