/** The text of an RCF file: one word per line, in binary. */
module RcfText {

  import opened Arith

  function Digit(b: nat): char { if b == 0 then '0' else '1' }

  /** Python's '{:b}' of a natural number. */
  function Bits(w: nat): string {
    if w < 2 then [Digit(w)] else Bits(w / 2) + [Digit(w % 2)]
  }

  function Zeros(n: nat): string { seq(n, i => '0') }

  /** `binword`: zero-padded on the left to at least `width` digits. */
  function BinWord(w: nat, width: nat): string {
    var b := Bits(w);
    if |b| < width then Zeros(width - |b|) + b else b
  }

  function Value(s: string): nat {
    if s == [] then 0 else 2 * Value(s[..|s| - 1]) + if s[|s| - 1] == '1' then 1 else 0
  }

  predicate Binary(s: string) { forall i :: 0 <= i < |s| ==> s[i] == '0' || s[i] == '1' }

  lemma {:induction false} ValueOfBits(w: nat)
    ensures Binary(Bits(w)) && Bits(w) != [] && Value(Bits(w)) == w
  {
    if w >= 2 {
      ValueOfBits(w / 2);
      var b := Bits(w);
      assert b[..|b| - 1] == Bits(w / 2);
    } else {
      assert Bits(w)[..0] == [];
      assert Value(Bits(w)[..0]) == 0;
    }
  }

  lemma {:induction false} PaddedValue(n: nat, s: string)
    requires s != []
    ensures Value(Zeros(n) + s) == Value(s)
    decreases |s|
  {
    var z, k := Zeros(n) + s, |s| - 1;
    assert z[..|z| - 1] == Zeros(n) + s[..k];
    if k == 0 {
      ZerosValue(n);
      assert s[..0] == [] && Zeros(n) + [] == Zeros(n);
    } else {
      PaddedValue(n, s[..k]);
    }
  }

  lemma {:induction false} ZerosValue(n: nat)
    ensures Value(Zeros(n)) == 0
  {
    if n > 0 {
      assert Zeros(n)[..n - 1] == Zeros(n - 1);
      ZerosValue(n - 1);
    }
  }

  lemma {:induction false} BitsLength(w: nat, width: nat)
    requires width > 0
    ensures |Bits(w)| <= width <==> w < Pow2(width)
    decreases width
  {
    if w >= 2 && width > 1 {
      BitsLength(w / 2, width - 1);
    } else if w >= 2 {
      BitsLength2(w);
    } else {
      Pow2AtLeast(width);
    }
  }

  lemma BitsLength2(w: nat)
    requires w >= 2
    ensures |Bits(w)| > 1 && Pow2(1) == 2
  {
    ValueOfBits(w / 2);
  }

  lemma {:induction false} Pow2AtLeast(n: nat)
    requires n > 0
    ensures Pow2(n) >= 2
  {
    if n > 1 { Pow2AtLeast(n - 1); }
  }

  /** A line reads back as its word, and is exactly `width` digits long if and only if
      the word fits; a larger word makes the line longer instead of losing digits. */
  lemma BinWordReadsBack(w: nat, width: nat)
    requires width > 0
    ensures Binary(BinWord(w, width)) && Value(BinWord(w, width)) == w
    ensures |BinWord(w, width)| == width <==> w < Pow2(width)
    ensures |BinWord(w, width)| >= width
  {
    ValueOfBits(w);
    BitsLength(w, width);
    var b := Bits(w);
    if |b| < width { PaddedValue(width - |b|, b); }
  }

  /** The file: every word on a line of its own. */
  function Text(ws: seq<nat>, width: nat): string {
    if ws == [] then [] else BinWord(ws[0], width) + ['\n'] + Text(ws[1..], width)
  }

  /** Reading a file: `line` is what has been read of the current line. */
  function Lines(text: string, line: string): seq<nat> {
    if text == [] then []
    else if text[0] == '\n' then [Value(line)] + Lines(text[1..], [])
    else Lines(text[1..], line + [text[0]])
  }

  lemma {:induction false} LineRead(digits: string, rest: string, line: string)
    requires Binary(digits)
    ensures Lines(digits + ['\n'] + rest, line) == [Value(line + digits)] + Lines(rest, [])
    decreases |digits|
  {
    var text := digits + ['\n'] + rest;
    if digits == [] {
      assert text[1..] == rest && line + [] == line;
    } else {
      assert text[0] == digits[0];
      assert text[1..] == digits[1..] + ['\n'] + rest;
      LineRead(digits[1..], rest, line + [digits[0]]);
      assert line + [digits[0]] + digits[1..] == line + digits;
    }
  }

  lemma FirstLineRead(ws: seq<nat>, width: nat)
    requires width > 0 && ws != []
    ensures Lines(Text(ws, width), []) == [ws[0]] + Lines(Text(ws[1..], width), [])
  {
    var line := BinWord(ws[0], width);
    assert [] + line == line;
    BinWordReadsBack(ws[0], width);
    LineRead(line, Text(ws[1..], width), []);
    hide BinWord, Lines, Value, Binary;
  }

  /** The file reads back as the words it was written from. */
  lemma {:induction false} TextReadsBack(ws: seq<nat>, width: nat)
    requires width > 0
    ensures Lines(Text(ws, width), []) == ws
  {
    if ws != [] {
      FirstLineRead(ws, width);
      TextReadsBack(ws[1..], width);
      hide Text, Lines;
    }
  }
}
