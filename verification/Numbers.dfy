/** Number printing and reading of `benchmarks/common/syscalls.c`: the digits of `printnum`,
    the padding of `%d`, and when `atol` reads back what `%d` wrote. */
module Numbers {
  import opened Arith

  // ---------------------------------------------------------------------- printing

  lemma Divided(num: nat, base: nat)
    requires base >= 2
    ensures num >= base ==> Quot(num, base) < num
    ensures num == Quot(num, base) * base + Rem(num, base)
    ensures num < base ==> Rem(num, base) == num
  {
    QuotRemSum(num, base);
    if num >= base && Quot(num, base) >= num { MulMono(num, Quot(num, base), base); MulMono(2, base, num); }
    if num < base { DivModUnique(num, base, 0, num); }
  }

  /** The digits of `num`, least significant first. */
  function Digits(num: nat, base: nat): (d: seq<nat>)
    requires base >= 2
    ensures d != [] && forall k :: 0 <= k < |d| ==> d[k] < base
  {
    Divided(num, base);
    [Rem(num, base)] + if num < base then [] else Digits(Quot(num, base), base)
  }

  /** As many digits as bits are room enough for any base. */
  lemma {:induction false} DigitsFit(num: nat, base: nat, bits: nat)
    requires base >= 2 && bits >= 1 && num < Pow2(bits)
    ensures |Digits(num, base)| <= bits
  {
    if num >= base {
      Divided(num, base);
      if bits > 1 {
        QuotBelow(num, base, Pow2(bits - 1));
        DigitsFit(Quot(num, base), base, bits - 1);
      }
    }
  }

  lemma QuotBelow(num: nat, base: nat, half: nat)
    requires base >= 2 && num < 2 * half
    ensures Quot(num, base) < half
  {
    QuotRemSum(num, base);
    if Quot(num, base) >= half { MulMono(half, Quot(num, base), base); MulMono(2, base, half); }
  }

  function DigitChar(d: nat): char
    requires d < 36
  {
    if d >= 10 then 'a' + (d - 10) as char else '0' + d as char
  }

  /** The most significant digit first. */
  function Text(d: seq<nat>): (s: string)
    requires forall k :: 0 <= k < |d| ==> d[k] < 36
    ensures |s| == |d|
  {
    if d == [] then "" else Text(d[1..]) + [DigitChar(d[0])]
  }

  function Copies(c: char, n: int): (s: string)
    ensures |s| == if n < 0 then 0 else n
    decreases n
  {
    if n <= 0 then "" else [c] + Copies(c, n - 1)
  }

  /** Digits, padded on the left. */
  function Padded(num: nat, base: nat, width: int, padc: char): string
    requires 2 <= base <= 36
  {
    var text := Text(Digits(num, base));
    Copies(padc, width - |text|) + text
  }

  lemma NextDigit(all: seq<nat>, pos: nat, num: nat, base: nat)
    requires base >= 2 && pos < |all| && all[pos..] == Digits(num, base)
    ensures all[pos] == Rem(num, base)
    ensures if num < base then |all| == pos + 1
            else Quot(num, base) < num && pos + 1 < |all| && all[pos + 1..] == Digits(Quot(num, base), base)
  {
    Divided(num, base);
    assert all[pos] == all[pos..][0] && all[pos + 1..] == all[pos..][1..];
  }

  /** The first loop of `printnum`: the digits go to `digs`, which has one element per bit. */
  method SplitDigits(num0: nat, base: nat, digs: array<nat>) returns (pos: nat)
    requires digs.Length == 64 && num0 < Pow2(64) && base >= 2
    modifies digs
    ensures pos <= 64 && digs[..pos] == Digits(num0, base)
  {
    ghost var all := Digits(num0, base);
    DigitsFit(num0, base, 64);
    hide Pow2, Quot, Rem, Digits;
    var num: nat := num0;
    assert all[0..] == all;
    pos := 0;
    while true
      invariant pos < |all| && digs[..pos] == all[..pos] && all[pos..] == Digits(num, base)
      decreases num
    {
      NextDigit(all, pos, num, base);
      digs[pos] := Rem(num, base);
      pos := pos + 1;
      if num < base { break; }
      num := Quot(num, base);
    }
  }

  /** The second loop: padding while the field is wider than the number. */
  method Pad(width0: int, pos: nat, padc: char, out: string) returns (r: string)
    ensures r == out + Copies(padc, width0 - pos)
  {
    var width := width0;
    r := out;
    while width > pos
      invariant width <= width0 && (width0 >= pos ==> width >= pos) && (width0 < pos ==> width == width0)
      invariant r == out + Copies(padc, width0 - width)
    {
      CopiesAppend(padc, width0 - width + 1);
      r := r + [padc];
      width := width - 1;
    }
    assert Copies(padc, width0 - width) == Copies(padc, width0 - pos);
  }

  /** The third loop: the digits, the last one found first. */
  method Emit(digs: array<nat>, pos0: nat, out: string) returns (r: string)
    requires pos0 <= digs.Length && forall k :: 0 <= k < pos0 ==> digs[k] < 36
    ensures r == out + Text(digs[..pos0])
  {
    ghost var all := digs[..pos0];
    var pos: nat := pos0;
    r := out;
    while pos > 0
      invariant pos <= pos0 && r == out + Text(all[pos..])
    {
      pos := pos - 1;
      assert all[pos..][1..] == all[pos + 1..];
      assert Text(all[pos..]) == Text(all[pos + 1..]) + [DigitChar(digs[pos])];
      r := r + [DigitChar(digs[pos])];
    }
    assert all[0..] == all;
  }

  /** `printnum` */
  method PrintNum(num: nat, base: nat, width: int, padc: char, out: string) returns (r: string)
    requires num < Pow2(64) && 2 <= base <= 36
    ensures r == out + Padded(num, base, width, padc)
  {
    hide Pow2, Copies, Text;
    var digs := new nat[64];
    var pos := SplitDigits(num, base, digs);
    assert forall k :: 0 <= k < pos ==> digs[k] == digs[..pos][k];
    r := Pad(width, pos, padc, out);
    r := Emit(digs, pos, r);
  }

  lemma {:induction false} CopiesAppend(c: char, n: int)
    ensures n > 0 ==> Copies(c, n) == Copies(c, n - 1) + [c]
    decreases n
  {
    if n > 1 { CopiesAppend(c, n - 1); }
  }

  /** `%d`: the sign first, then the padded magnitude. */
  function FormatD(v: int, width: int, padc: char): string {
    if v < 0 then "-" + Padded(-v, 10, width, padc) else Padded(v, 10, width, padc)
  }

  method PrintD(v: int, width: int, padc: char, out: string) returns (r: string)
    requires 0 <= v + Pow2(63) && v < Pow2(63)
    ensures r == out + FormatD(v, width, padc)
  {
    assert Pow2(64) == 2 * Pow2(63);
    hide Pow2;
    var num := v;
    r := out;
    if num < 0 {
      r := r + ['-'];
      num := -num;
    }
    r := PrintNum(num, 10, width, padc, r);
  }

  /** What a digit is worth: '0' to '9', and 'a' onwards from ten on. */
  function DigitOf(c: char): int {
    if '0' <= c <= '9' then c as int - '0' as int
    else if 'a' <= c <= 'z' then 10 + (c as int - 'a' as int)
    else -1
  }

  /** What a text is worth as a numeral in a base. */
  function Worth(s: string, base: nat): int {
    if s == "" then 0 else Worth(s[..|s| - 1], base) * base + DigitOf(s[|s| - 1])
  }

  /** `t` is the numeral of `v`: all its characters are digits of the base, and no zero is in front. */
  ghost predicate IsNumeral(t: string, v: nat, base: nat) {
    && t != "" && (forall k :: 0 <= k < |t| ==> 0 <= DigitOf(t[k]) < base)
    && (|t| > 1 ==> t[0] != '0') && Worth(t, base) == v
  }

  lemma DigitBack(d: nat)
    requires d < 36
    ensures DigitOf(DigitChar(d)) == d && (DigitChar(d) == '0' <==> d == 0)
  {
  }

  /** The digits of a number are its numeral, in every base. */
  lemma {:induction false} TextIsNumeral(num: nat, base: nat)
    requires 2 <= base <= 36
    ensures IsNumeral(Text(Digits(num, base)), num, base) && (Text(Digits(num, base))[0] == '0' <==> num == 0)
    decreases num
  {
    Divided(num, base);
    hide Quot, Rem, DigitOf, DigitChar;
    DigitBack(Rem(num, base));
    var d, c := Digits(num, base), DigitChar(Rem(num, base));
    if num < base {
      assert d[1..] == [] && Text(d) == [c] && [c][..0] == "";
      assert Worth("", base) == 0;
    } else {
      var q := Quot(num, base);
      TextIsNumeral(q, base);
      assert d[1..] == Digits(q, base);
      var t := Text(Digits(q, base));
      assert Text(d) == t + [c] && (t + [c])[..|t|] == t;
      hide Digits, Text;
    }
  }

  /** `r` is a text in a field: as many copies of `padc` as the text is short of the width, and the text. */
  ghost predicate IsField(r: string, t: string, width: int, padc: char) {
    && |r| == (if width > |t| then width else |t|) && r[|r| - |t|..] == t
    && forall k :: 0 <= k < |r| - |t| ==> r[k] == padc
  }

  lemma {:induction false} CopiesAre(c: char, n: int)
    ensures forall k :: 0 <= k < |Copies(c, n)| ==> Copies(c, n)[k] == c
    decreases n
  {
    if n > 0 { CopiesAre(c, n - 1); }
  }

  /** What `printnum` writes: the numeral in a field. */
  lemma PaddedIs(num: nat, base: nat, width: int, padc: char) returns (t: string)
    requires 2 <= base <= 36
    ensures IsNumeral(t, num, base) && IsField(Padded(num, base, width, padc), t, width, padc)
  {
    t := Text(Digits(num, base));
    TextIsNumeral(num, base);
    CopiesAre(padc, width - |t|);
  }

  /** What `%d` writes: a minus sign in front of the field, if the number is negative. */
  lemma FormatDIs(v: int, width: int, padc: char) returns (t: string)
    ensures var r := FormatD(v, width, padc);
            && IsNumeral(t, if v < 0 then -v else v, 10)
            && if v < 0 then r != "" && r[0] == '-' && IsField(r[1..], t, width, padc) else IsField(r, t, width, padc)
  {
    hide Padded, IsField, IsNumeral;
    if v < 0 {
      t := PaddedIs(-v, 10, width, padc);
      assert FormatD(v, width, padc)[1..] == Padded(-v, 10, width, padc);
    } else {
      t := PaddedIs(v, 10, width, padc);
    }
  }

  // ----------------------------------------------------------------------- reading

  /** The number that `atol` makes of a character. */
  function Code(c: char): int { c as int - '0' as int }

  function Value(s: string): int {
    if s == "" then 0 else Value(s[..|s| - 1]) * 10 + Code(s[|s| - 1])
  }

  function SkipSpaces(s: string): string { if s != "" && s[0] == ' ' then SkipSpaces(s[1..]) else s }

  function AtolOf(s: string): int {
    var t := SkipSpaces(s);
    if t != "" && t[0] == '-' then -Value(t[1..])
    else if t != "" && t[0] == '+' then Value(t[1..])
    else Value(t)
  }

  /** `atol`, on the characters before the terminating zero. */
  method Atol(str: string) returns (r: int)
    ensures r == AtolOf(str)
  {
    hide Value, SkipSpaces;
    var i, res, sign := 0, 0, false;
    assert str[0..] == str;
    while i < |str| && str[i] == ' '
      invariant i <= |str| && SkipSpaces(str[i..]) == SkipSpaces(str)
    {
      SkipOne(str, i);
      i := i + 1;
    }
    ghost var t := str[i..];
    SkipOne(str, i);
    if i < |str| && (str[i] == '-' || str[i] == '+') {
      sign := str[i] == '-';
      i := i + 1;
      assert str[i..] == t[1..];
    }
    ghost var start, rest := i, str[i..];
    ValueEmpty();
    while i < |str|
      invariant start <= i <= |str| && res == Value(rest[..i - start])
    {
      ValueNext(rest, i - start);
      res := res * 10;
      res := res + Code(str[i]);
      i := i + 1;
    }
    assert rest[..|rest|] == rest;
    return if sign then -res else res;
  }

  lemma SkipOne(s: string, i: nat)
    requires i <= |s|
    ensures SkipSpaces(s[i..]) == if i < |s| && s[i] == ' ' then SkipSpaces(s[i + 1..]) else s[i..]
  {
    if i < |s| { assert s[i..][1..] == s[i + 1..]; }
  }

  lemma ValueEmpty()
    ensures Value("") == 0
  {
  }

  lemma ValueNext(s: string, k: nat)
    requires k < |s|
    ensures Value(s[..k + 1]) == Value(s[..k]) * 10 + Code(s[k])
  {
    assert s[..k + 1][..k] == s[..k];
  }

  predicate AllDigits(s: string) { forall k :: 0 <= k < |s| ==> '0' <= s[k] <= '9' }

  /** On digits no value on the way exceeds the last one: if the number is in range, `res` and
      `res * 10` always were. */
  lemma {:induction false} NeverAbove(s: string, k: nat)
    requires AllDigits(s) && k <= |s|
    ensures 0 <= Value(s[..k]) <= Value(s) && (k < |s| ==> Value(s[..k]) * 10 <= Value(s))
    decreases |s|
  {
    if k == |s| {
      assert s[..k] == s;
      if s != "" { NeverAbove(s[..|s| - 1], |s| - 1); }
    } else {
      var t := s[..|s| - 1];
      NeverAbove(t, k);
      assert t[..k] == s[..k];
      if k == |t| { assert t[..k] == t; }
    }
  }

  /** Spaces, one sign or none, and digits. */
  lemma SignRead(n: nat, sign: string, t: string)
    requires sign in {"", "-", "+"} && AllDigits(t) && t != ""
    ensures AtolOf(Copies(' ', n) + (sign + t)) == if sign == "-" then -Worth(t, 10) else Worth(t, 10)
  {
    hide Worth, Value, SkipSpaces, Copies;
    assert AllDigits(t) ==> '0' <= t[0] <= '9';
    SpacesSkipped(n, sign + t);
    SameWorth(t);
    SignFirst(sign, t);
  }

  lemma SignFirst(sign: string, t: string)
    requires sign in {"", "-", "+"} && t != ""
    ensures var s := sign + t; if sign == "" then s == t else s[0] == sign[0] && s[1..] == t
  {
  }

  lemma {:induction false} SameWorth(t: string)
    requires AllDigits(t)
    ensures Value(t) == Worth(t, 10)
  {
    if t != "" { SameWorth(t[..|t| - 1]); }
  }

  // -------------------------------------------------------------------- round trip

  function Pow10(n: nat): (p: nat)
    ensures p > 0
  {
    if n == 0 then 1 else 10 * Pow10(n - 1)
  }

  lemma {:induction false} ValueAppend(x: string, y: string)
    ensures Value(x + y) == Value(x) * Pow10(|y|) + Value(y)
  {
    if y == "" {
      assert x + y == x;
    } else {
      var y' := y[..|y| - 1];
      assert (x + y)[..|x + y| - 1] == x + y';
      ValueAppend(x, y');
      assert Value(x) * Pow10(|y|) == Value(x) * Pow10(|y'|) * 10;
    }
  }

  /** 1, 11, 111, ... */
  function Repunit(n: nat): nat { if n == 0 then 0 else Repunit(n - 1) * 10 + 1 }

  lemma {:induction false} ValueCopies(c: char, n: nat)
    ensures Value(Copies(c, n)) == Code(c) * Repunit(n)
  {
    if n > 0 {
      CopiesAppend(c, n);
      ValueCopies(c, n - 1);
      assert Copies(c, n)[..n - 1] == Copies(c, n - 1);
      assert Code(c) * Repunit(n) == Code(c) * Repunit(n - 1) * 10 + Code(c);
    }
  }

  /** The printed digits of a number are worth the number, and fill their places. */
  lemma {:induction false} TextValue(num: nat)
    ensures var t := Text(Digits(num, 10)); t != "" && AllDigits(t) && Value(t) == num < Pow10(|t|)
  {
    var d := Digits(num, 10);
    Divided(num, 10);
    assert DigitChar(d[0]) as int == '0' as int + d[0];
    if num < 10 {
      assert d[1..] == [];
      assert Text(d) == [DigitChar(d[0])];
      assert Text(d)[..0] == "";
    } else {
      var q := Quot(num, 10);
      assert d[1..] == Digits(q, 10);
      TextValue(q);
      assert Text(d)[..|Text(d)| - 1] == Text(d[1..]);
    }
  }

  /** Digits after a run of padding characters. */
  lemma PaddedValue(c: char, pad: nat, num: nat)
    ensures var t := Text(Digits(num, 10));
            Value(Copies(c, pad) + t) == Code(c) * Repunit(pad) * Pow10(|t|) + num
  {
    var t := Text(Digits(num, 10));
    TextValue(num);
    ValueAppend(Copies(c, pad), t);
    ValueCopies(c, pad);
    hide Value, Text, Pow10, Repunit;
  }

  lemma {:induction false} SpacesSkipped(n: nat, t: string)
    requires t != "" && t[0] != ' '
    ensures SkipSpaces(Copies(' ', n) + t) == t
  {
    if n > 0 {
      assert (Copies(' ', n) + t)[1..] == Copies(' ', n - 1) + t;
      SpacesSkipped(n - 1, t);
    } else {
      assert Copies(' ', 0) + t == t;
    }
  }

  /** A number that starts with a digit, with or without a minus sign. */
  lemma ReadDigits(t: string)
    requires t != "" && t[0] !in {' ', '-', '+'}
    ensures AtolOf(t) == Value(t)
  {
  }

  lemma ReadNegative(t: string)
    ensures AtolOf("-" + t) == -Value(t)
  {
    assert ("-" + t)[1..] == t;
    hide Value;
  }

  /** When `atol` reads back what `%d` wrote into a field of some width: always with zeros as
      padding, with spaces if there is no sign, and with '-', which is also only put on the
      left, only when nothing is padded, or a zero by one. */
  predicate ReadsBack(v: int, width: int, padc: char) {
    var pad := width - |Text(Digits(if v < 0 then -v else v, 10))|;
    pad <= 0 || padc == '0' || (padc == ' ' && v >= 0) || (padc == '-' && v == 0 && pad == 1)
  }

  lemma NegativeReadsBack(v: int, width: int, padc: char)
    requires padc in {' ', '0', '-'} && v < 0
    ensures AtolOf(FormatD(v, width, padc)) == v <==> ReadsBack(v, width, padc)
  {
    hide Value, Text, Pow10, Repunit, AtolOf, Digits;
    var t := Text(Digits(-v, 10));
    var pad := width - |t|;
    var n := if pad < 0 then 0 else pad;
    SameCopies(padc, pad, n);
    hide Copies;
    ReadNegative(Padded(-v, 10, width, padc));
    PaddedValue(padc, n, -v);
    NonZero(Code(padc), n, Pow10(|t|));
  }

  lemma SameCopies(c: char, pad: int, n: nat)
    requires n == if pad < 0 then 0 else pad
    ensures Copies(c, pad) == Copies(c, n)
  {
  }

  /** Padding that is not worth zero changes the value. */
  lemma NonZero(code: int, n: nat, p: nat)
    requires p > 0
    ensures code * Repunit(n) * p == 0 <==> code == 0 || n == 0
  {
    if code != 0 && n > 0 {
      var r := Repunit(n);
      assert r > 0;
      assert code * r != 0;
    }
  }

  lemma NaturalReadsBack(v: nat, width: int, padc: char)
    requires padc in {' ', '0', '-'}
    ensures AtolOf(FormatD(v, width, padc)) == v <==> ReadsBack(v, width, padc)
  {
    hide Value, Text, Pow10, Repunit, AtolOf, Copies, Digits;
    var pad := width - |Text(Digits(v, 10))|;
    if pad <= 0 || padc == '0' {
      ZerosReadBack(v, pad, padc);
    } else if padc == ' ' {
      SpacesReadBack(v, pad);
    } else {
      MinusReadBack(v, pad);
    }
  }

  lemma ZerosReadBack(v: nat, pad: int, padc: char)
    requires pad <= 0 || padc == '0'
    ensures AtolOf(Copies(padc, pad) + Text(Digits(v, 10))) == v
  {
    TextValue(v);
    var t := Text(Digits(v, 10));
    hide Value, Text, AtolOf, Digits, Copies, Pow10, Repunit;
    if pad <= 0 {
      NoPadding(padc, pad, t);
      ReadDigits(t);
    } else {
      ZerosFirst(pad, t);
      ReadDigits(Copies(padc, pad) + t);
      PaddedValue(padc, pad, v);
      ZeroTimes(Repunit(pad), Pow10(|t|));
    }
  }

  lemma ZeroTimes(x: int, y: int)
    ensures 0 * x * y == 0
  {
  }

  lemma NoPadding(c: char, pad: int, t: string)
    requires pad <= 0
    ensures Copies(c, pad) + t == t
  {
    assert "" + t == t;
  }

  lemma ZerosFirst(pad: int, t: string)
    requires pad > 0
    ensures var z := Copies('0', pad) + t; z != "" && z[0] == '0'
  {
  }

  lemma SpacesReadBack(v: nat, pad: nat)
    ensures AtolOf(Copies(' ', pad) + Text(Digits(v, 10))) == v
  {
    TextValue(v);
    hide Value, Text, AtolOf, Digits, Copies;
    var t := Text(Digits(v, 10));
    SpacesSkipped(pad, t);
    ReadSkipped(Copies(' ', pad) + t, t);
  }

  lemma MinusReadBack(v: nat, pad: nat)
    requires pad > 0
    ensures AtolOf(Copies('-', pad) + Text(Digits(v, 10))) == v <==> v == 0 && pad == 1
  {
    TextValue(v);
    hide Value, Text, AtolOf, Digits, Pow10, Repunit;
    var t := Text(Digits(v, 10));
    assert Copies('-', pad) + t == "-" + (Copies('-', pad - 1) + t);
    hide Copies;
    ReadNegative(Copies('-', pad - 1) + t);
    PaddedValue('-', pad - 1, v);
    MinusRun(pad - 1, Pow10(|t|), v);
  }

  lemma ReadSkipped(s: string, t: string)
    requires SkipSpaces(s) == t && t != "" && t[0] !in {' ', '-', '+'}
    ensures AtolOf(s) == Value(t)
  {
  }

  /** A run of minus signs after the first one. */
  lemma MinusRun(n: nat, p: nat, v: nat)
    requires v < p
    ensures -(Code('-') * Repunit(n) * p + v) == v <==> n == 0 && v == 0
  {
    assert Code('-') == -3;
    if n > 0 {
      var r := Repunit(n);
      MulMono(1, r, p);
      assert Code('-') * r * p == -3 * (r * p);
    }
  }

  /** Exactly when the number comes back. */
  lemma ReadsBackExactly(v: int, width: int, padc: char)
    requires padc in {' ', '0', '-'}
    ensures AtolOf(FormatD(v, width, padc)) == v <==> ReadsBack(v, width, padc)
  {
    if v < 0 { NegativeReadsBack(v, width, padc); } else { NaturalReadsBack(v, width, padc); }
    hide AtolOf, FormatD, ReadsBack;
  }
}
