/** `vprintfmt` of `benchmarks/common/syscalls.c`: the format is read with jumps and a step back,
    and may end anywhere, also in the middle of an escape sequence.

    An argument is a slot of 64 bits, as RV64 passes it; `ap(k)` is argument number `k`, and
    `text(p)` the string at address `p` up to its zero. */
module Format {
  import opened Arith
  import opened Numbers

  const INT_MIN := -0x8000_0000

  type Slot = x: nat | x < 0x1_0000_0000_0000_0000

  predicate Terminated(s: string) { '\0' !in s }

  // ------------------------------------------------------------------------ arguments

  function Signed(x: nat, half: nat): int { if x < half then x else x - 2 * half }

  /** `va_arg(ap, int)` */
  function Int(x: Slot): int { Signed(x % 0x1_0000_0000, 0x8000_0000) }

  /** `getint` and `getuint` */
  function GetInt(x: Slot, lflag: nat): int { if lflag > 0 then Signed(x, 0x8000_0000_0000_0000) else Int(x) }
  function GetUint(x: Slot, lflag: nat): nat { if lflag > 0 then x else x % 0x1_0000_0000 }

  // ----------------------------------------------------------------- escape sequences

  /** What an escape sequence has set so far. */
  datatype Options = Options(padc: char, width: int, precision: int, lflag: nat)

  const PLAIN := Options(' ', -1, -1, 0)

  /** `process_precision`: the first number is the width. */
  function Precise(o: Options, n: int): Options {
    if o.width < 0 then o.(width := n, precision := -1) else o.(precision := n)
  }

  predicate Digit(c: char) { '0' <= c <= '9' }

  function DigitRun(s: string): (n: nat)
    ensures n <= |s| && (s != "" && Digit(s[0]) ==> n > 0)
  {
    if s != "" && Digit(s[0]) then 1 + DigitRun(s[1..]) else 0
  }

  /** The character that ends the switch, what follows it, the options and the next argument;
      the character is zero where the format ends first. */
  datatype Escape = Escape(ch: char, rest: string, o: Options, k: nat)

  function ReadEscape(s: string, o: Options, k: nat, ap: nat -> Slot): (e: Escape)
    ensures |e.rest| <= |s| && (s != "" ==> |e.rest| < |s|)
    decreases |s|
  {
    if s == "" then Escape('\0', "", o, k)
    else
      var c, t := s[0], s[1..];
      if c == '-' || c == '0' then ReadEscape(t, o.(padc := c), k, ap)
      else if Digit(c) then ReadEscape(s[DigitRun(s)..], Precise(o, Value(s[..DigitRun(s)])), k, ap)
      else if c == '*' then ReadEscape(t, Precise(o, Int(ap(k))), k + 1, ap)
      else if c == '.' then ReadEscape(t, if o.width < 0 then o.(width := 0) else o, k, ap)
      else if c == '#' then ReadEscape(t, o, k, ap)
      else if c == 'l' then ReadEscape(t, o.(lflag := o.lflag + 1), k, ap)
      else Escape(c, t, o, k)
  }

  /** What an escape sequence prints, and the argument after it; nothing if it is not known. */
  datatype Piece = Piece(out: string, k: nat) | Unknown

  /** The characters of a string that a precision lets through. */
  function Cut(p: string, precision: int): string {
    if precision < 0 || precision >= |p| then p else p[..precision]
  }

  /** A string in a field: padded with spaces on the right, or on the left with what was asked for. */
  function FormatS(t: string, width: int, padc: char): string {
    if padc == '-' then t + Copies(' ', width - |t|) else Copies(padc, width - |t|) + t
  }

  function Converted(ch: char, o: Options, k: nat, ap: nat -> Slot, text: Slot -> string): Piece {
    var x := ap(k);
    match ch
    case 'c' => Piece([(x % 256) as char], k + 1)
    case 's' => Piece(FormatS(Cut(if x == 0 then "(null)" else text(x), o.precision), o.width, o.padc), k + 1)
    case 'd' => Piece(FormatD(GetInt(x, o.lflag), o.width, o.padc), k + 1)
    case 'u' => Piece(Padded(GetUint(x, o.lflag), 10, o.width, o.padc), k + 1)
    case 'o' => Piece(Padded(GetUint(x, o.lflag), 8, o.width, o.padc), k + 1)
    case 'p' => Piece("0x" + Padded(x, 16, o.width, o.padc), k + 1)
    case 'x' => Piece(Padded(GetUint(x, o.lflag), 16, o.width, o.padc), k + 1)
    case '%' => Piece("%", k)
    case _ => Unknown
  }

  /** What is printed of the format `s` from argument `k` on.  After an unknown escape the text goes
      on behind its percent sign; arguments taken for a star stay taken. */
  function Formatted(s: string, k: nat, ap: nat -> Slot, text: Slot -> string): string
    decreases |s|
  {
    if s == "" then ""
    else if s[0] != '%' then [s[0]] + Formatted(s[1..], k, ap, text)
    else
      var e := ReadEscape(s[1..], PLAIN, k, ap);
      match Converted(e.ch, e.o, e.k, ap, text)
      case Piece(out, k') => out + Formatted(e.rest, k', ap, text)
      case Unknown => "%" + Formatted(s[1..], e.k, ap, text)
  }

  // ------------------------------------------------------------------------- the code

  /** The character at `fmt`. */
  function Char(f: string, fmt: nat): char
    requires fmt <= |f|
  {
    if fmt == |f| then '\0' else f[fmt]
  }

  /** The digits of a number, of which the first one has been read. */
  method ReadNumber(f: string, start: nat) returns (precision: int, fmt: nat)
    requires start < |f| && Digit(f[start])
    ensures fmt == start + DigitRun(f[start..]) <= |f| && precision == Value(f[start..fmt]) >= 0
  {
    hide Value;
    precision, fmt := 0, start + 1;
    var ch := f[start];
    ValueEmpty();
    ghost var t := f[start..];
    while true
      invariant start < fmt <= |f| && ch == f[fmt - 1] && Digit(ch)
      invariant precision == Value(t[..fmt - 1 - start]) >= 0
      invariant DigitRun(t) == fmt - 1 - start + DigitRun(f[fmt - 1..])
      decreases |f| - fmt
    {
      ValueNext(t, fmt - 1 - start);
      precision := precision * 10 + ch as int - '0' as int;
      assert f[fmt - 1..][1..] == f[fmt..];
      ch := Char(f, fmt);
      if !Digit(ch) { break; }
      fmt := fmt + 1;
    }
    assert t[..fmt - start] == f[start..fmt];
  }

  /** `strnlen`, whose bound is unsigned. */
  method StrNLen(p: string, bound: nat) returns (len: nat)
    ensures len == if bound < |p| then bound else |p|
  {
    var n: int := bound;
    len := 0;
    while n > 0 && len < |p|
      invariant len <= |p| && n == bound - len >= 0
    {
      n := n - 1;
      len := len + 1;
    }
  }

  /** The middle loop of `%s`: the characters that the precision lets through. */
  method PutString(p: string, width0: int, precision0: int, out: string) returns (r: string, width: int)
    ensures r == out + Cut(p, precision0) && width == width0 - |Cut(p, precision0)|
  {
    ghost var t := Cut(p, precision0);
    var precision := precision0;
    width := width0;
    r := out;
    var i: nat := 0;
    while i < |p|
      invariant i <= |t| && r == out + t[..i] && width == width0 - i
      invariant precision == if precision0 < 0 then precision0 else precision0 - i
      decreases |p| - i
    {
      if precision >= 0 {
        precision := precision - 1;
        if precision < 0 { break; }
      }
      r := r + [p[i]];
      i := i + 1;
      width := width - 1;
    }
    assert t[..i] == t;
  }

  /** `%s` */
  method PrintS(p: string, width0: int, precision: int, padc: char, out: string) returns (r: string)
    requires precision >= INT_MIN && |p| < 0x8000_0000_0000_0000
    ensures r == out + FormatS(Cut(p, precision), width0, padc)
  {
    hide Copies, FormatS, Cut;
    ghost var t := Cut(p, precision);
    var width := width0;
    r := out;
    if width > 0 && padc != '-' {
      var len := StrNLen(p, if precision < 0 then 0x1_0000_0000_0000_0000 + precision else precision);
      CutSize(p, precision);
      width := width - len;
      r := Pad(width, 0, padc, r);
      if width > 0 { width := 0; }
    }
    r, width := PutString(p, width, precision, r);
    FieldIs(out, t, width0, padc, width);
    r := Pad(width, 0, ' ', r);
  }

  lemma CutSize(p: string, precision: int)
    ensures |Cut(p, precision)| == if 0 <= precision < |p| then precision else |p|
  {
  }

  /** Before the string, the string, and after it. */
  lemma FieldIs(out: string, t: string, width0: int, padc: char, width: int)
    requires width == if padc == '-' || width0 <= 0 then width0 - |t|
                      else (if width0 > |t| then 0 else width0 - |t|) - |t|
    ensures var left := if width0 > 0 && padc != '-' then out + Copies(padc, width0 - |t|) else out;
            left + t + Copies(' ', width) == out + FormatS(t, width0, padc)
  {
    NoCopies(padc, width0 - |t|);
    NoCopies(' ', width);
    hide Copies;
    Regroup(out, Copies(padc, width0 - |t|), t);
    Regroup(out, t, Copies(' ', width));
    assert t + "" == t;
  }

  lemma NoCopies(c: char, n: int)
    ensures n <= 0 ==> Copies(c, n) == ""
  {
  }

  /** The known conversions. */
  method Convert(ch: char, o: Options, arg: nat, ap: nat -> Slot, text: Slot -> string, out: string)
    returns (r: string, known: bool, next: nat)
    requires o.precision >= INT_MIN && (forall p :: |text(p)| < 0x8000_0000_0000_0000)
    ensures match Converted(ch, o, arg, ap, text)
            case Piece(s, k) => known && r == out + s && next == k
            case Unknown => !known && r == out && next == arg
  {
    hide FormatD, Padded, FormatS, Cut, GetInt, Pow2;
    r, known, next := out, true, arg + 1;
    var x := ap(arg);
    Ranges(x, o.lflag);
    Ranges(x, 1);
    if ch == 'c' {
      r := r + [(x % 256) as char];
    } else if ch == 's' {
      r := PrintS(if x == 0 then "(null)" else text(x), o.width, o.precision, o.padc, r);
    } else if ch == 'd' {
      r := PrintD(GetInt(x, o.lflag), o.width, o.padc, r);
    } else if ch == 'u' {
      r := PrintNum(GetUint(x, o.lflag), 10, o.width, o.padc, r);
    } else if ch == 'o' {
      r := PrintNum(GetUint(x, o.lflag), 8, o.width, o.padc, r);
    } else if ch == 'p' {
      r := r + "0x";
      r := PrintNum(GetUint(x, 1), 16, o.width, o.padc, r);
      Regroup(out, "0x", Padded(x, 16, o.width, o.padc));
    } else if ch == 'x' {
      r := PrintNum(GetUint(x, o.lflag), 16, o.width, o.padc, r);
    } else if ch == '%' {
      r, next := r + [ch], arg;
    } else {
      known, next := false, arg;
    }
  }

  lemma Regroup(x: string, y: string, z: string)
    ensures (x + y) + z == x + (y + z)
  {
  }

  lemma Ranges(x: Slot, lflag: nat)
    ensures 0 <= GetInt(x, lflag) + Pow2(63) && GetInt(x, lflag) < Pow2(63) && GetUint(x, lflag) < Pow2(64)
  {
    hide Pow2;
    WordPowers();
  }

  /** One character of an escape sequence, by its position. */
  lemma EscapeStep(f: string, i: nat, o: Options, k: nat, ap: nat -> Slot)
    requires i < |f|
    ensures ReadEscape(f[i..], o, k, ap) ==
            var c, n := f[i], i + DigitRun(f[i..]);
            if c == '-' || c == '0' then ReadEscape(f[i + 1..], o.(padc := c), k, ap)
            else if Digit(c) then ReadEscape(f[n..], Precise(o, Value(f[i..n])), k, ap)
            else if c == '*' then ReadEscape(f[i + 1..], Precise(o, Int(ap(k))), k + 1, ap)
            else if c == '.' then ReadEscape(f[i + 1..], if o.width < 0 then o.(width := 0) else o, k, ap)
            else if c == '#' then ReadEscape(f[i + 1..], o, k, ap)
            else if c == 'l' then ReadEscape(f[i + 1..], o.(lflag := o.lflag + 1), k, ap)
            else Escape(c, f[i + 1..], o, k)
  {
    hide Value, Precise;
    var s, n := f[i..], DigitRun(f[i..]);
    assert s[1..] == f[i + 1..] && s[n..] == f[i + n..] && s[..n] == f[i..i + n];
  }

  lemma EscapeCutOff(f: string, o: Options, k: nat, ap: nat -> Slot)
    ensures ReadEscape(f[|f|..], o, k, ap) == Escape('\0', "", o, k)
  {
  }

  /** The switch, once more after each modifier; `fmt` stands behind the character that ends it. */
  method Switch(f: string, start: nat, arg0: nat, ap: nat -> Slot)
    returns (ch: char, fmt: nat, o: Options, arg: nat)
    requires Terminated(f) && start <= |f|
    ensures start < fmt <= |f| + 1 && (fmt == |f| + 1 <==> ch == '\0') && o.precision >= INT_MIN
    ensures ReadEscape(f[start..], PLAIN, arg0, ap) == Escape(ch, if fmt <= |f| then f[fmt..] else "", o, arg)
  {
    hide Value, ReadEscape, DigitRun;
    fmt, arg := start, arg0;
    var padc, width, precision, lflag: nat := ' ', -1, -1, 0;
    while true
      invariant start <= fmt <= |f| && precision >= INT_MIN
      invariant ReadEscape(f[fmt..], Options(padc, width, precision, lflag), arg, ap)
             == ReadEscape(f[start..], PLAIN, arg0, ap)
      decreases |f| - fmt
    {
      if fmt < |f| {
        EscapeStep(f, fmt, Options(padc, width, precision, lflag), arg, ap);
      } else {
        EscapeCutOff(f, Options(padc, width, precision, lflag), arg, ap);
      }
      ch := Char(f, fmt);
      fmt := fmt + 1;
      var process := false;
      if ch == '-' || ch == '0' {
        padc := ch;
      } else if '1' <= ch <= '9' {
        precision, fmt := ReadNumber(f, fmt - 1);
        process := true;
      } else if ch == '*' {
        precision := Int(ap(arg));
        arg := arg + 1;
        process := true;
      } else if ch == '.' {
        if width < 0 { width := 0; }
      } else if ch == '#' {
      } else if ch == 'l' {
        lflag := lflag + 1;
      } else {
        break;
      }
      if process && width < 0 {
        width, precision := precision, -1;
      }
    }
    o := Options(padc, width, precision, lflag);
  }

  /** `out` is what the format prints before `fmt`; the rest goes on with argument `arg`. */
  ghost predicate Printed(f: string, out: string, fmt: nat, arg: nat, ap: nat -> Slot, text: Slot -> string)
    requires fmt <= |f|
  {
    out + Formatted(f[fmt..], arg, ap, text) == Formatted(f, 0, ap, text)
  }

  lemma NothingPrinted(f: string, ap: nat -> Slot, text: Slot -> string)
    ensures Printed(f, "", 0, 0, ap, text)
  {
    assert f[0..] == f;
  }

  lemma TextPrinted(f: string, out: string, i: nat, k: nat, ap: nat -> Slot, text: Slot -> string)
    requires i < |f| && f[i] != '%' && Printed(f, out, i, k, ap, text)
    ensures Printed(f, out + [f[i]], i + 1, k, ap, text)
  {
    assert f[i..][1..] == f[i + 1..];
    Regroup(out, [f[i]], Formatted(f[i + 1..], k, ap, text));
  }

  /** An escape sequence at `i`, which the switch has read up to `n`. */
  lemma EscapePrinted(f: string, out: string, i: nat, k: nat, ch: char, n: nat, o: Options, arg: nat,
                      ap: nat -> Slot, text: Slot -> string)
    requires i < |f| && f[i] == '%' && Printed(f, out, i, k, ap, text) && (n > |f| ==> ch == '\0')
    requires ReadEscape(f[i + 1..], PLAIN, k, ap) == Escape(ch, if n <= |f| then f[n..] else "", o, arg)
    ensures match Converted(ch, o, arg, ap, text)
            case Piece(s, k') => n <= |f| && Printed(f, out + s, n, k', ap, text)
            case Unknown => Printed(f, out + "%", i + 1, arg, ap, text)
  {
    hide Converted, ReadEscape;
    assert f[i..][1..] == f[i + 1..];
    if n > |f| { ZeroUnknown(o, arg, ap, text); }
    match Converted(ch, o, arg, ap, text)
    case Piece(s, k') => Regroup(out, s, Formatted(f[n..], k', ap, text));
    case Unknown => Regroup(out, "%", Formatted(f[i + 1..], arg, ap, text));
  }

  lemma ZeroUnknown(o: Options, k: nat, ap: nat -> Slot, text: Slot -> string)
    ensures Converted('\0', o, k, ap, text) == Unknown
  {
  }

  /** The outer loop never starts beyond the zero that ends the format, whatever precedes it, and
      nothing beyond that zero is read. */
  method VPrintFmt(f: string, ap: nat -> Slot, text: Slot -> string) returns (out: string)
    requires Terminated(f) && (forall p :: |text(p)| < 0x8000_0000_0000_0000)
    ensures out == Formatted(f, 0, ap, text)
  {
    hide Converted, ReadEscape, Printed;
    out := "";
    var fmt, arg: nat := 0, 0;
    NothingPrinted(f, ap, text);
    while true
      invariant fmt <= |f| && Printed(f, out, fmt, arg, ap, text)
      decreases |f| - fmt
    {
      var ch := Char(f, fmt);
      while ch != '%'
        invariant fmt <= |f| && ch == Char(f, fmt) && Printed(f, out, fmt, arg, ap, text)
        decreases |f| - fmt
      {
        if ch == '\0' {
          AllPrinted(f, out, arg, ap, text);
          return;
        }
        TextPrinted(f, out, fmt, arg, ap, text);
        fmt := fmt + 1;
        out := out + [ch];
        ch := Char(f, fmt);
      }
      ghost var fmt0, arg0, out0 := fmt, arg, out;
      fmt := fmt + 1;
      var lastFmt := fmt;
      var o, known;
      ch, fmt, o, arg := Switch(f, fmt, arg, ap);
      EscapePrinted(f, out0, fmt0, arg0, ch, fmt, o, arg, ap, text);
      out, known, arg := Convert(ch, o, arg, ap, text, out);
      if !known {
        out := out + ['%'];
        fmt := lastFmt;
      }
    }
  }

  lemma AllPrinted(f: string, out: string, k: nat, ap: nat -> Slot, text: Slot -> string)
    requires Printed(f, out, |f|, k, ap, text)
    ensures out == Formatted(f, 0, ap, text)
  {
    FormattedEnd(f[|f|..], k, ap, text);
  }

  lemma FormattedEnd(s: string, k: nat, ap: nat -> Slot, text: Slot -> string)
    requires s == ""
    ensures Formatted(s, k, ap, text) == ""
  {
  }

  // ---------------------------------------------------------------- what formats print

  lemma {:induction false} PlainText(s: string, k: nat, ap: nat -> Slot, text: Slot -> string)
    requires '%' !in s
    ensures Formatted(s, k, ap, text) == s
  {
    if s != "" {
      PlainText(s[1..], k, ap, text);
      assert s == [s[0]] + s[1..];
    }
  }

  /** The text with every percent sign doubled. */
  function Quoted(t: string): string {
    if t == "" then "" else (if t[0] == '%' then "%%" else [t[0]]) + Quoted(t[1..])
  }

  /** Every text can be printed, by doubling its percent signs. */
  lemma {:induction false} QuotedPrints(t: string, k: nat, ap: nat -> Slot, text: Slot -> string)
    ensures Formatted(Quoted(t), k, ap, text) == t
  {
    hide Formatted;
    if t != "" {
      QuotedPrints(t[1..], k, ap, text);
      QuotedFirst(t[0], Quoted(t[1..]), k, ap, text);
      assert t == [t[0]] + t[1..];
    } else {
      FormattedEnd("", k, ap, text);
    }
  }

  lemma QuotedFirst(c: char, q: string, k: nat, ap: nat -> Slot, text: Slot -> string)
    ensures Formatted((if c == '%' then "%%" else [c]) + q, k, ap, text) == [c] + Formatted(q, k, ap, text)
  {
    if c == '%' {
      assert ("%%" + q)[1..] == "%" + q && ("%" + q)[1..] == q;
    } else {
      assert ([c] + q)[1..] == q;
    }
  }

  /** A character after which the switch is entered again. */
  predicate Modifier(c: char) { Digit(c) || c in {'-', '*', '.', '#', 'l'} }

  predicate Modifiers(w: string) { forall i :: 0 <= i < |w| ==> Modifier(w[i]) }

  lemma {:induction false} NeverEnds(w: string, o: Options, k: nat, ap: nat -> Slot)
    requires Modifiers(w)
    ensures ReadEscape(w, o, k, ap).ch == '\0'
    decreases |w|
  {
    hide Value;
    if w != "" {
      assert Modifier(w[0]);
      if '1' <= w[0] <= '9' {
        var n := DigitRun(w);
        NeverEnds(w[n..], Precise(o, Value(w[..n])), k, ap);
      } else {
        var o' := if w[0] in {'-', '0'} then o.(padc := w[0])
                  else if w[0] == '*' then Precise(o, Int(ap(k)))
                  else if w[0] == '.' && o.width < 0 then o.(width := 0)
                  else if w[0] == 'l' then o.(lflag := o.lflag + 1)
                  else o;
        NeverEnds(w[1..], o', if w[0] == '*' then k + 1 else k, ap);
      }
    }
  }

  /** An escape sequence that the end of the format cuts off is printed as it stands. */
  lemma CutOffIsLiteral(w: string, k: nat, ap: nat -> Slot, text: Slot -> string)
    requires Modifiers(w)
    ensures Formatted("%" + w, k, ap, text) == "%" + w
  {
    var e := ReadEscape(w, PLAIN, k, ap);
    NeverEnds(w, PLAIN, k, ap);
    ZeroUnknown(e.o, e.k, ap, text);
    assert ("%" + w)[1..] == w;
    forall i | 0 <= i < |w| ensures w[i] != '%' { assert Modifier(w[i]); }
    PlainText(w, e.k, ap, text);
    hide ReadEscape, Converted, Modifiers;
  }

  // -------------------------------------------------------------- formats in two parts

  /** The argument after those that `s` uses, if `s` does not end within an escape sequence. */
  function After(s: string, k: nat, ap: nat -> Slot, text: Slot -> string): Option
    decreases |s|
  {
    if s == "" then Some(k)
    else if s[0] != '%' then After(s[1..], k, ap, text)
    else
      var e := ReadEscape(s[1..], PLAIN, k, ap);
      if e.ch == '\0' then None
      else
        match Converted(e.ch, e.o, e.k, ap, text)
        case Piece(_, k') => After(e.rest, k', ap, text)
        case Unknown => After(s[1..], e.k, ap, text)
  }

  datatype Option = None | Some(k: nat)

  lemma {:induction false} SameRun(s: string, g: string)
    requires DigitRun(s) < |s|
    ensures DigitRun(s + g) == DigitRun(s)
  {
    if Digit(s[0]) {
      assert (s + g)[1..] == s[1..] + g;
      SameRun(s[1..], g);
    }
  }

  /** A sequence that ends is read alike whatever follows. */
  lemma {:induction false} ReadAlike(s: string, g: string, o: Options, k: nat, ap: nat -> Slot)
    requires ReadEscape(s, o, k, ap).ch != '\0'
    ensures var e := ReadEscape(s, o, k, ap); ReadEscape(s + g, o, k, ap) == e.(rest := e.rest + g)
    decreases |s|
  {
    hide Value;
    var c, t := s[0], s[1..];
    assert (s + g)[0] == c && (s + g)[1..] == t + g;
    if '1' <= c <= '9' {
      var n := DigitRun(s);
      assert n < |s|;
      SameRun(s, g);
      assert (s + g)[n..] == s[n..] + g && (s + g)[..n] == s[..n];
      ReadAlike(s[n..], g, Precise(o, Value(s[..n])), k, ap);
    } else if c in {'-', '0'} {
      ReadAlike(t, g, o.(padc := c), k, ap);
    } else if c == '*' {
      ReadAlike(t, g, Precise(o, Int(ap(k))), k + 1, ap);
    } else if c == '.' {
      ReadAlike(t, g, if o.width < 0 then o.(width := 0) else o, k, ap);
    } else if c == '#' {
      ReadAlike(t, g, o, k, ap);
    } else if c == 'l' {
      ReadAlike(t, g, o.(lflag := o.lflag + 1), k, ap);
    }
  }

  /** A format prints what its parts print, if the first does not end within an escape sequence;
      the second goes on with the arguments that are left. */
  lemma {:induction false} InParts(s: string, g: string, k: nat, ap: nat -> Slot, text: Slot -> string)
    requires After(s, k, ap, text).Some?
    ensures Formatted(s + g, k, ap, text)
         == Formatted(s, k, ap, text) + Formatted(g, After(s, k, ap, text).k, ap, text)
    decreases |s|
  {
    hide ReadEscape, Converted;
    if s == "" {
      assert s + g == g;
    } else {
      var t, r := s[1..], Formatted(g, After(s, k, ap, text).k, ap, text);
      assert (s + g)[0] == s[0] && (s + g)[1..] == t + g;
      if s[0] != '%' {
        InParts(t, g, k, ap, text);
        Regroup([s[0]], Formatted(t, k, ap, text), r);
      } else {
        var e := ReadEscape(t, PLAIN, k, ap);
        ReadAlike(t, g, PLAIN, k, ap);
        match Converted(e.ch, e.o, e.k, ap, text)
        case Piece(out, k') =>
          InParts(e.rest, g, k', ap, text);
          Regroup(out, Formatted(e.rest, k', ap, text), r);
        case Unknown =>
          InParts(t, g, e.k, ap, text);
          Regroup("%", Formatted(t, e.k, ap, text), r);
      }
    }
  }

  // -------------------------------------------------------------------- the arguments

  /** `v` is what the lowest 32 or 64 bits of a slot are worth, without or with an `l`. */
  ghost predicate IsSigned(v: int, x: Slot, longs: nat) {
    if longs == 0 then -0x8000_0000 <= v < 0x8000_0000 && (v - x) % 0x1_0000_0000 == 0
    else -0x8000_0000_0000_0000 <= v < 0x8000_0000_0000_0000 && (v - x) % 0x1_0000_0000_0000_0000 == 0
  }

  ghost predicate IsUnsigned(v: nat, x: Slot, longs: nat) {
    if longs == 0 then v < 0x1_0000_0000 && (v - x) % 0x1_0000_0000 == 0 else v == x
  }

  /** There is just one such number, and the program takes it. */
  lemma ArgumentIs(v: int, x: Slot, longs: nat)
    ensures IsSigned(v, x, longs) <==> v == GetInt(x, longs)
    ensures v >= 0 ==> (IsUnsigned(v, x, longs) <==> v == GetUint(x, longs))
  {
    SignedIs(v, x, 0x8000_0000_0000_0000);
    SignedIs(v, x, 0x8000_0000);
    SignedIs(v, x % 0x1_0000_0000, 0x8000_0000);
  }

  lemma SignedIs(v: int, x: nat, half: nat)
    requires half > 0
    ensures x < 2 * half ==> (0 - half <= v < half && (v - x) % (2 * half) == 0 <==> v == Signed(x, half))
    ensures (v - x) % (2 * half) == 0 <==> (v - x % (2 * half)) % (2 * half) == 0
    ensures 0 <= v < 2 * half ==> ((v - x) % (2 * half) == 0 <==> v == x % (2 * half))
  {
    var m := 2 * half;
    SameResidue(v, x, m);
    if 0 - half <= v < m { MultipleNear(v - x % m, m); }
    if x < m { DivModUnique(x, m, 0, x); }
  }

  lemma SameResidue(v: int, x: nat, m: nat)
    requires m > 0
    ensures (v - x) % m == 0 <==> (v - x % m) % m == 0
  {
    var q, r := x / m, x % m;
    var z, e := (v - r) / m, (v - r) % m;
    assert x == q * m + r && v - r == z * m + e;
    assert (z - q) * m == z * m - q * m;
    DivModUnique(v - x, m, z - q, e);
  }

  lemma MultipleNear(z: int, m: nat)
    requires -2 * m < z < m
    ensures z % m == 0 <==> z == 0 || z == 0 - m
  {
    if z >= 0 {
      DivModUnique(z, m, 0, z);
    } else if z >= 0 - m {
      DivModUnique(z, m, -1, z + m);
    } else {
      DivModUnique(z, m, -2, z + 2 * m);
    }
  }

  // ------------------------------------------------------------- all escape sequences

  /** A number in an escape sequence: none, digits, or a star for an argument. */
  datatype Field = Absent | Digits(digits: string) | Star

  /** A flag, a width, a precision behind a period, the letters `l`, and the conversion. */
  datatype Spec = Spec(flag: string, width: Field, precision: Field, longs: nat, conversion: char)

  predicate GoodField(f: Field) {
    f.Digits? ==> f.digits != "" && AllDigits(f.digits) && f.digits[0] != '0'
  }

  predicate GoodSpec(d: Spec) {
    d.flag in {"", "-", "0", "#"} && GoodField(d.width) && GoodField(d.precision)
    && !Modifier(d.conversion) && d.conversion != '\0'
  }

  function Shown(f: Field): string { match f case Absent => "" case Digits(s) => s case Star => "*" }

  function Longs(d: Spec): string { Copies('l', d.longs) + [d.conversion] }
  function FromPrecision(d: Spec): string { (if d.precision.Absent? then "" else "." + Shown(d.precision)) + Longs(d) }

  /** The escape sequence behind its percent sign. */
  function Sequence(d: Spec): string { d.flag + (Shown(d.width) + FromPrecision(d)) }

  function PadOf(d: Spec): char { if d.flag == "-" then '-' else if d.flag == "0" then '0' else ' ' }

  /** What a number in the sequence is worth, and the argument after it. */
  function FieldValue(f: Field, k: nat, ap: nat -> Slot): int {
    match f case Absent => -1 case Digits(s) => Worth(s, 10) case Star => Int(ap(k))
  }

  function Next(f: Field, k: nat): nat { if f.Star? then k + 1 else k }

  /** A precision makes a missing or negative width zero. */
  function WidthOf(d: Spec, k: nat, ap: nat -> Slot): int {
    var w := FieldValue(d.width, k, ap);
    if d.precision != Absent && w < 0 then 0 else w
  }

  function PrecisionOf(d: Spec, k: nat, ap: nat -> Slot): int { FieldValue(d.precision, Next(d.width, k), ap) }

  /** The argument that is converted comes after those for the stars. */
  function ArgumentOf(d: Spec, k: nat): nat { Next(d.precision, Next(d.width, k)) }

  lemma {:induction false} RunOfDigits(w: string, rest: string)
    requires AllDigits(w) && (rest != "" ==> !Digit(rest[0]))
    ensures DigitRun(w + rest) == |w|
  {
    if w == "" {
      assert w + rest == rest;
    } else {
      assert (w + rest)[1..] == w[1..] + rest;
      RunOfDigits(w[1..], rest);
    }
  }

  /** A number is read up to its end. */
  lemma FieldRead(f: Field, rest: string, o: Options, k: nat, ap: nat -> Slot)
    requires GoodField(f) && f != Absent && (rest != "" ==> !Digit(rest[0]))
    ensures ReadEscape(Shown(f) + rest, o, k, ap)
         == ReadEscape(rest, Precise(o, FieldValue(f, k, ap)), Next(f, k), ap)
  {
    hide Worth, Value, Precise;
    var s := Shown(f) + rest;
    if f.Star? {
      assert s[1..] == rest;
    } else {
      RunOfDigits(f.digits, rest);
      SameWorth(f.digits);
      assert s[|f.digits|..] == rest && s[..|f.digits|] == f.digits;
      assert Digit(f.digits[0]);
    }
  }

  lemma {:induction false} LongsRead(n: nat, c: char, rest: string, o: Options, k: nat, ap: nat -> Slot)
    requires !Modifier(c)
    ensures ReadEscape(Copies('l', n) + [c] + rest, o, k, ap) == Escape(c, rest, o.(lflag := o.lflag + n), k)
    decreases n
  {
    var s := Copies('l', n) + [c] + rest;
    if n == 0 {
      assert s == [c] + rest && s[1..] == rest;
    } else {
      assert s[0] == 'l' && s[1..] == Copies('l', n - 1) + [c] + rest;
      LongsRead(n - 1, c, rest, o.(lflag := o.lflag + 1), k, ap);
    }
  }

  lemma FlagRead(flag: string, rest: string, o: Options, k: nat, ap: nat -> Slot)
    requires flag in {"-", "0", "#"}
    ensures ReadEscape(flag + rest, o, k, ap)
         == ReadEscape(rest, if flag == "#" then o else o.(padc := flag[0]), k, ap)
  {
    assert (flag + rest)[1..] == rest;
  }

  lemma PointRead(rest: string, o: Options, k: nat, ap: nat -> Slot)
    ensures ReadEscape("." + rest, o, k, ap)
         == ReadEscape(rest, if o.width < 0 then o.(width := 0) else o, k, ap)
  {
    assert ("." + rest)[1..] == rest;
  }

  /** No number begins behind a width or a precision. */
  lemma NoDigitNext(d: Spec, rest: string)
    requires GoodSpec(d)
    ensures !Digit((Longs(d) + rest)[0]) && !Digit((FromPrecision(d) + rest)[0])
  {
    assert Longs(d) + rest == Copies('l', d.longs) + ([d.conversion] + rest);
    if d.longs == 0 { assert Longs(d) + rest == [d.conversion] + rest; }
    if d.precision.Absent? { assert FromPrecision(d) == Longs(d); }
  }

  lemma PrecisionRead(d: Spec, rest: string, o: Options, k: nat, ap: nat -> Slot)
    requires GoodSpec(d) && o.precision == -1
    ensures ReadEscape(FromPrecision(d) + rest, o, k, ap)
         == Escape(d.conversion, rest,
                   Options(o.padc, if d.precision != Absent && o.width < 0 then 0 else o.width,
                           FieldValue(d.precision, k, ap), o.lflag + d.longs), Next(d.precision, k))
  {
    hide ReadEscape, Digit, Modifier, GoodField;
    NoDigitNext(d, rest);
    if d.precision.Absent? {
      assert FromPrecision(d) + rest == Copies('l', d.longs) + [d.conversion] + rest;
      LongsRead(d.longs, d.conversion, rest, o, k, ap);
    } else {
      var o' := if o.width < 0 then o.(width := 0) else o;
      assert FromPrecision(d) + rest == "." + (Shown(d.precision) + (Longs(d) + rest));
      PointRead(Shown(d.precision) + (Longs(d) + rest), o, k, ap);
      FieldRead(d.precision, Longs(d) + rest, o', k, ap);
      LongsRead(d.longs, d.conversion, rest, Precise(o', FieldValue(d.precision, k, ap)), Next(d.precision, k), ap);
    }
  }

  /** Every escape sequence is read as it is written. */
  lemma SequenceRead(d: Spec, rest: string, k: nat, ap: nat -> Slot)
    requires GoodSpec(d)
    ensures ReadEscape(Sequence(d) + rest, PLAIN, k, ap)
         == Escape(d.conversion, rest, Options(PadOf(d), WidthOf(d, k, ap), PrecisionOf(d, k, ap), d.longs),
                   ArgumentOf(d, k))
  {
    hide ReadEscape, FromPrecision, Digit, Modifier, GoodField, Worth;
    NoDigitNext(d, rest);
    var tail := FromPrecision(d) + rest;
    var o := PLAIN.(padc := PadOf(d));
    assert Sequence(d) + rest == d.flag + (Shown(d.width) + tail);
    if d.flag == "" {
      assert d.flag + (Shown(d.width) + tail) == Shown(d.width) + tail;
    } else {
      FlagRead(d.flag, Shown(d.width) + tail, PLAIN, k, ap);
    }
    if d.width == Absent {
      assert Shown(d.width) + tail == tail;
      PrecisionRead(d, rest, o, k, ap);
    } else {
      FieldRead(d.width, tail, o, k, ap);
      PrecisionRead(d, rest, Precise(o, FieldValue(d.width, k, ap)), Next(d.width, k), ap);
    }
  }

  /** So a format prints the conversion, and then what the rest of it prints. */
  lemma SequencePrinted(d: Spec, rest: string, k: nat, ap: nat -> Slot, text: Slot -> string, out: string, k': nat)
    requires GoodSpec(d)
    requires Converted(d.conversion, Options(PadOf(d), WidthOf(d, k, ap), PrecisionOf(d, k, ap), d.longs),
                       ArgumentOf(d, k), ap, text) == Piece(out, k')
    ensures Formatted("%" + (Sequence(d) + rest), k, ap, text) == out + Formatted(rest, k', ap, text)
  {
    hide ReadEscape, Converted, Sequence;
    SequenceRead(d, rest, k, ap);
    assert ("%" + (Sequence(d) + rest))[1..] == Sequence(d) + rest;
  }

  /** `%d` prints the numeral of the argument, whole or its lower half, in its field; and `atol` reads it back
      in the cases that `ReadsBack` lists. */
  lemma SignedPrinted(d: Spec, rest: string, k: nat, ap: nat -> Slot, text: Slot -> string, v: int)
    returns (out: string, t: string)
    requires GoodSpec(d) && d.conversion == 'd' && IsSigned(v, ap(ArgumentOf(d, k)), d.longs)
    ensures Formatted("%" + (Sequence(d) + rest), k, ap, text)
         == out + Formatted(rest, ArgumentOf(d, k) + 1, ap, text)
    ensures IsNumeral(t, if v < 0 then -v else v, 10)
    ensures var (w, padc) := (WidthOf(d, k, ap), PadOf(d));
            && (if v < 0 then out != "" && out[0] == '-' && IsField(out[1..], t, w, padc) else IsField(out, t, w, padc))
            && (AtolOf(out) == v <==> ReadsBack(v, w, padc))
  {
    hide IsSigned, GetInt, FormatD, IsNumeral, IsField, ReadsBack, AtolOf, Sequence, Formatted, WidthOf, Modifier;
    ArgumentIs(v, ap(ArgumentOf(d, k)), d.longs);
    out := FormatD(v, WidthOf(d, k, ap), PadOf(d));
    SequencePrinted(d, rest, k, ap, text, out, ArgumentOf(d, k) + 1);
    t := FormatDIs(v, WidthOf(d, k, ap), PadOf(d));
    ReadsBackExactly(v, WidthOf(d, k, ap), PadOf(d));
  }

  /** `%u`, `%o` and `%x` print the numeral of the argument without sign, in base 10, 8 or 16. */
  lemma UnsignedPrinted(d: Spec, rest: string, k: nat, ap: nat -> Slot, text: Slot -> string, v: nat)
    returns (out: string, t: string)
    requires GoodSpec(d) && d.conversion in {'u', 'o', 'x'} && IsUnsigned(v, ap(ArgumentOf(d, k)), d.longs)
    ensures Formatted("%" + (Sequence(d) + rest), k, ap, text)
         == out + Formatted(rest, ArgumentOf(d, k) + 1, ap, text)
    ensures IsNumeral(t, v, if d.conversion == 'u' then 10 else if d.conversion == 'o' then 8 else 16)
    ensures IsField(out, t, WidthOf(d, k, ap), PadOf(d))
  {
    hide IsUnsigned, GetUint, Padded, IsNumeral, IsField, Sequence, Formatted, WidthOf, Modifier;
    ArgumentIs(v, ap(ArgumentOf(d, k)), d.longs);
    var base := if d.conversion == 'u' then 10 else if d.conversion == 'o' then 8 else 16;
    out := Padded(v, base, WidthOf(d, k, ap), PadOf(d));
    SequencePrinted(d, rest, k, ap, text, out, ArgumentOf(d, k) + 1);
    t := PaddedIs(v, base, WidthOf(d, k, ap), PadOf(d));
  }

  /** `%p` prints the whole argument in base 16 behind "0x". */
  lemma PointerPrinted(d: Spec, rest: string, k: nat, ap: nat -> Slot, text: Slot -> string)
    returns (out: string, t: string)
    requires GoodSpec(d) && d.conversion == 'p'
    ensures Formatted("%" + (Sequence(d) + rest), k, ap, text)
         == "0x" + out + Formatted(rest, ArgumentOf(d, k) + 1, ap, text)
    ensures IsNumeral(t, ap(ArgumentOf(d, k)), 16) && IsField(out, t, WidthOf(d, k, ap), PadOf(d))
  {
    hide Padded, IsNumeral, IsField, Sequence, Formatted, WidthOf, Modifier;
    out := Padded(ap(ArgumentOf(d, k)), 16, WidthOf(d, k, ap), PadOf(d));
    SequencePrinted(d, rest, k, ap, text, "0x" + out, ArgumentOf(d, k) + 1);
    t := PaddedIs(ap(ArgumentOf(d, k)), 16, WidthOf(d, k, ap), PadOf(d));
  }

  /** `%c` prints the lowest byte of the argument, and `%%` a percent sign. */
  lemma CharacterPrinted(d: Spec, rest: string, k: nat, ap: nat -> Slot, text: Slot -> string) returns (c: char)
    requires GoodSpec(d) && d.conversion in {'c', '%'}
    ensures d.conversion == 'c' ==> c as int < 256 && (ap(ArgumentOf(d, k)) - c as int) % 256 == 0
    ensures d.conversion == '%' ==> c == '%'
    ensures Formatted("%" + (Sequence(d) + rest), k, ap, text)
         == [c] + Formatted(rest, if c == d.conversion == '%' then ArgumentOf(d, k) else ArgumentOf(d, k) + 1, ap, text)
  {
    hide Sequence, Formatted, WidthOf, Modifier;
    var x := ap(ArgumentOf(d, k));
    c := if d.conversion == 'c' then (x % 256) as char else '%';
    DivModUnique(x - x % 256, 256, x / 256, 0);
    SequencePrinted(d, rest, k, ap, text, [c], if d.conversion == 'c' then ArgumentOf(d, k) + 1 else ArgumentOf(d, k));
  }

  /** `%s` prints the string, or as much of it as the precision lets through; padded with spaces behind it
      for a minus sign, and otherwise before it. */
  lemma StringPrinted(d: Spec, rest: string, k: nat, ap: nat -> Slot, text: Slot -> string) returns (out: string)
    requires GoodSpec(d) && d.conversion == 's'
    ensures Formatted("%" + (Sequence(d) + rest), k, ap, text)
         == out + Formatted(rest, ArgumentOf(d, k) + 1, ap, text)
    ensures var (x, w, p) := (ap(ArgumentOf(d, k)), WidthOf(d, k, ap), PrecisionOf(d, k, ap));
            var s := if x == 0 then "(null)" else text(x);
            var t := if 0 <= p < |s| then s[..p] else s;
            if d.flag != "-" then IsField(out, t, w, PadOf(d))
            else |out| == (if w > |t| then w else |t|) && t <= out && forall i :: |t| <= i < |out| ==> out[i] == ' '
  {
    hide Sequence, Formatted, WidthOf, PrecisionOf, Modifier, Copies;
    var x, w, p := ap(ArgumentOf(d, k)), WidthOf(d, k, ap), PrecisionOf(d, k, ap);
    var s := if x == 0 then "(null)" else text(x);
    var t := Cut(s, p);
    out := FormatS(t, w, PadOf(d));
    SequencePrinted(d, rest, k, ap, text, out, ArgumentOf(d, k) + 1);
    CopiesAre(' ', w - |t|);
    CopiesAre(PadOf(d), w - |t|);
  }

  lemma {:induction false} PlainPrefix(s: string, g: string, k: nat, ap: nat -> Slot, text: Slot -> string)
    requires '%' !in s
    ensures Formatted(s + g, k, ap, text) == s + Formatted(g, k, ap, text)
  {
    if s == "" {
      assert s + g == g;
    } else {
      assert (s + g)[1..] == s[1..] + g && s == [s[0]] + s[1..];
      PlainPrefix(s[1..], g, k, ap, text);
    }
  }

  /** Any other sequence is printed as it stands; what its stars have taken is not given back. */
  lemma UnknownPrinted(d: Spec, rest: string, k: nat, ap: nat -> Slot, text: Slot -> string)
    requires GoodSpec(d) && d.conversion !in {'c', 's', 'd', 'u', 'o', 'p', 'x', '%'}
    ensures Formatted("%" + (Sequence(d) + rest), k, ap, text)
         == "%" + Sequence(d) + Formatted(rest, ArgumentOf(d, k), ap, text)
  {
    NoPercent(d);
    hide Sequence, ReadEscape, Modifier, WidthOf, PrecisionOf;
    SequenceRead(d, rest, k, ap);
    assert ("%" + (Sequence(d) + rest))[1..] == Sequence(d) + rest;
    PlainPrefix(Sequence(d), rest, ArgumentOf(d, k), ap, text);
  }

  lemma NoPercent(d: Spec)
    requires GoodSpec(d) && d.conversion != '%'
    ensures '%' !in Sequence(d)
  {
    CopiesAre('l', d.longs);
    hide Copies, Modifier;
    assert '%' !in Shown(d.width) && '%' !in Shown(d.precision) && '%' !in Longs(d) && '%' !in FromPrecision(d);
  }
}
