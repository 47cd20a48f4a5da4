/** The value parser of `debug/testlib.py`: gdb prints a value, `tokenize` cuts it into
    tokens, and these functions consume the list of tokens from the front. */
module GdbValue {

  /** Numbers are exact; `Fault` is one of the exceptions that `tokenize` can yield. */
  datatype Token = Str(text: string) | Num(value: real) | Repeat(count: nat) | Fault(message: string)

  const OPEN := Str("{")
  const CLOSE := Str("}")
  const COMMA := Str(",")
  const EQUALS := Str("=")

  /** A parsed value.  A dict keeps its keys in the order of their first appearance. */
  datatype Value = Atom(token: Token) | Dict(entries: Entries) | List(items: seq<Token>)
  datatype Entries = NoEntry | Entry(key: Token, value: Value, more: Entries)

  /** What a call ends in: a value, or one of Python's exceptions. */
  datatype Outcome<T> = Ok(result: T) | IndexError | AssertionError | Raised(message: string) | TestLibError

  /** `result[key] = value` */
  function Assign(d: Entries, key: Token, value: Value): Entries {
    match d
    case NoEntry => Entry(key, value, NoEntry)
    case Entry(k, v, more) => if k == key then Entry(k, value, more) else Entry(k, v, Assign(more, key, value))
  }

  function Copies(x: Token, n: int): seq<Token>
    decreases n
  {
    if n <= 0 then [] else [x] + Copies(x, n - 1)
  }

  // --------------------------------------------------------------- the parser, as functions

  datatype Parsed = Parsed(value: Value, rest: seq<Token>)

  function ParseValue(ts: seq<Token>): (r: Outcome<Parsed>)
    ensures r.Ok? ==> |r.result.rest| < |ts|
    decreases |ts|, 1
  {
    if ts == [] then IndexError
    else match ts[0]
      case Fault(message) => Raised(message)
      case Num(_) => Ok(Parsed(Atom(ts[0]), ts[1..]))
      case Str(_) =>
        if ts[0] != OPEN then Ok(Parsed(Atom(ts[0]), ts[1..]))
        else if |ts| < 3 then IndexError
        else if ts[2] == EQUALS then ParseFields(ts[1..], NoEntry)
        else ParseItems(ts[1..], [])
      case Repeat(_) => TestLibError
  }

  /** The loop of `parse_dict`. */
  function ParseFields(ts: seq<Token>, d: Entries): (r: Outcome<Parsed>)
    ensures r.Ok? ==> |r.result.rest| < |ts|
    decreases |ts|, 0
  {
    if |ts| < 2 then IndexError
    else if ts[1] != EQUALS then AssertionError
    else
      var v := ParseValue(ts[2..]);
      match v
      case Ok(p) =>
        var d' := Assign(d, ts[0], p.value);
        if p.rest == [] then IndexError
        else if p.rest[0] == CLOSE then Ok(Parsed(Dict(d'), p.rest[1..]))
        else if p.rest[0] != COMMA then AssertionError
        else ParseFields(p.rest[1..], d')
      case _ => v
  }

  /** The loop of `parse_list`. */
  function ParseItems(ts: seq<Token>, l: seq<Token>): (r: Outcome<Parsed>)
    ensures r.Ok? ==> |r.result.rest| < |ts|
    decreases |ts|
  {
    if |ts| < 2 then IndexError
    else if ts[1].Repeat? then
      var l' := l + [ts[0]] + Copies(ts[0], ts[1].count - 1);
      if |ts| < 3 then IndexError else ItemsEnd(ts[2..], l')
    else ItemsEnd(ts[1..], l + [ts[0]])
  }

  function ItemsEnd(ts: seq<Token>, l: seq<Token>): (r: Outcome<Parsed>)
    requires ts != []
    ensures r.Ok? ==> |r.result.rest| < |ts|
    decreases |ts|
  {
    if ts[0] == CLOSE then Ok(Parsed(List(l), ts[1..]))
    else if ts[0] != COMMA then AssertionError
    else ParseItems(ts[1..], l)
  }

  // ------------------------------------------------------------------- printed values

  /** A value as it is printed: a struct is one field or more, an array one run or more. */
  datatype Doc = Leaf(token: Token) | Struct(fields: Fields) | Array(runs: Runs)
  datatype Fields = LastField(key: Token, doc: Doc) | Field(key: Token, doc: Doc, more: Fields)
  datatype Runs = LastRun(run: Run) | Runs(run: Run, more: Runs)
  datatype Run = Once(item: Token) | Repeated(item: Token, count: nat)

  /** Tokens that stand for themselves where a value is expected. */
  predicate Plain(t: Token) { t.Num? || (t.Str? && t != OPEN) }

  predicate Printable(doc: Doc) {
    match doc
    case Leaf(t) => Plain(t)
    case Struct(fields) => PrintableFields(fields)
    case Array(_) => true
  }

  predicate PrintableFields(fields: Fields) {
    Printable(fields.doc) && (fields.Field? ==> PrintableFields(fields.more))
  }

  function Print(doc: Doc): seq<Token> {
    match doc
    case Leaf(t) => [t]
    case Struct(fields) => [OPEN] + PrintFields(fields)
    case Array(runs) => [OPEN] + PrintRuns(runs)
  }

  function PrintFields(fields: Fields): seq<Token> {
    [fields.key, EQUALS] + Print(fields.doc) + match fields
                                               case LastField(_, _) => [CLOSE]
                                               case Field(_, _, more) => [COMMA] + PrintFields(more)
  }

  function PrintRun(run: Run): seq<Token> {
    match run
    case Once(x) => [x]
    case Repeated(x, n) => [x, Repeat(n)]
  }

  function PrintRuns(runs: Runs): seq<Token> {
    match runs
    case LastRun(run) => PrintRun(run) + [CLOSE]
    case Runs(run, more) => PrintRun(run) + [COMMA] + PrintRuns(more)
  }

  /** The value that a printed one stands for. */
  function Meaning(doc: Doc): Value {
    match doc
    case Leaf(t) => Atom(t)
    case Struct(fields) => Dict(Assigned(NoEntry, fields))
    case Array(runs) => List(Expanded(runs))
  }

  /** The assignments of the fields in turn. */
  function Assigned(d: Entries, fields: Fields): Entries
    decreases fields
  {
    var d' := Assign(d, fields.key, Meaning(fields.doc));
    if fields.Field? then Assigned(d', fields.more) else d'
  }

  /** A repeat count below two is as good as none. */
  function RunItems(run: Run): seq<Token> {
    match run
    case Once(x) => [x]
    case Repeated(x, n) => [x] + Copies(x, n - 1)
  }

  function Expanded(runs: Runs): seq<Token> {
    match runs
    case LastRun(run) => RunItems(run)
    case Runs(run, more) => RunItems(run) + Expanded(more)
  }

  // ------------------------------------------------------------------------ repeated keys

  datatype Option<T> = None | Some(value: T)

  /** `d[key]`, if there is such an entry. */
  function Lookup(d: Entries, key: Token): Option<Value> {
    if d.NoEntry? then None else if d.key == key then Some(d.value) else Lookup(d.more, key)
  }

  function KeysOf(d: Entries): seq<Token> { if d.NoEntry? then [] else [d.key] + KeysOf(d.more) }

  /** An assignment sets one key; a new key comes last, and an old one keeps its place. */
  lemma {:induction false} AssignIs(d: Entries, key: Token, value: Value, k: Token)
    ensures Lookup(Assign(d, key, value), k) == if k == key then Some(value) else Lookup(d, k)
    ensures KeysOf(Assign(d, key, value)) == KeysOf(d) + if key in KeysOf(d) then [] else [key]
  {
    if d.Entry? { AssignIs(d.more, key, value, k); }
  }

  /** The value of the last field with that key. */
  function LastValue(fields: Fields, key: Token): Option<Value> {
    var here := if fields.key == key then Some(Meaning(fields.doc)) else None;
    if fields.Field? && LastValue(fields.more, key).Some? then LastValue(fields.more, key) else here
  }

  /** A struct that names a key more than once stands for a dict with its last value. */
  lemma {:induction false} LastValueCounts(d: Entries, fields: Fields, key: Token)
    ensures Lookup(Assigned(d, fields), key)
         == if LastValue(fields, key).Some? then LastValue(fields, key) else Lookup(d, key)
    decreases fields
  {
    hide Assign, Meaning;
    var d' := Assign(d, fields.key, Meaning(fields.doc));
    AssignIs(d, fields.key, Meaning(fields.doc), key);
    if fields.Field? { LastValueCounts(d', fields.more, key); }
  }

  // --------------------------------------------------------------------- repeated items

  /** A run stands for its item, as often as its count says, but at least once. */
  lemma RunIs(run: Run)
    ensures var n := if run.Once? || run.count == 0 then 1 else run.count;
            |RunItems(run)| == n && forall i :: 0 <= i < n ==> RunItems(run)[i] == run.item
  {
    if run.Repeated? { CopiesAre(run.item, run.count - 1); }
  }

  lemma {:induction false} CopiesAre(x: Token, n: int)
    ensures |Copies(x, n)| == (if n < 0 then 0 else n) && forall i :: 0 <= i < |Copies(x, n)| ==> Copies(x, n)[i] == x
    decreases n
  {
    if n > 0 { CopiesAre(x, n - 1); }
  }

  /** The sizes cut the list into runs of equal items. */
  predicate Cuts(l: seq<Token>, sizes: seq<nat>) {
    if sizes == [] then l == []
    else
      && 0 < sizes[0] <= |l| && (forall i :: 0 <= i < sizes[0] ==> l[i] == l[0])
      && Cuts(l[sizes[0]..], sizes[1..])
  }

  /** The list in that run-length form; a run of one item with its count, or without. */
  function RunsOf(l: seq<Token>, sizes: seq<nat>, counted: bool): Runs
    requires sizes != [] && Cuts(l, sizes)
    decreases |sizes|
  {
    var run := if sizes[0] > 1 || counted then Repeated(l[0], sizes[0]) else Once(l[0]);
    if |sizes| == 1 then LastRun(run) else Runs(run, RunsOf(l[sizes[0]..], sizes[1..], counted))
  }

  /** Any run-length form of a list stands for the list. */
  lemma {:induction false} RunsOfExpand(l: seq<Token>, sizes: seq<nat>, counted: bool)
    requires sizes != [] && Cuts(l, sizes)
    ensures Expanded(RunsOf(l, sizes, counted)) == l
    decreases |sizes|
  {
    hide RunItems;
    var runs := RunsOf(l, sizes, counted);
    RunIs(runs.run);
    assert RunItems(runs.run) == l[..sizes[0]];
    if |sizes| == 1 {
      assert sizes[1..] == [] && l[sizes[0]..] == [];
      assert l == l[..sizes[0]];
    } else {
      RunsOfExpand(l[sizes[0]..], sizes[1..], counted);
      assert l == l[..sizes[0]] + l[sizes[0]..];
    }
  }

  // ------------------------------------------------- printed values are what is parsed

  lemma FieldTokens(fields: Fields, tail: seq<Token>)
    ensures fields.LastField? ==>
              PrintFields(fields) + tail == [fields.key, EQUALS] + (Print(fields.doc) + ([CLOSE] + tail))
    ensures fields.Field? ==>
              PrintFields(fields) + tail ==
              [fields.key, EQUALS] + (Print(fields.doc) + ([COMMA] + (PrintFields(fields.more) + tail)))
  {
  }

  lemma RunTokens(runs: Runs, tail: seq<Token>)
    ensures runs.LastRun? ==> PrintRuns(runs) + tail == PrintRun(runs.run) + ([CLOSE] + tail)
    ensures runs.Runs? ==>
              PrintRuns(runs) + tail == PrintRun(runs.run) + ([COMMA] + (PrintRuns(runs.more) + tail))
  {
  }

  /** The third token tells a struct from an array. */
  lemma Entered(body: seq<Token>)
    requires |body| >= 2
    ensures ParseValue([OPEN] + body)
         == if body[1] == EQUALS then ParseFields(body, NoEntry) else ParseItems(body, [])
  {
    assert ([OPEN] + body)[1..] == body && ([OPEN] + body)[2] == body[1];
    hide ParseFields, ParseItems;
  }

  lemma SecondToken(fields: Fields, runs: Runs, tail: seq<Token>)
    ensures var ts := PrintFields(fields) + tail; |ts| >= 2 && ts[1] == EQUALS
    ensures var ts := PrintRuns(runs) + tail; |ts| >= 2 && ts[1] != EQUALS
  {
    FieldTokens(fields, tail);
    RunTokens(runs, tail);
    hide PrintFields, PrintRuns, Print;
  }

  /** A printed value parses to its meaning, and no token after it is touched. */
  lemma {:induction false} ParsePrinted(doc: Doc, tail: seq<Token>)
    requires Printable(doc)
    ensures ParseValue(Print(doc) + tail) == Ok(Parsed(Meaning(doc), tail))
  {
    hide ParseFields, ParseItems, PrintFields, PrintRuns, Assigned, Expanded;
    match doc
    case Leaf(t) =>
      assert ([t] + tail)[1..] == tail;
    case Struct(fields) =>
      ParsePrintedFields(fields, NoEntry, tail);
      SecondToken(fields, LastRun(Once(OPEN)), tail);
      Entered(PrintFields(fields) + tail);
      assert Print(doc) + tail == [OPEN] + (PrintFields(fields) + tail);
    case Array(runs) =>
      ParsePrintedRuns(runs, [], tail);
      SecondToken(LastField(OPEN, Leaf(OPEN)), runs, tail);
      Entered(PrintRuns(runs) + tail);
      assert Print(doc) + tail == [OPEN] + (PrintRuns(runs) + tail);
      assert [] + Expanded(runs) == Expanded(runs);
  }

  /** One turn of the loop of `parse_dict`. */
  lemma FieldStep(key: Token, value: seq<Token>, v: Value, mark: Token, after: seq<Token>, d: Entries)
    requires ParseValue(value + ([mark] + after)) == Ok(Parsed(v, [mark] + after))
    ensures var d' := Assign(d, key, v);
            ParseFields([key, EQUALS] + (value + ([mark] + after)), d) ==
            (if mark == CLOSE then Ok(Parsed(Dict(d'), after))
             else if mark != COMMA then AssertionError
             else ParseFields(after, d'))
  {
    var ts := [key, EQUALS] + (value + ([mark] + after));
    assert ts[2..] == value + ([mark] + after);
    assert ([mark] + after)[1..] == after;
    hide ParseValue, Assign;
  }

  lemma {:induction false} ParsePrintedFields(fields: Fields, d: Entries, tail: seq<Token>)
    requires PrintableFields(fields)
    ensures ParseFields(PrintFields(fields) + tail, d) == Ok(Parsed(Dict(Assigned(d, fields)), tail))
  {
    hide ParseValue, ParseFields, Print, PrintFields, Meaning, Assign;
    FieldTokens(fields, tail);
    match fields
    case LastField(key, doc) =>
      ParsePrinted(doc, [CLOSE] + tail);
      FieldStep(key, Print(doc), Meaning(doc), CLOSE, tail, d);
    case Field(key, doc, more) =>
      var after := PrintFields(more) + tail;
      ParsePrinted(doc, [COMMA] + after);
      FieldStep(key, Print(doc), Meaning(doc), COMMA, after, d);
      ParsePrintedFields(more, Assign(d, key, Meaning(doc)), tail);
  }

  /** One turn of the loop of `parse_list`. */
  lemma RunStep(run: Run, mark: Token, after: seq<Token>, l: seq<Token>)
    requires !mark.Repeat?
    ensures ParseItems(PrintRun(run) + ([mark] + after), l)
         == if mark == CLOSE then Ok(Parsed(List(l + RunItems(run)), after))
            else if mark != COMMA then AssertionError
            else ParseItems(after, l + RunItems(run))
  {
    var end := [mark] + after;
    assert end[1..] == after;
    match run
    case Once(x) =>
      assert (PrintRun(run) + end)[1..] == end;
    case Repeated(x, n) =>
      assert (PrintRun(run) + end)[2..] == end;
      assert l + [x] + Copies(x, n - 1) == l + RunItems(run);
  }

  lemma {:induction false} ParsePrintedRuns(runs: Runs, l: seq<Token>, tail: seq<Token>)
    ensures ParseItems(PrintRuns(runs) + tail, l) == Ok(Parsed(List(l + Expanded(runs)), tail))
  {
    hide ParseItems, PrintRun, PrintRuns, RunItems;
    RunTokens(runs, tail);
    match runs
    case LastRun(run) =>
      RunStep(run, CLOSE, tail, l);
    case Runs(run, more) =>
      RunStep(run, COMMA, PrintRuns(more) + tail, l);
      ParsePrintedRuns(more, l + RunItems(run), tail);
      assert (l + RunItems(run)) + Expanded(more) == l + Expanded(runs);
  }

  /** However gdb sums up the repeats of a list, the parser returns the list. */
  lemma AnyRunsParse(l: seq<Token>, sizes: seq<nat>, counted: bool, tail: seq<Token>)
    requires sizes != [] && Cuts(l, sizes)
    ensures ParseValue(Print(Array(RunsOf(l, sizes, counted))) + tail) == Ok(Parsed(List(l), tail))
  {
    hide ParseValue, Print, RunsOf, Expanded, Cuts;
    RunsOfExpand(l, sizes, counted);
    ParsePrinted(Array(RunsOf(l, sizes, counted)), tail);
  }

  // ------------------------------------------------- nothing else is parsed

  /** Whatever parses begins with a printed value of that meaning. */
  lemma {:induction false} ParsedIsPrinted(ts: seq<Token>) returns (doc: Doc)
    requires ParseValue(ts).Ok?
    ensures var p := ParseValue(ts).result;
            Printable(doc) && Meaning(doc) == p.value && ts == Print(doc) + p.rest
    decreases |ts|, 1
  {
    hide ParseFields, ParseItems, PrintFields, PrintRuns, Assigned, Expanded;
    var p := ParseValue(ts).result;
    assert ts == [ts[0]] + ts[1..];
    if ts[0] != OPEN {
      doc := Leaf(ts[0]);
    } else if ts[2] == EQUALS {
      var fields := ParsedFields(ts[1..], NoEntry);
      doc := Struct(fields);
      assert ts == [OPEN] + (PrintFields(fields) + p.rest);
    } else {
      var runs := ParsedItems(ts[1..], []);
      doc := Array(runs);
      assert ts == [OPEN] + (PrintRuns(runs) + p.rest);
      assert [] + Expanded(runs) == Expanded(runs);
    }
  }

  lemma {:induction false} ParsedFields(ts: seq<Token>, d: Entries) returns (fields: Fields)
    requires ParseFields(ts, d).Ok?
    ensures var p := ParseFields(ts, d).result;
            PrintableFields(fields) && p.value == Dict(Assigned(d, fields)) && ts == PrintFields(fields) + p.rest
    decreases |ts|, 0
  {
    hide ParseValue, Print, PrintFields, Meaning, Assign;
    var q := ParseValue(ts[2..]).result;
    var doc := ParsedIsPrinted(ts[2..]);
    assert ts == [ts[0], EQUALS] + ts[2..];
    assert q.rest == [q.rest[0]] + q.rest[1..];
    if q.rest[0] == CLOSE {
      fields := LastField(ts[0], doc);
    } else {
      var more := ParsedFields(q.rest[1..], Assign(d, ts[0], q.value));
      fields := Field(ts[0], doc, more);
    }
    FieldTokens(fields, ParseFields(ts, d).result.rest);
  }

  lemma {:induction false} ParsedItems(ts: seq<Token>, l: seq<Token>) returns (runs: Runs)
    requires ParseItems(ts, l).Ok?
    ensures var p := ParseItems(ts, l).result;
            p.value == List(l + Expanded(runs)) && ts == PrintRuns(runs) + p.rest
    decreases |ts|
  {
    var run := FirstRun(ts, l);
    hide ParseItems, RunItems, PrintRun, PrintRuns, Expanded;
    var after := ts[|PrintRun(run)|..];
    assert after == [after[0]] + after[1..];
    if after[0] == CLOSE {
      runs := LastRun(run);
      LastExpanded(run);
    } else {
      var more := ParsedItems(after[1..], l + RunItems(run));
      runs := Runs(run, more);
      RunsExpanded(run, more, l);
    }
    RunTokens(runs, ParseItems(ts, l).result.rest);
  }

  lemma LastExpanded(run: Run)
    ensures Expanded(LastRun(run)) == RunItems(run)
  {
  }

  lemma RunsExpanded(run: Run, more: Runs, l: seq<Token>)
    ensures l + Expanded(Runs(run, more)) == (l + RunItems(run)) + Expanded(more)
  {
    assert l + (RunItems(run) + Expanded(more)) == (l + RunItems(run)) + Expanded(more);
  }

  lemma FirstRun(ts: seq<Token>, l: seq<Token>) returns (run: Run)
    requires ParseItems(ts, l).Ok?
    ensures var n := |PrintRun(run)|;
            && n < |ts| && ts == PrintRun(run) + ts[n..] && (ts[n] == CLOSE || ts[n] == COMMA)
            && ParseItems(ts, l) == if ts[n] == CLOSE then Ok(Parsed(List(l + RunItems(run)), ts[n + 1..]))
                                    else ParseItems(ts[n + 1..], l + RunItems(run))
  {
    run := if ts[1].Repeat? then Repeated(ts[0], ts[1].count) else Once(ts[0]);
    var n := |PrintRun(run)|;
    assert ts == PrintRun(run) + ts[n..];
    assert ts[n..] == [ts[n]] + ts[n + 1..];
    RunStep(run, ts[n], ts[n + 1..], l);
  }

  /** `ts` starts with a printed form of `v`, and `rest` follows. */
  ghost predicate StartsWith(ts: seq<Token>, v: Value, rest: seq<Token>) {
    exists doc :: Printable(doc) && Meaning(doc) == v && ts == Print(doc) + rest
  }

  /** The parser accepts exactly the printed values, with their meaning. */
  lemma ParsesExactlyPrinted(ts: seq<Token>, v: Value, rest: seq<Token>)
    ensures ParseValue(ts) == Ok(Parsed(v, rest)) <==> StartsWith(ts, v, rest)
  {
    hide ParseValue, Print, Meaning, Printable;
    if ParseValue(ts) == Ok(Parsed(v, rest)) {
      var doc := ParsedIsPrinted(ts);
    }
    if StartsWith(ts, v, rest) {
      var doc :| Printable(doc) && Meaning(doc) == v && ts == Print(doc) + rest;
      ParsePrinted(doc, rest);
    }
  }

  /** A lone token is a value exactly if it is plain. */
  lemma PlainExactly(t: Token)
    ensures ParseValue([t]) == Ok(Parsed(Atom(t), [])) <==> Plain(t)
  {
    assert [t][1..] == [];
  }

  // ------------------------------------------------------ every value can be printed

  predicate HasKey(d: Entries, key: Token) { d.Entry? && (d.key == key || HasKey(d.more, key)) }

  /** Dicts have an entry and no key twice, lists have an item, other values are plain tokens. */
  predicate Proper(v: Value) {
    match v
    case Atom(t) => Plain(t)
    case Dict(d) => d.Entry? && ProperEntries(d)
    case List(l) => l != []
  }

  predicate ProperEntries(d: Entries) {
    d.Entry? ==> Proper(d.value) && !HasKey(d.more, d.key) && ProperEntries(d.more)
  }

  function Join(d: Entries, e: Entries): Entries { if d.Entry? then Entry(d.key, d.value, Join(d.more, e)) else e }

  /** Every proper value has a printed form. */
  lemma {:induction false} ValuePrintable(v: Value)
    requires Proper(v)
    ensures exists doc :: Printable(doc) && Meaning(doc) == v
  {
    match v
    case Atom(t) =>
      assert Printable(Leaf(t)) && Meaning(Leaf(t)) == v;
    case Dict(d) =>
      var fields := EntriesPrintable(NoEntry, d);
      assert Printable(Struct(fields)) && Meaning(Struct(fields)) == v;
    case List(l) =>
      var runs := ItemsPrintable(l);
      assert Printable(Array(runs)) && Meaning(Array(runs)) == v;
  }

  lemma {:induction false} EntriesPrintable(before: Entries, d: Entries) returns (fields: Fields)
    requires d.Entry? && ProperEntries(d) && forall k :: HasKey(d, k) ==> !HasKey(before, k)
    ensures PrintableFields(fields) && Assigned(before, fields) == Join(before, d)
    decreases d
  {
    ValuePrintable(d.value);
    var doc :| Printable(doc) && Meaning(doc) == d.value;
    var next := Assign(before, d.key, d.value);
    AssignNew(before, d.key, d.value, d.more);
    if d.more.NoEntry? {
      fields := LastField(d.key, doc);
    } else {
      var more := EntriesPrintable(next, d.more);
      fields := Field(d.key, doc, more);
    }
  }

  lemma {:induction false} AssignNew(d: Entries, key: Token, value: Value, more: Entries)
    requires !HasKey(d, key)
    ensures Join(Assign(d, key, value), more) == Join(d, Entry(key, value, more))
    ensures forall k :: HasKey(Assign(d, key, value), k) <==> HasKey(d, k) || k == key
    ensures more.NoEntry? ==> Assign(d, key, value) == Join(d, Entry(key, value, more))
  {
    if d.Entry? { AssignNew(d.more, key, value, more); }
  }

  lemma {:induction false} ItemsPrintable(l: seq<Token>) returns (runs: Runs)
    requires l != []
    ensures Expanded(runs) == l
  {
    assert l == [l[0]] + l[1..];
    if |l| == 1 {
      runs := LastRun(Once(l[0]));
    } else {
      var more := ItemsPrintable(l[1..]);
      runs := Runs(Once(l[0]), more);
    }
  }

  // ----------------------------------------------------------- the parser, as written

  /** The list of tokens that all functions share. */
  class TokenList {
    var items: seq<Token>

    constructor (items: seq<Token>)
      ensures this.items == items
    {
      this.items := items;
    }

    /** `tokens.pop(0)` */
    method Pop() returns (t: Token)
      requires items != []
      modifies this
      ensures [t] + items == old(items)
    {
      t := items[0];
      items := items[1..];
    }
  }

  /** The outcome without the tokens left. */
  function ValueOf(o: Outcome<Parsed>): Outcome<Value> {
    match o
    case Ok(p) => Ok(p.value)
    case IndexError => IndexError
    case AssertionError => AssertionError
    case Raised(message) => Raised(message)
    case TestLibError => TestLibError
  }

  method ParseTokens(tokens: TokenList) returns (r: Outcome<Value>)
    modifies tokens
    ensures r == ValueOf(ParseValue(old(tokens.items)))
    ensures r.Ok? ==> tokens.items == ParseValue(old(tokens.items)).result.rest
    decreases |tokens.items|, 2
  {
    if tokens.items == [] { return IndexError; }
    if tokens.items[0].Fault? { return Raised(tokens.items[0].message); }
    if tokens.items[0].Num? {
      var t := tokens.Pop();
      return Ok(Atom(t));
    }
    if tokens.items[0] == OPEN {
      r := ParseDictOrList(tokens);
      return;
    }
    if tokens.items[0].Str? {
      var t := tokens.Pop();
      return Ok(Atom(t));
    }
    return TestLibError;
  }

  method ParseDictOrList(tokens: TokenList) returns (r: Outcome<Value>)
    requires tokens.items != [] && tokens.items[0] == OPEN
    modifies tokens
    ensures r == ValueOf(ParseValue(old(tokens.items)))
    ensures r.Ok? ==> tokens.items == ParseValue(old(tokens.items)).result.rest
    decreases |tokens.items|, 1
  {
    if |tokens.items| < 3 { return IndexError; }
    if tokens.items[2] == EQUALS {
      r := ParseDict(tokens);
    } else {
      r := ParseList(tokens);
    }
  }

  method ParseDict(tokens: TokenList) returns (r: Outcome<Value>)
    requires tokens.items != [] && tokens.items[0] == OPEN
    modifies tokens
    ensures r == ValueOf(ParseFields(old(tokens.items)[1..], NoEntry))
    ensures r.Ok? ==> tokens.items == ParseFields(old(tokens.items)[1..], NoEntry).result.rest
    decreases |tokens.items|, 0
  {
    var open := tokens.Pop();
    var result := NoEntry;
    while true
      invariant ParseFields(tokens.items, result) == ParseFields(old(tokens.items)[1..], NoEntry)
      invariant |tokens.items| < old(|tokens.items|)
      decreases |tokens.items|
    {
      ghost var ts := tokens.items;
      if tokens.items == [] { return IndexError; }
      var key := tokens.Pop();
      if tokens.items == [] { return IndexError; }
      var mark := tokens.Pop();
      if mark != EQUALS { return AssertionError; }
      assert tokens.items == ts[2..];
      var value := ParseTokens(tokens);
      if !value.Ok? { return value; }
      result := Assign(result, key, value.result);
      if tokens.items == [] { return IndexError; }
      var token := tokens.Pop();
      if token == CLOSE { return Ok(Dict(result)); }
      if token != COMMA { return AssertionError; }
    }
  }

  method ParseList(tokens: TokenList) returns (r: Outcome<Value>)
    requires tokens.items != [] && tokens.items[0] == OPEN
    modifies tokens
    ensures r == ValueOf(ParseItems(old(tokens.items)[1..], []))
    ensures r.Ok? ==> tokens.items == ParseItems(old(tokens.items)[1..], []).result.rest
  {
    var open := tokens.Pop();
    var result: seq<Token> := [];
    while true
      invariant ParseItems(tokens.items, result) == ParseItems(old(tokens.items)[1..], [])
      decreases |tokens.items|
    {
      ghost var ts := tokens.items;
      if tokens.items == [] { return IndexError; }
      var item := tokens.Pop();
      result := result + [item];
      if tokens.items == [] { return IndexError; }
      var token := tokens.Pop();
      assert [item, token] + tokens.items == ts && tokens.items == ts[2..];
      if token.Repeat? {
        result := result + Copies(result[|result| - 1], token.count - 1);
        if tokens.items == [] { return IndexError; }
        token := tokens.Pop();
        assert [token] + tokens.items == ts[2..];
      }
      if token == CLOSE { return Ok(List(result)); }
      if token != COMMA { return AssertionError; }
    }
  }

  /** The whole of the text must be one value. */
  method ParseRhs(tokens: seq<Token>) returns (r: Outcome<Value>)
    ensures forall v :: r == Ok(v) <==> StartsWith(tokens, v, [])
    ensures ParseValue(tokens).Ok? && ParseValue(tokens).result.rest != [] ==> r == TestLibError
    ensures !ParseValue(tokens).Ok? ==> r == ValueOf(ParseValue(tokens))
  {
    var list := new TokenList(tokens);
    r := ParseTokens(list);
    forall v ensures ParseValue(tokens) == Ok(Parsed(v, [])) <==> StartsWith(tokens, v, []) {
      ParsesExactlyPrinted(tokens, v, []);
    }
    if r.Ok? && list.items != [] { r := TestLibError; }
  }
}
