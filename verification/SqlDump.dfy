/**
 A dump writer, and the proof that the importer's four scanners undo it: statements are cut,
 tuples extracted, values separated and escapes decoded back to the rows that were written.
 */
module SqlDump {
  import opened Prelude
  import opened Text
  import opened Utf8
  import opened SqlLexer
  import opened SqlRows

  // ---------------------------------------------------------------- the writer

  function EscapeChar(c: char): string {
    if c == '\\' then "\\\\"
    else if c == '\'' then "\\'"
    else if c == '\n' then "\\n"
    else if c == '\r' then "\\r"
    else if c == '\t' then "\\t"
    else if c == '\0' then "\\0"
    else [c]
  }

  function Escape(s: string): string {
    if s == [] then [] else EscapeChar(s[0]) + Escape(s[1..])
  }

  /** A value as the dump has it: a bare token such as `42` or `NULL`, or a quoted text. */
  datatype Value = Bare(token: string) | Quoted(text: string)

  function Contents(v: Value): string {
    match v case Bare(token) => token case Quoted(text) => text
  }

  /** The value without its quotes. */
  function Raw(v: Value): string {
    match v case Bare(token) => token case Quoted(text) => Escape(text)
  }

  function ValueText(v: Value): string {
    match v case Bare(token) => token case Quoted(text) => "'" + Escape(text) + "'"
  }

  /** A bare token is free of quotes, parentheses, commas and backslashes. */
  predicate ValueOk(v: Value) {
    v.Bare? ==> forall c | c in v.token :: c != '\'' && c != '(' && c != ')' && c != ',' && c != '\\'
  }

  function Join(values: seq<Value>): string
    requires values != []
  {
    ValueText(values[0]) + if |values| == 1 then [] else "," + Join(values[1..])
  }

  /** A row and the text before its parenthesis: nothing, a comma, a newline. */
  datatype Row = Row(gap: string, values: seq<Value>)

  predicate RowOk(r: Row) {
    && r.values != []
    && (forall c | c in r.gap :: c != '\'' && c != '(' && c != ')')
    && forall k | 0 <= k < |r.values| :: ValueOk(r.values[k])
  }

  predicate RowsOk(rows: seq<Row>) {
    forall k | 0 <= k < |rows| :: RowOk(rows[k])
  }

  function RowText(r: Row): string
    requires RowOk(r)
  {
    r.gap + "(" + Join(r.values) + ")"
  }

  function RowsText(rows: seq<Row>): string
    requires RowsOk(rows)
  {
    if rows == [] then [] else RowText(rows[0]) + RowsText(rows[1..])
  }

  // ---------------------------------------------------------------- escapes

  lemma {:induction false} UnescapeEscape(s: string)
    ensures Unescape(Escape(s)) == s
  {
    if s != [] {
      UnescapeEscape(s[1..]);
    }
  }

  lemma {:induction false} EscapeIsQuoteSafe(s: string)
    ensures QuoteSafe(Escape(s))
  {
    if s != [] {
      EscapeIsQuoteSafe(s[1..]);
      var e := Escape(s);
      if |EscapeChar(s[0])| == 1 {
        assert e[1..] == Escape(s[1..]);
      } else {
        assert e[2..] == Escape(s[1..]);
      }
    }
  }

  lemma {:induction false} EscapeConcat(s: string, t: string)
    ensures Escape(s + t) == Escape(s) + Escape(t)
  {
    hide EscapeChar;
    if s == [] {
      assert s + t == t;
    } else {
      assert (s + t)[1..] == s[1..] + t;
      EscapeConcat(s[1..], t);
    }
  }

  /** Trimming the front of an escaped text drops characters of the text itself. */
  lemma {:induction false} TrimStartEscaped(s: string) returns (k: nat)
    ensures k <= |s| && TrimStart(Escape(s)) == Escape(s[k..])
  {
    if s == [] || |EscapeChar(s[0])| == 2 || !IsWhitespace(s[0]) {
      k := 0;
      assert s[0..] == s;
    } else {
      assert Escape(s)[1..] == Escape(s[1..]);
      var j := TrimStartEscaped(s[1..]);
      k := j + 1;
      assert s[1..][j..] == s[k..];
    }
  }

  lemma EscapeLast(s: string)
    requires s != []
    ensures Escape(s) == Escape(s[..|s| - 1]) + EscapeChar(s[|s| - 1])
  {
    hide EscapeChar;
    var n := |s| - 1;
    assert s == s[..n] + [s[n]];
    EscapeConcat(s[..n], [s[n]]);
    assert [s[n]][1..] == [];
    assert Escape([s[n]]) == EscapeChar(s[n]);
  }

  lemma EscapeCharEdge(c: char)
    ensures var e := EscapeChar(c);
            || (|e| == 1 && e[0] == c)
            || (|e| == 2 && !IsWhitespace(e[1]))
  {
  }

  lemma {:induction false} TrimEndEscaped(s: string) returns (m: nat)
    ensures m <= |s| && TrimEnd(Escape(s)) == Escape(s[..m])
  {
    hide EscapeChar, Escape, IsWhitespace;
    if s == [] {
      m := 0;
      assert TrimEnd(Escape([])) == Escape([]) by { EscapeNothing(); }
    } else {
      var n, e := |s| - 1, Escape(s);
      EscapeLast(s);
      EscapeCharEdge(s[n]);
      if IsWhitespace(e[|e| - 1]) {
        assert e[..|e| - 1] == Escape(s[..n]);
        m := TrimEndEscaped(s[..n]);
        assert s[..n][..m] == s[..m];
      } else {
        m := |s|;
        assert s[..m] == s;
      }
    }
  }

  lemma EscapeNothing()
    ensures Escape([]) == []
  {
  }

  lemma TrimShortens(s: string)
    ensures Trim(s) == s <==> CleanEdges(s)
  {
    if s != [] && IsWhitespace(s[|s| - 1]) {
      assert |TrimEnd(s)| < |s|;
    } else if s != [] && IsWhitespace(s[0]) {
      assert TrimEnd(s) == s && |TrimStart(s)| < |s|;
    }
  }

  /** The decoded value is the text that was written exactly when the raw text has clean edges. */
  lemma DecodeQuotedExact(text: string)
    ensures Unescape(Trim(Escape(text))) == text <==> CleanEdges(Escape(text))
  {
    hide Unescape, Escape, TrimStart, TrimEnd;
    var m := TrimEndEscaped(text);
    var k := TrimStartEscaped(text[..m]);
    assert Trim(Escape(text)) == Escape(text[..m][k..]);
    UnescapeEscape(text[..m][k..]);
    TrimShortens(Escape(text));
    if text[..m][k..] == text {
      assert |text[..m][k..]| == m - k;
    }
    UnescapeEscape(text);
  }

  lemma {:induction false} UnescapePlain(s: string)
    requires '\\' !in s
    ensures Unescape(s) == s
  {
    if s != [] {
      assert s[0] in s;
      UnescapePlain(s[1..]);
    }
  }

  lemma {:induction false} TrimStartIn(s: string, c: char)
    requires c in TrimStart(s)
    ensures c in s
  {
    if s != [] && IsWhitespace(s[0]) {
      TrimStartIn(s[1..], c);
    }
  }

  lemma {:induction false} TrimEndIn(s: string, c: char)
    requires c in TrimEnd(s)
    ensures c in s
  {
    if s != [] && IsWhitespace(s[|s| - 1]) {
      TrimEndIn(s[..|s| - 1], c);
    }
  }

  lemma DecodeExact(v: Value)
    requires ValueOk(v)
    ensures Unescape(Trim(Raw(v))) == Contents(v) <==> CleanEdges(Raw(v))
  {
    hide Unescape, TrimStart, TrimEnd, Escape;
    match v {
      case Bare(token) =>
        if '\\' in Trim(token) {
          TrimStartIn(TrimEnd(token), '\\');
          TrimEndIn(token, '\\');
        }
        UnescapePlain(Trim(token));
        TrimShortens(token);
      case Quoted(text) => DecodeQuotedExact(text);
    }
  }

  // ---------------------------------------------------------------- tuples

  lemma {:induction false} TuplesConcat(st: TupleScan, a: string, b: string)
    ensures TupleSteps(st, a + b) == TupleSteps(TupleSteps(st, a), b)
    ensures Tuples(st, a + b) == Tuples(st, a) + Tuples(TupleSteps(st, a), b)
    decreases |a|
  {
    hide TupleStep, Closes;
    if a == [] {
      assert a + b == b;
      assert Tuples(st, a) == [];
    } else {
      assert (a + b)[1..] == a[1..] + b;
      TuplesConcat(TupleStep(st, a[0]), a[1..], b);
      ClosesConcat(st, a, b);
    }
  }

  lemma ClosesConcat(st: TupleScan, a: string, b: string)
    requires a != []
    requires Tuples(TupleStep(st, a[0]), a[1..] + b) ==
             Tuples(TupleStep(st, a[0]), a[1..]) + Tuples(TupleSteps(TupleStep(st, a[0]), a[1..]), b)
    ensures Tuples(st, a + b) == Tuples(st, a) + Tuples(TupleSteps(st, a), b)
  {
    hide TupleStep;
    var first := if Closes(st, a[0]) then [st.open.value] else [];
    var st' := TupleStep(st, a[0]);
    assert (a + b)[1..] == a[1..] + b;
    Assoc(first, Tuples(st', a[1..]), Tuples(TupleSteps(st', a[1..]), b));
  }

  lemma GrowTwice(open: Option<string>, a: string, b: string)
    ensures Grow(Grow(open, a), b) == Grow(open, a + b)
  {
    if open.Some? {
      Assoc(open.value, a, b);
    }
  }

  lemma GrowNothing(open: Option<string>)
    ensures Grow(open, []) == open
  {
    if open.Some? {
      assert open.value + [] == open.value;
    }
  }

  /** Inside quotes the scanner passes any safe body by. */
  lemma {:induction false} TuplesInQuote(depth: int, open: Option<string>, body: string)
    requires QuoteSafe(body)
    ensures TupleSteps(TupleScan(depth, true, false, open), body) == TupleScan(depth, true, false, Grow(open, body))
    ensures Tuples(TupleScan(depth, true, false, open), body) == []
    decreases |body|
  {
    var st := TupleScan(depth, true, false, open);
    if body == [] {
      GrowNothing(open);
    } else if body[0] == '\\' {
      var st1 := TupleStep(st, body[0]);
      var st2 := TupleStep(st1, body[1]);
      assert body[1..][1..] == body[2..];
      assert TupleSteps(st, body) == TupleSteps(st1, body[1..]) == TupleSteps(st2, body[2..]);
      assert Tuples(st, body) == Tuples(st1, body[1..]) == Tuples(st2, body[2..]);
      GrowTwice(open, [body[0]], [body[1]]);
      GrowTwice(open, body[..2], body[2..]);
      assert [body[0]] + [body[1]] == body[..2] && body[..2] + body[2..] == body;
      TuplesInQuote(depth, Grow(open, body[..2]), body[2..]);
    } else {
      GrowTwice(open, [body[0]], body[1..]);
      assert [body[0]] + body[1..] == body;
      TuplesInQuote(depth, Grow(open, [body[0]]), body[1..]);
    }
  }

  /** Outside quotes the scanner passes any text without quotes and parentheses by. */
  lemma {:induction false} TuplesPlain(depth: int, open: Option<string>, s: string)
    requires forall c | c in s :: c != '\'' && c != '(' && c != ')'
    ensures TupleSteps(TupleScan(depth, false, false, open), s) == TupleScan(depth, false, false, Grow(open, s))
    ensures Tuples(TupleScan(depth, false, false, open), s) == []
    decreases |s|
  {
    if s == [] {
      GrowNothing(open);
    } else {
      assert s[0] in s && forall c | c in s[1..] :: c in s;
      GrowTwice(open, [s[0]], s[1..]);
      assert [s[0]] + s[1..] == s;
      TuplesPlain(depth, Grow(open, [s[0]]), s[1..]);
    }
  }

  lemma TuplesQuote(depth: int, open: Option<string>, quoting: bool)
    ensures TupleSteps(TupleScan(depth, quoting, false, open), "'") ==
            TupleScan(depth, !quoting, false, Grow(open, "'"))
    ensures Tuples(TupleScan(depth, quoting, false, open), "'") == []
  {
    assert "'"[1..] == [];
  }

  lemma TuplesValue(open: Option<string>, v: Value)
    requires ValueOk(v)
    ensures TupleSteps(TupleScan(1, false, false, open), ValueText(v)) ==
            TupleScan(1, false, false, Grow(open, ValueText(v)))
    ensures Tuples(TupleScan(1, false, false, open), ValueText(v)) == []
  {
    hide TupleSteps, Tuples, TupleStep, Escape, QuoteSafe;
    match v {
      case Bare(token) =>
        assert v.token == token;
        TuplesPlain(1, open, token);
      case Quoted(text) =>
        var body := Escape(text);
        EscapeIsQuoteSafe(text);
        TuplesQuote(1, open, false);
        TuplesInQuote(1, Grow(open, "'"), body);
        TuplesQuote(1, Grow(Grow(open, "'"), body), true);
        TuplesConcat(TupleScan(1, false, false, open), "'", body);
        TuplesConcat(TupleScan(1, false, false, open), "'" + body, "'");
        GrowTwice(open, "'", body);
        GrowTwice(open, "'" + body, "'");
    }
  }

  lemma {:induction false} TuplesJoin(open: Option<string>, values: seq<Value>)
    requires values != [] && forall k | 0 <= k < |values| :: ValueOk(values[k])
    ensures TupleSteps(TupleScan(1, false, false, open), Join(values)) ==
            TupleScan(1, false, false, Grow(open, Join(values)))
    ensures Tuples(TupleScan(1, false, false, open), Join(values)) == []
    decreases |values|
  {
    hide TupleSteps, Tuples, TupleStep, ValueText, ValueOk;
    var st, head := TupleScan(1, false, false, open), ValueText(values[0]);
    TuplesValue(open, values[0]);
    if |values| == 1 {
      assert Join(values) == head;
    } else {
      var rest := Join(values[1..]);
      TuplesPlain(1, Grow(open, head), ",");
      GrowTwice(open, head, ",");
      TuplesJoin(Grow(open, head + ","), values[1..]);
      GrowTwice(open, head + ",", rest);
      TuplesConcat(st, head, ",");
      TuplesConcat(st, head + ",", rest);
      assert Join(values) == head + "," + rest;
    }
  }

  lemma TuplesOpenClose(open: Option<string>)
    ensures TupleSteps(TupleScan(0, false, false, open), "(") == TupleScan(1, false, false, Some([]))
    ensures Tuples(TupleScan(0, false, false, open), "(") == []
    ensures TupleSteps(TupleScan(1, false, false, open), ")") == TUPLES_START
    ensures Tuples(TupleScan(1, false, false, open), ")") == if open.Some? then [open.value] else []
  {
    assert "("[1..] == [] && ")"[1..] == [];
  }

  lemma TuplesRow(r: Row)
    requires RowOk(r)
    ensures TupleSteps(TUPLES_START, RowText(r)) == TUPLES_START
    ensures Tuples(TUPLES_START, RowText(r)) == [Join(r.values)]
  {
    hide TupleSteps, Tuples, TupleStep, Join, ValueOk;
    var inner := Join(r.values);
    TuplesPlain(0, None, r.gap);
    TuplesOpenClose(None);
    TuplesJoin(Some([]), r.values);
    assert [] + inner == inner;
    TuplesOpenClose(Some(inner));
    TuplesConcat(TUPLES_START, r.gap, "(");
    TuplesConcat(TUPLES_START, r.gap + "(", inner);
    TuplesConcat(TUPLES_START, r.gap + "(" + inner, ")");
  }

  function Inners(rows: seq<Row>): seq<string>
    requires RowsOk(rows)
  {
    seq(|rows|, k requires 0 <= k < |rows| => Join(rows[k].values))
  }

  /** The tuples of the rows are the rows, whatever stands between them. */
  lemma {:induction false} TuplesRows(rows: seq<Row>)
    requires RowsOk(rows)
    ensures Tuples(TUPLES_START, RowsText(rows)) == Inners(rows)
  {
    hide TupleSteps, Tuples, Join, RowText;
    if rows == [] {
      assert Tuples(TUPLES_START, []) == [] by { TuplesEnd(TUPLES_START, [], []); }
    } else {
      TuplesRow(rows[0]);
      TuplesRows(rows[1..]);
      TuplesConcat(TUPLES_START, RowText(rows[0]), RowsText(rows[1..]));
      assert Inners(rows) == [Join(rows[0].values)] + Inners(rows[1..]);
    }
  }

  // ---------------------------------------------------------------- values

  lemma {:induction false} ValuesConcat(st: ValueScan, a: string, b: string)
    requires Quiet(st, a)
    ensures Values(st, a + b) == Values(ValueSteps(st, a), b)
    decreases |a|
  {
    hide ValueStep, Trim;
    if a == [] {
      assert a + b == b;
    } else {
      assert (a + b)[1..] == a[1..] + b;
      ValuesConcat(ValueStep(st, a[0]), a[1..], b);
    }
  }

  /** No value ends inside `s`. */
  predicate Quiet(st: ValueScan, s: string)
    decreases |s|
  {
    s == [] || (!Separates(st, s[0]) && Quiet(ValueStep(st, s[0]), s[1..]))
  }

  lemma {:induction false} ValuesInQuote(current: string, body: string)
    requires QuoteSafe(body)
    ensures Quiet(ValueScan(true, false, current), body)
    ensures ValueSteps(ValueScan(true, false, current), body) == ValueScan(true, false, current + body)
    decreases |body|
  {
    var st := ValueScan(true, false, current);
    if body == [] {
      assert current + body == current;
    } else if body[0] == '\\' {
      var st1 := ValueStep(st, body[0]);
      var st2 := ValueStep(st1, body[1]);
      assert body[1..][1..] == body[2..];
      assert ValueSteps(st, body) == ValueSteps(st1, body[1..]) == ValueSteps(st2, body[2..]);
      assert Quiet(st, body) <==> Quiet(st2, body[2..]) by {
        assert Quiet(st, body) <==> Quiet(st1, body[1..]);
      }
      assert st2.current + body[2..] == current + body;
      ValuesInQuote(st2.current, body[2..]);
    } else {
      assert current + [body[0]] + body[1..] == current + body;
      ValuesInQuote(current + [body[0]], body[1..]);
    }
  }

  lemma {:induction false} ValuesPlain(current: string, s: string)
    requires forall c | c in s :: c != '\'' && c != ','
    ensures Quiet(ValueScan(false, false, current), s)
    ensures ValueSteps(ValueScan(false, false, current), s) == ValueScan(false, false, current + s)
    decreases |s|
  {
    if s == [] {
      assert current + s == current;
    } else {
      assert s[0] in s && forall c | c in s[1..] :: c in s;
      assert current + [s[0]] + s[1..] == current + s;
      ValuesPlain(current + [s[0]], s[1..]);
    }
  }

  lemma ValuesQuote(quoting: bool, current: string, rest: string)
    ensures Values(ValueScan(quoting, false, current), "'" + rest) == Values(ValueScan(!quoting, false, current), rest)
  {
    hide Trim;
    assert ("'" + rest)[1..] == rest;
    assert Values(ValueScan(quoting, false, current), "'" + rest) ==
           [] + Values(ValueScan(!quoting, false, current), rest);
  }

  /** One value's text is collected without its quotes. */
  lemma ValuesValue(v: Value, rest: string)
    requires ValueOk(v)
    ensures Values(VALUES_START, ValueText(v) + rest) == Values(ValueScan(false, false, Raw(v)), rest)
  {
    hide Values, ValueSteps, ValueStep, Quiet, Escape, QuoteSafe;
    match v {
      case Bare(token) =>
        assert v.token == token;
        ValuesPlain([], token);
        assert [] + token == token;
        ValuesConcat(VALUES_START, token, rest);
      case Quoted(text) =>
        var body := Escape(text);
        EscapeIsQuoteSafe(text);
        Assoc("'", body, "'");
        Assoc("'", body + "'", rest);
        Assoc(body, "'", rest);
        ValuesQuote(false, [], body + ("'" + rest));
        ValuesInQuote([], body);
        assert [] + body == body;
        ValuesConcat(ValueScan(true, false, []), body, "'" + rest);
        ValuesQuote(true, body, rest);
    }
  }

  function Trimmed(values: seq<Value>): seq<string> {
    seq(|values|, k requires 0 <= k < |values| => Trim(Raw(values[k])))
  }

  lemma ValuesComma(current: string, rest: string)
    ensures Values(ValueScan(false, false, current), "," + rest) == [Trim(current)] + Values(VALUES_START, rest)
  {
    hide Trim;
    assert ("," + rest)[1..] == rest;
  }

  /** The values of a row, trimmed. */
  lemma {:induction false} ValuesJoin(values: seq<Value>)
    requires values != [] && forall k | 0 <= k < |values| :: ValueOk(values[k])
    ensures Values(VALUES_START, Join(values)) == Trimmed(values)
    decreases |values|
  {
    hide Values, ValueText, ValueOk, Trim, Raw;
    var v := values[0];
    if |values| == 1 {
      ValuesValue(v, []);
      assert Join(values) == ValueText(v) + [];
      ValuesEnd(ValueScan(false, false, Raw(v)));
      assert Trimmed(values) == [Trim(Raw(v))];
    } else {
      var rest := Join(values[1..]);
      ValuesValue(v, "," + rest);
      ValuesComma(Raw(v), rest);
      ValuesJoin(values[1..]);
      assert Trimmed(values) == [Trim(Raw(v))] + Trimmed(values[1..]);
    }
  }

  // ---------------------------------------------------------------- one statement

  function DecodeAll(raws: seq<string>): seq<string> {
    seq(|raws|, k requires 0 <= k < |raws| => Unescape(raws[k]))
  }

  /** Reading one statement: its tuples, their values, decoded. */
  function ReadRows(line: string, upper: char -> string): Option<seq<seq<string>>> {
    match TuplesOf(line, upper)
    case None => None
    case Some(tuples) => Some(seq(|tuples|, k requires 0 <= k < |tuples| => DecodeAll(Values(VALUES_START, tuples[k]))))
  }

  function AllContents(rows: seq<Row>): seq<seq<string>> {
    seq(|rows|, k requires 0 <= k < |rows| => ContentsOf(rows[k].values))
  }

  function ContentsOf(values: seq<Value>): seq<string> {
    seq(|values|, k requires 0 <= k < |values| => Contents(values[k]))
  }

  ghost predicate CleanRow(values: seq<Value>) {
    forall k | 0 <= k < |values| :: CleanEdges(Raw(values[k]))
  }

  ghost predicate CleanRows(rows: seq<Row>) {
    forall k | 0 <= k < |rows| :: CleanRow(rows[k].values)
  }

  lemma DecodeRowExact(values: seq<Value>)
    requires values != [] && forall k | 0 <= k < |values| :: ValueOk(values[k])
    ensures DecodeAll(Values(VALUES_START, Join(values))) == ContentsOf(values) <==> CleanRow(values)
  {
    hide Values, Join, ValueOk, Raw, Contents, Trim, Unescape, CleanEdges;
    ValuesJoin(values);
    var decoded := DecodeAll(Trimmed(values));
    forall k | 0 <= k < |values|
      ensures decoded[k] == Contents(values[k]) <==> CleanEdges(Raw(values[k]))
    {
      DecodeExact(values[k]);
    }
    if CleanRow(values) {
      assert decoded == ContentsOf(values);
    }
    if decoded == ContentsOf(values) {
      forall k | 0 <= k < |values| ensures CleanEdges(Raw(values[k])) {
        assert decoded[k] == ContentsOf(values)[k];
      }
    }
  }

  /** The text of an INSERT: what is before VALUES, the keyword in any case, and the rows. */
  function InsertText(head: string, keyword: string, rows: seq<Row>): string
    requires RowsOk(rows)
  {
    head + keyword + RowsText(rows)
  }

  ghost predicate AsciiUpper(upper: char -> string) {
    forall c: char | c < 128 as char :: upper(c) == [if 'a' <= c <= 'z' then (c as int - 32) as char else c]
  }

  /** The keyword, and the first of its kind in the statement. */
  ghost predicate KeywordOk(head: string, keyword: string, upper: char -> string) {
    && IsAscii(keyword) && ToUpper(keyword, upper) == "VALUES" && |keyword| == 6
    && Find(ToUpper(head, upper) + "VALUES", "VALUES") == Some(|ToUpper(head, upper)|)
  }

  lemma {:induction false} ToUpperConcat(a: string, b: string, upper: char -> string)
    ensures ToUpper(a + b, upper) == ToUpper(a, upper) + ToUpper(b, upper)
  {
    if a == [] {
      assert a + b == b;
    } else {
      assert (a + b)[1..] == a[1..] + b;
      ToUpperConcat(a[1..], b, upper);
      Assoc(upper(a[0]), ToUpper(a[1..], upper), ToUpper(b, upper));
    }
  }

  lemma {:induction false} FindExtends(s: string, pattern: string, more: string)
    requires Find(s, pattern).Some?
    ensures Find(s + more, pattern) == Find(s, pattern)
  {
    assert (s + more)[..|pattern|] == s[..|pattern|];
    assert pattern <= s + more <==> pattern <= s;
    if !(pattern <= s) {
      assert (s + more)[1..] == s[1..] + more;
      FindExtends(s[1..], pattern, more);
    }
  }

  lemma {:induction false} SliceLength(s: string, byte: nat)
    requires SliceFromByte(s, byte).Some?
    ensures |Encode(s)| == byte + |Encode(SliceFromByte(s, byte).value)|
  {
    hide EncodeChar;
    if byte > 0 {
      SliceLength(s[1..], byte - |EncodeChar(s[0])|);
    }
  }

  lemma {:induction false} SliceAfter(a: string, b: string)
    ensures SliceFromByte(a + b, |Encode(a)|) == Some(b)
  {
    hide EncodeChar;
    if a == [] {
      assert a + b == b;
    } else {
      assert (a + b)[1..] == a[1..] + b;
      SliceAfter(a[1..], b);
    }
  }

  /** A byte offset cuts `a` off exactly when it is the length of `a` in bytes. */
  lemma SliceExact(a: string, b: string, byte: nat)
    ensures SliceFromByte(a + b, byte) == Some(b) <==> byte == |Encode(a)|
  {
    hide Encode, SliceFromByte;
    SliceAfter(a, b);
    if SliceFromByte(a + b, byte) == Some(b) {
      SliceLength(a + b, byte);
      EncodeConcat(a, b);
    }
  }

  /** Where the rows are looked for. */
  function RowsOffset(head: string, upper: char -> string): nat {
    |Encode(ToUpper(head, upper))| + 6
  }

  lemma TuplesOfInsert(head: string, keyword: string, tail: string, upper: char -> string)
    requires KeywordOk(head, keyword, upper)
    ensures TuplesOf(head + keyword + tail, upper) ==
            match SliceFromByte(head + keyword + tail, RowsOffset(head, upper))
            case None => None
            case Some(rest) => Some(Tuples(TUPLES_START, rest))
  {
    hide Find, ToUpper, SliceFromByte, Encode, Tuples;
    var line := head + keyword + tail;
    var up := ToUpper(head, upper);
    ToUpperConcat(head + keyword, tail, upper);
    ToUpperConcat(head, keyword, upper);
    var all := ToUpper(line, upper);
    assert all == up + "VALUES" + ToUpper(tail, upper);
    FindExtends(up + "VALUES", "VALUES", ToUpper(tail, upper));
    assert all[..|up|] == up;
  }

  /** The rows are looked for where they are exactly when uppercasing keeps the head's byte length. */
  lemma RowsOffsetExact(head: string, keyword: string, tail: string, upper: char -> string)
    requires KeywordOk(head, keyword, upper)
    ensures SliceFromByte(head + keyword + tail, RowsOffset(head, upper)) == Some(tail) <==>
            KeepsByteLength(head, upper)
  {
    hide Encode, SliceFromByte, ToUpper, Find;
    SliceExact(head + keyword, tail, RowsOffset(head, upper));
    EncodeConcat(head, keyword);
    EncodeAscii(keyword);
  }

  /**
   Reading the statement of some rows gives their contents exactly when every raw value has
   clean edges, provided that the uppercase text before the keyword is as long, in bytes, as the
   text itself. An ASCII head always is.
   */
  lemma ReadInsertExact(head: string, keyword: string, rows: seq<Row>, upper: char -> string)
    requires RowsOk(rows) && KeywordOk(head, keyword, upper)
    requires KeepsByteLength(head, upper)
    ensures ReadRows(InsertText(head, keyword, rows), upper) == Some(AllContents(rows)) <==> CleanRows(rows)
  {
    hide Find, ToUpper, SliceFromByte, Encode, Tuples, Values, Join, RowsText;
    var tail := RowsText(rows);
    TuplesOfInsert(head, keyword, tail, upper);
    RowsOffsetExact(head, keyword, tail, upper);
    TuplesRows(rows);
    var read := ReadRows(InsertText(head, keyword, rows), upper).value;
    forall k | 0 <= k < |rows|
      ensures read[k] == AllContents(rows)[k] <==> CleanRow(rows[k].values)
    {
      assert RowOk(rows[k]);
      assert read[k] == DecodeAll(Values(VALUES_START, Join(rows[k].values)));
      RowDecodes(rows[k]);
    }
    if CleanRows(rows) {
      assert read == AllContents(rows);
    }
    if read == AllContents(rows) {
      forall k | 0 <= k < |rows| ensures CleanRow(rows[k].values) {
        assert read[k] == AllContents(rows)[k];
      }
    }
  }

  lemma RowDecodes(r: Row)
    requires RowOk(r)
    ensures DecodeAll(Values(VALUES_START, Join(r.values))) == ContentsOf(r.values) <==> CleanRow(r.values)
  {
    hide Values, Join;
    DecodeRowExact(r.values);
  }

  lemma {:induction false} UpperAscii(s: string, upper: char -> string)
    requires AsciiUpper(upper) && IsAscii(s)
    ensures IsAscii(ToUpper(s, upper)) && |ToUpper(s, upper)| == |s|
    ensures |Encode(ToUpper(s, upper))| == |Encode(s)|
  {
    if s != [] {
      assert s[0] in s;
      assert IsAscii(s[1..]) by {
        forall c | c in s[1..] ensures c < 128 as char { assert c in s; }
      }
      UpperAscii(s[1..], upper);
      assert upper(s[0])[0] < 128 as char;
    }
    EncodeAscii(s);
    EncodeAscii(ToUpper(s, upper));
  }

  // ---------------------------------------------------------------- the whole dump

  function PlainPieces(s: string): seq<Piece> {
    seq(|s|, k requires 0 <= k < |s| => Plain(s[k]))
  }

  function ValuePieces(v: Value): seq<Piece> {
    match v case Bare(token) => PlainPieces(token) case Quoted(text) => [Str(Escape(text))]
  }

  function JoinPieces(values: seq<Value>): seq<Piece>
    requires values != []
  {
    ValuePieces(values[0]) + if |values| == 1 then [] else PlainPieces(",") + JoinPieces(values[1..])
  }

  function RowsPieces(rows: seq<Row>): seq<Piece>
    requires RowsOk(rows)
  {
    if rows == [] then [] else
      PlainPieces(rows[0].gap + "(") + JoinPieces(rows[0].values) + PlainPieces(")") + RowsPieces(rows[1..])
  }

  lemma {:induction false} KeptConcat(a: seq<Piece>, b: seq<Piece>)
    ensures KeptText(a + b) == KeptText(a) + KeptText(b)
  {
    hide Kept;
    if a == [] {
      assert a + b == b;
    } else {
      assert (a + b)[1..] == a[1..] + b;
      KeptConcat(a[1..], b);
      Assoc(Kept(a[0]), KeptText(a[1..]), KeptText(b));
    }
  }

  lemma {:induction false} KeptPlain(s: string)
    ensures KeptText(PlainPieces(s)) == s
  {
    if s != [] {
      assert PlainPieces(s)[1..] == PlainPieces(s[1..]);
      KeptPlain(s[1..]);
    }
  }

  lemma KeptValue(v: Value)
    ensures KeptText(ValuePieces(v)) == ValueText(v)
  {
    match v {
      case Bare(token) => KeptPlain(token);
      case Quoted(text) =>
        var p := Str(Escape(text));
        assert [p][1..] == [];
        assert KeptText([p]) == Kept(p) + [];
    }
  }

  lemma {:induction false} KeptJoin(values: seq<Value>)
    requires values != []
    ensures KeptText(JoinPieces(values)) == Join(values)
    decreases |values|
  {
    hide KeptText, ValuePieces, ValueText;
    KeptValue(values[0]);
    if |values| == 1 {
      assert JoinPieces(values) == ValuePieces(values[0]);
    } else {
      KeptJoin(values[1..]);
      KeptPlain(",");
      KeptConcat(PlainPieces(","), JoinPieces(values[1..]));
      KeptConcat(ValuePieces(values[0]), PlainPieces(",") + JoinPieces(values[1..]));
    }
  }

  lemma {:induction false} KeptRows(rows: seq<Row>)
    requires RowsOk(rows)
    ensures KeptText(RowsPieces(rows)) == RowsText(rows)
  {
    hide KeptText, Join, JoinPieces;
    if rows == [] {
      assert KeptText([]) == [] by { KeptPlain([]); assert PlainPieces([]) == []; }
    } else {
      var r := rows[0];
      var gap, inner := PlainPieces(r.gap + "("), JoinPieces(r.values);
      KeptPlain(r.gap + "(");
      KeptJoin(r.values);
      KeptPlain(")");
      KeptRows(rows[1..]);
      KeptConcat(gap, inner);
      KeptConcat(gap + inner, PlainPieces(")"));
      KeptConcat(gap + inner + PlainPieces(")"), RowsPieces(rows[1..]));
    }
  }

  predicate NoSemi(pieces: seq<Piece>) {
    forall k | 0 <= k < |pieces| :: !pieces[k].Semi?
  }

  lemma {:induction false} JoinHasNoSemi(values: seq<Value>)
    requires values != []
    ensures NoSemi(JoinPieces(values))
    decreases |values|
  {
    if |values| > 1 {
      JoinHasNoSemi(values[1..]);
    }
  }

  lemma {:induction false} RowsHaveNoSemi(rows: seq<Row>)
    requires RowsOk(rows)
    ensures NoSemi(RowsPieces(rows))
  {
    hide JoinPieces;
    if rows != [] {
      JoinHasNoSemi(rows[0].values);
      RowsHaveNoSemi(rows[1..]);
    }
  }

  lemma {:induction false} RowsTextEnds(rows: seq<Row>)
    requires RowsOk(rows) && rows != []
    ensures RowsText(rows) != [] && RowsText(rows)[|RowsText(rows)| - 1] == ')'
  {
    hide Join;
    if |rows| > 1 {
      RowsTextEnds(rows[1..]);
    } else {
      assert RowsText(rows[1..]) == [];
    }
  }

  /** Everything an INSERT consists of, up to its semicolon. */
  function InsertPieces(head: seq<Piece>, keyword: string, rows: seq<Row>): seq<Piece>
    requires RowsOk(rows)
  {
    head + PlainPieces(keyword) + RowsPieces(rows)
  }

  lemma KeptInsert(head: seq<Piece>, keyword: string, rows: seq<Row>)
    requires RowsOk(rows)
    ensures KeptText(InsertPieces(head, keyword, rows)) == InsertText(KeptText(head), keyword, rows)
  {
    hide KeptText, RowsPieces, RowsText;
    KeptConcat(head + PlainPieces(keyword), RowsPieces(rows));
    KeptConcat(head, PlainPieces(keyword));
    KeptPlain(keyword);
    KeptRows(rows);
  }

  function StatementsBefore(before: seq<Piece>): seq<string> {
    if before == [] then [] else StatementsOf(before, [])
  }

  lemma OneStatement(pieces: seq<Piece>, after: seq<Piece>)
    requires NoSemi(pieces) && Trim(KeptText(pieces)) != []
    ensures StatementsOf(pieces + ([Semi] + after), []) == [KeptText(pieces)] + StatementsOf(after, [])
  {
    hide KeptText, StatementsOf, Trim;
    StatementsOfOpen(pieces, [Semi] + after, []);
    assert [] + KeptText(pieces) == KeptText(pieces);
    ClosedStatement(after, KeptText(pieces));
  }

  /** A statement in the middle of a dump is found where the statements before it end. */
  lemma StatementInContext(before: seq<Piece>, rest: seq<Piece>, statement: string, later: seq<string>)
    requires before == [] || before[|before| - 1].Semi?
    requires StatementsOf(rest, []) == [statement] + later
    ensures var all, k := StatementsOf(before + rest, []), |StatementsBefore(before)|;
            k < |all| && all[k] == statement
  {
    hide StatementsOf;
    if before == [] {
      assert before + rest == rest;
    } else {
      StatementsOfClosed(before, rest, []);
    }
  }

  lemma ClosedStatement(after: seq<Piece>, current: string)
    requires Trim(current) != []
    ensures StatementsOf([Semi] + after, current) == [current] + StatementsOf(after, [])
  {
    hide Trim;
    assert ([Semi] + after)[1..] == after;
  }

  /** Uppercasing a text keeps its length in bytes. */
  predicate KeepsByteLength(s: string, upper: char -> string) {
    |Encode(ToUpper(s, upper))| == |Encode(s)|
  }

  /**
   The dump round trip. An INSERT stands in a well-formed dump among any other statements and
   comments. Its own pieces may have comments anywhere, as long as what they keep is the text of
   an INSERT of the rows. Splitting the dump's text yields its statement, at the place where the
   statements before it end; and reading that statement, trimmed, yields the contents of its rows
   exactly when every raw value has clean edges.
   */
  lemma DumpRoundTrip(before: seq<Piece>, insert: seq<Piece>, after: seq<Piece>,
                      head: string, keyword: string, rows: seq<Row>, upper: char -> string)
    requires before == [] || before[|before| - 1].Semi?
    requires RowsOk(rows) && rows != []
    requires NoSemi(insert) && KeptText(insert) == InsertText(head, keyword, rows)
    requires WellFormed(before + (insert + ([Semi] + after)))
    requires KeywordOk(TrimStart(head), keyword, upper) && CleanEdges(keyword)
    requires KeepsByteLength(TrimStart(head), upper)
    ensures var statements := Statements(DumpText(before + (insert + ([Semi] + after))), Top, []);
            var k := |StatementsBefore(before)|;
            && k < |statements|
            && (ReadRows(Trim(statements[k]), upper) == Some(AllContents(rows)) <==> CleanRows(rows))
  {
    hide KeptText, WellFormed, StatementsBefore, StatementsOf, Statements, KeywordOk, InsertText,
         ReadRows, CleanRows, Trim, TrimStart, NoSemi, KeepsByteLength;
    SplitIsStatements(before + (insert + ([Semi] + after)), []);
    ReadTrimmed(head, keyword, rows, upper);
    OneStatement(insert, after);
    StatementInContext(before, insert + ([Semi] + after), KeptText(insert), StatementsOf(after, []));
  }

  /** Any rows have such pieces, with comments in the head. */
  lemma WrittenInsert(head: seq<Piece>, keyword: string, rows: seq<Row>)
    requires RowsOk(rows) && NoSemi(head)
    ensures NoSemi(InsertPieces(head, keyword, rows))
    ensures KeptText(InsertPieces(head, keyword, rows)) == InsertText(KeptText(head), keyword, rows)
  {
    hide KeptText, InsertPieces, InsertText, NoSemi;
    InsertHasNoSemi(head, keyword, rows);
    KeptInsert(head, keyword, rows);
  }

  /** An ASCII head keeps its length. */
  lemma AsciiHeadFits(text: string, upper: char -> string)
    requires AsciiUpper(upper) && IsAscii(text)
    ensures KeepsByteLength(TrimStart(text), upper)
  {
    hide TrimStart, ToUpper, Encode;
    AsciiTail(text);
    UpperAscii(TrimStart(text), upper);
  }

  lemma InsertHasNoSemi(head: seq<Piece>, keyword: string, rows: seq<Row>)
    requires RowsOk(rows) && NoSemi(head)
    ensures NoSemi(InsertPieces(head, keyword, rows))
  {
    hide RowsPieces;
    RowsHaveNoSemi(rows);
  }

  /** Trimming a statement only shortens its head. */
  lemma ReadTrimmed(text: string, keyword: string, rows: seq<Row>, upper: char -> string)
    requires RowsOk(rows) && rows != []
    requires KeywordOk(TrimStart(text), keyword, upper) && CleanEdges(keyword)
    requires KeepsByteLength(TrimStart(text), upper)
    ensures Trim(InsertText(text, keyword, rows)) != []
    ensures ReadRows(Trim(InsertText(text, keyword, rows)), upper) == Some(AllContents(rows)) <==> CleanRows(rows)
  {
    hide KeywordOk, InsertText, RowsText, ReadRows, CleanRows, Trim, TrimStart;
    InsertIs(text, keyword, rows);
    InsertIs(TrimStart(text), keyword, rows);
    RowsTextEnds(rows);
    KeywordSix(TrimStart(text), keyword, upper);
    var body := keyword + RowsText(rows);
    assert CleanEdges(body);
    TrimBefore(text, body);
    ReadInsertExact(TrimStart(text), keyword, rows, upper);
  }

  lemma InsertIs(head: string, keyword: string, rows: seq<Row>)
    requires RowsOk(rows)
    ensures InsertText(head, keyword, rows) == head + (keyword + RowsText(rows))
  {
    hide RowsText;
    Assoc(head, keyword, RowsText(rows));
  }

  lemma KeywordSix(head: string, keyword: string, upper: char -> string)
    requires KeywordOk(head, keyword, upper)
    ensures |keyword| == 6
  {
  }

  lemma AsciiTail(s: string)
    requires IsAscii(s)
    ensures IsAscii(TrimStart(s))
  {
    forall c | c in TrimStart(s) ensures c < 128 as char {
      TrimStartIn(s, c);
    }
  }
}
