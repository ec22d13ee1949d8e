/**
 The CSV tokenizer, and the proof that it undoes a writer that follows section 2 of RFC 4180.
 */
module CsvTokenizer {
  import opened Prelude

  type Record = seq<string>

  /** What the tokenizer has collected; `started` tells a blank line from a missing one. */
  datatype Scan = Scan(records: seq<Record>, record: Record, field: string, inQuotes: bool, started: bool)

  const SCAN_START := Scan([], [], [], false, false)

  function EndField(t: Scan): Scan {
    t.(record := t.record + [t.field], field := [], started := true)
  }

  function EndRecord(t: Scan): Scan {
    Scan(t.records + [t.record + [t.field]], [], [], false, false)
  }

  /** The records of `s` after what `t` holds, or the number of records before an open quote. */
  function Tokens(s: string, t: Scan): Result<seq<Record>, nat>
    decreases |s|
  {
    if s == [] then
      if t.inQuotes then Err(|t.records|)
      else if t.started || t.record != [] || t.field != [] then Ok(t.records + [t.record + [t.field]])
      else Ok(t.records)
    else if s[0] == '"' && t.inQuotes then
      if |s| > 1 && s[1] == '"' then Tokens(s[2..], t.(field := t.field + ['"']))
      else Tokens(s[1..], t.(inQuotes := false))
    else if s[0] == '"' && t.field == [] then Tokens(s[1..], t.(inQuotes := true, started := true))
    else if s[0] == '"' then Tokens(s[1..], t.(field := t.field + ['"']))
    else if s[0] == ',' && !t.inQuotes then Tokens(s[1..], EndField(t))
    else if s[0] == '\n' && !t.inQuotes then Tokens(s[1..], EndRecord(t))
    else if s[0] == '\r' && !t.inQuotes then
      Tokens(if |s| > 1 && s[1] == '\n' then s[2..] else s[1..], EndRecord(t))
    else Tokens(s[1..], t.(field := t.field + [s[0]], started := true))
  }

  method Tokenize(input: string) returns (r: Result<seq<Record>, nat>)
    ensures r == Tokens(input, SCAN_START)
  {
    var records: seq<Record>, record: Record, field: string := [], [], [];
    var inQuotes, started := false, false;
    var i := 0;
    assert input[0..] == input;
    while i < |input|
      invariant i <= |input|
      invariant Tokens(input, SCAN_START) == Tokens(input[i..], Scan(records, record, field, inQuotes, started))
    {
      var c := input[i];
      var next := if i + 1 < |input| then Some(input[i + 1]) else None;
      assert input[i..][1..] == input[i + 1..];
      if i + 1 < |input| {
        assert input[i..][2..] == input[i + 2..];
      }
      i := i + 1;
      if c == '"' && inQuotes {
        if next == Some('"') {
          i := i + 1;
          field := field + ['"'];
        } else {
          inQuotes := false;
        }
      } else if c == '"' && field == [] {
        inQuotes, started := true, true;
      } else if c == '"' {
        field := field + ['"'];
      } else if c == ',' && !inQuotes {
        record, field := record + [field], [];
        started := true;
      } else if c == '\n' && !inQuotes {
        records, record, field := records + [record + [field]], [], [];
        started := false;
      } else if c == '\r' && !inQuotes {
        if next == Some('\n') {
          i := i + 1;
        }
        records, record, field := records + [record + [field]], [], [];
        started := false;
      } else {
        field := field + [c];
        started := true;
      }
    }
    if inQuotes {
      return Err(|records|);
    }
    if started || record != [] || field != [] {
      record := record + [field];
      records := records + [record];
    }
    return Ok(records);
  }

  // ---------------------------------------------------------------- the writer

  datatype Cell = Raw(text: string) | Quoted(text: string)

  datatype Ending = Lf | CrLf | Cr

  /**
   A raw cell is free of commas and line breaks and does not start with a quote. The standard
   bars quotes from raw cells altogether; the tokenizer keeps those that come later.
   */
  predicate CellOk(c: Cell) {
    c.Raw? ==>
      && (c.text == [] || c.text[0] != '"')
      && forall x | x in c.text :: x != ',' && x != '\n' && x != '\r'
  }

  function DoubleQuotes(s: string): string {
    if s == [] then [] else (if s[0] == '"' then "\"\"" else [s[0]]) + DoubleQuotes(s[1..])
  }

  function CellText(c: Cell): string {
    match c case Raw(text) => text case Quoted(text) => "\"" + DoubleQuotes(text) + "\""
  }

  predicate CellsOk(cells: seq<Cell>) {
    cells != [] && forall k | 0 <= k < |cells| :: CellOk(cells[k])
  }

  function CellsText(cells: seq<Cell>): string
    requires cells != []
  {
    CellText(cells[0]) + if |cells| == 1 then [] else "," + CellsText(cells[1..])
  }

  function CellsContents(cells: seq<Cell>): Record {
    seq(|cells|, k requires 0 <= k < |cells| => cells[k].text)
  }

  function EndingText(e: Ending): string {
    match e case Lf => "\n" case CrLf => "\r\n" case Cr => "\r"
  }

  datatype Line = Line(cells: seq<Cell>, ending: Ending)

  function LinesText(lines: seq<Line>, tail: string): string
    requires forall k | 0 <= k < |lines| :: lines[k].cells != []
  {
    if lines == [] then tail
    else CellsText(lines[0].cells) + (EndingText(lines[0].ending) + LinesText(lines[1..], tail))
  }

  /** Every cell is writable, and no lone carriage return is followed by a line feed. */
  predicate LinesOk(lines: seq<Line>, tail: string) {
    lines == [] || (
      && CellsOk(lines[0].cells)
      && LinesOk(lines[1..], tail)
      && (forall k | 0 <= k < |lines[1..]| :: lines[1..][k].cells != [])
      && (lines[0].ending.Cr? ==> var after := LinesText(lines[1..], tail); after == [] || after[0] != '\n'))
  }

  function LinesContents(lines: seq<Line>): seq<Record> {
    seq(|lines|, k requires 0 <= k < |lines| => CellsContents(lines[k].cells))
  }

  // ---------------------------------------------------------------- reading it back

  /** What may follow a cell. */
  predicate AtDelimiter(s: string) {
    s == [] || s[0] == ',' || s[0] == '\n' || s[0] == '\r'
  }

  lemma {:induction false} ReadRaw(text: string, rest: string, t: Scan)
    requires !t.inQuotes && forall x | x in text :: x != ',' && x != '\n' && x != '\r'
    requires t.field == [] && text != [] ==> text[0] != '"'
    requires t.field != [] ==> t.started
    ensures Tokens(text + rest, t) == Tokens(rest, t.(field := t.field + text, started := t.started || text != []))
    decreases |text|
  {
    if text == [] {
      assert text + rest == rest && t.field + text == t.field;
    } else {
      assert text[0] in text && forall x | x in text[1..] :: x in text;
      assert (text + rest)[1..] == text[1..] + rest;
      var t' := t.(field := t.field + [text[0]], started := true);
      ReadRaw(text[1..], rest, t');
      assert t'.field + text[1..] == t.field + text;
    }
  }

  lemma ReadDoubledQuote(rest: string, t: Scan)
    requires t.inQuotes
    ensures Tokens("\"\"" + rest, t) == Tokens(rest, t.(field := t.field + ['"']))
  {
    hide EndField, EndRecord;
    assert ("\"\"" + rest)[2..] == rest;
  }

  lemma ReadInQuotes(c: char, rest: string, t: Scan)
    requires t.inQuotes && t.started && c != '"'
    ensures Tokens([c] + rest, t) == Tokens(rest, t.(field := t.field + [c]))
  {
    hide EndField, EndRecord;
    assert ([c] + rest)[1..] == rest;
  }

  lemma {:induction false} ReadQuotedBody(text: string, rest: string, t: Scan)
    requires t.inQuotes && t.started
    ensures Tokens(DoubleQuotes(text) + rest, t) == Tokens(rest, t.(field := t.field + text))
    decreases |text|
  {
    hide Tokens;
    if text == [] {
      assert DoubleQuotes(text) + rest == rest && t.field + text == t.field;
    } else {
      var body := DoubleQuotes(text[1..]);
      ReadQuotedBody(text[1..], rest, t.(field := t.field + [text[0]]));
      assert t.field + [text[0]] + text[1..] == t.field + text;
      if text[0] == '"' {
        Assoc("\"\"", body, rest);
        ReadDoubledQuote(body + rest, t);
      } else {
        Assoc([text[0]], body, rest);
        ReadInQuotes(text[0], body + rest, t);
      }
    }
  }

  lemma ReadQuoted(text: string, rest: string, t: Scan)
    requires !t.inQuotes && t.field == [] && AtDelimiter(rest)
    ensures Tokens("\"" + DoubleQuotes(text) + "\"" + rest, t) == Tokens(rest, t.(field := text, started := true))
  {
    hide DoubleQuotes;
    var body := DoubleQuotes(text);
    var s := "\"" + body + "\"" + rest;
    var t1 := t.(inQuotes := true, started := true);
    assert s[1..] == body + ("\"" + rest);
    ReadQuotedBody(text, "\"" + rest, t1);
    assert [] + text == text;
    assert ("\"" + rest)[1..] == rest;
    assert t1.(field := text).(inQuotes := false) == t.(field := text, started := true);
  }

  /** A cell that leaves a trace even when its text is empty. */
  predicate Marks(c: Cell) {
    c.Quoted? || c.text != []
  }

  lemma ReadCell(c: Cell, rest: string, t: Scan)
    requires CellOk(c) && !t.inQuotes && t.field == [] && AtDelimiter(rest)
    ensures Tokens(CellText(c) + rest, t) == Tokens(rest, t.(field := c.text, started := t.started || Marks(c)))
  {
    hide Tokens, DoubleQuotes;
    match c {
      case Raw(text) =>
        assert c.text == text;
        ReadRaw(text, rest, t);
        assert [] + text == text;
      case Quoted(text) => ReadQuoted(text, rest, t);
    }
  }

  /** The state in which the cells of a record have been read, all but the end of the last one. */
  function AfterCells(cells: seq<Cell>, t: Scan): Scan
    requires cells != []
  {
    var n := |cells| - 1;
    t.(record := t.record + CellsContents(cells)[..n], field := cells[n].text,
       started := t.started || n > 0 || Marks(cells[0]))
  }

  lemma ReadComma(rest: string, t: Scan)
    requires !t.inQuotes
    ensures Tokens("," + rest, t) == Tokens(rest, EndField(t))
  {
    assert ("," + rest)[1..] == rest;
  }

  lemma {:induction false} ReadCells(cells: seq<Cell>, rest: string, t: Scan)
    requires CellsOk(cells) && !t.inQuotes && t.field == [] && AtDelimiter(rest)
    ensures Tokens(CellsText(cells) + rest, t) == Tokens(rest, AfterCells(cells, t))
    decreases |cells|
  {
    hide Tokens, CellText, CellOk, Marks;
    var c := cells[0];
    if |cells| == 1 {
      assert CellsText(cells) + rest == CellText(c) + rest;
      ReadCell(c, rest, t);
      assert t.record + CellsContents(cells)[..0] == t.record;
    } else {
      var others := CellsText(cells[1..]) + rest;
      assert CellsText(cells) + rest == CellText(c) + ("," + others);
      ReadCell(c, "," + others, t);
      var t1 := t.(field := c.text, started := t.started || Marks(c));
      ReadComma(others, t1);
      ReadCells(cells[1..], rest, EndField(t1));
      AfterCellsCons(cells, t);
    }
  }

  lemma AfterCellsCons(cells: seq<Cell>, t: Scan)
    requires |cells| > 1
    ensures var t1 := t.(field := cells[0].text, started := t.started || Marks(cells[0]));
            AfterCells(cells[1..], EndField(t1)) == AfterCells(cells, t)
  {
    hide Marks;
    var n := |cells| - 1;
    var all, others := CellsContents(cells), CellsContents(cells[1..]);
    assert all == [cells[0].text] + others;
    assert all[..n] == [cells[0].text] + others[..n - 1];
    Assoc(t.record, [cells[0].text], others[..n - 1]);
    assert EndField(t.(field := cells[0].text)).field == [];
  }

  lemma ReadEnding(e: Ending, rest: string, t: Scan)
    requires !t.inQuotes && (e.Cr? ==> rest == [] || rest[0] != '\n')
    ensures Tokens(EndingText(e) + rest, t) == Tokens(rest, EndRecord(t))
  {
    hide EndRecord;
    var s := EndingText(e) + rest;
    if e.CrLf? {
      assert s[2..] == rest;
    } else {
      assert s[1..] == rest;
    }
  }

  lemma EndCells(cells: seq<Cell>, t: Scan)
    requires cells != [] && t.record == []
    ensures EndRecord(AfterCells(cells, t)) == Scan(t.records + [CellsContents(cells)], [], [], false, false)
  {
    var n, all := |cells| - 1, CellsContents(cells);
    assert [] + all[..n] + [all[n]] == all;
  }

  lemma {:induction false} ReadLines(lines: seq<Line>, tail: string, records: seq<Record>)
    requires LinesOk(lines, tail) && forall k | 0 <= k < |lines| :: lines[k].cells != []
    ensures Tokens(LinesText(lines, tail), SCAN_START.(records := records)) ==
            Tokens(tail, SCAN_START.(records := records + LinesContents(lines)))
    decreases |lines|
  {
    hide Tokens, CellsText, CellsContents, CellOk;
    var t := SCAN_START.(records := records);
    if lines == [] {
      assert records + LinesContents(lines) == records;
    } else {
      var line, others := lines[0], LinesText(lines[1..], tail);
      ReadCells(line.cells, EndingText(line.ending) + others, t);
      ReadEnding(line.ending, others, AfterCells(line.cells, t));
      EndCells(line.cells, t);
      ReadLines(lines[1..], tail, records + [CellsContents(line.cells)]);
      assert LinesContents(lines) == [CellsContents(line.cells)] + LinesContents(lines[1..]);
      Assoc(records, [CellsContents(line.cells)], LinesContents(lines[1..]));
    }
  }

  lemma ReadLast(cells: seq<Cell>, records: seq<Record>)
    requires CellsOk(cells)
    ensures Tokens(CellsText(cells), SCAN_START.(records := records)) ==
            Ok(records + if cells == [Raw([])] then [] else [CellsContents(cells)])
  {
    hide CellsText, CellOk;
    var t := SCAN_START.(records := records);
    ReadCells(cells, [], t);
    assert CellsText(cells) + [] == CellsText(cells);
    var t1 := AfterCells(cells, t);
    assert t1.record + [t1.field] == CellsContents(cells) by { EndCells(cells, t); }
    if cells == [Raw([])] {
      assert CellsContents(cells)[..0] == [];
      assert records + [] == records;
    } else if |cells| == 1 {
      assert cells == [cells[0]];
    }
  }

  /** A table: lines with their endings, and a last record that may go without one. */
  datatype Table = Table(lines: seq<Line>, last: Option<seq<Cell>>)

  function LastText(last: Option<seq<Cell>>): string
    requires last.Some? ==> last.value != []
  {
    match last case None => [] case Some(cells) => CellsText(cells)
  }

  ghost predicate TableOk(table: Table) {
    && (table.last.Some? ==> CellsOk(table.last.value))
    && (forall k | 0 <= k < |table.lines| :: table.lines[k].cells != [])
    && LinesOk(table.lines, LastText(table.last))
  }

  function TableContents(table: Table): seq<Record> {
    LinesContents(table.lines) +
    match table.last case None => [] case Some(cells) => [CellsContents(cells)]
  }

  /**
   Any table so written is recovered exactly, unless its last record goes without an ending and
   is one raw empty field: then the text does not show it, and the tokenizer returns the others.
   */
  lemma TableRoundTrip(table: Table)
    requires TableOk(table)
    ensures var text := LinesText(table.lines, LastText(table.last));
            && Tokens(text, SCAN_START).Ok?
            && (Tokens(text, SCAN_START) == Ok(TableContents(table)) <==> table.last != Some([Raw([])]))
  {
    hide Tokens, CellsText, CellsContents, LinesContents;
    var records := LinesContents(table.lines);
    ReadLines(table.lines, LastText(table.last), []);
    assert [] + records == records;
    match table.last {
      case None =>
        assert Tokens([], SCAN_START.(records := records)) == Ok(records) by { NoMore(records); }
        assert records + [] == records;
      case Some(cells) =>
        ReadLast(cells, records);
        assert |records + [CellsContents(cells)]| != |records + []|;
    }
  }

  lemma NoMore(records: seq<Record>)
    ensures Tokens([], SCAN_START.(records := records)) == Ok(records)
  {
  }

  /** A quote that is opened and not closed is reported with the number of records before it. */
  lemma OpenQuote(lines: seq<Line>, before: seq<Cell>, text: string)
    requires before == [] || CellsOk(before)
    requires forall k | 0 <= k < |lines| :: lines[k].cells != []
    requires var front := if before == [] then [] else CellsText(before) + ",";
             LinesOk(lines, front + ("\"" + DoubleQuotes(text)))
    ensures var front := if before == [] then [] else CellsText(before) + ",";
            Tokens(LinesText(lines, front + ("\"" + DoubleQuotes(text))), SCAN_START) == Err(|lines|)
  {
    hide Tokens, CellsText, LinesContents, CellsOk, DoubleQuotes, LinesOk, LinesText;
    var front := if before == [] then [] else CellsText(before) + ",";
    var quote := "\"" + DoubleQuotes(text);
    var records := LinesContents(lines);
    ReadLines(lines, front + quote, []);
    assert [] + records == records;
    var t := SCAN_START.(records := records);
    if before == [] {
      assert front + quote == quote;
      OpenQuoteAt(text, t);
    } else {
      Assoc(CellsText(before), ",", quote);
      ReadCells(before, "," + quote, t);
      ReadComma(quote, AfterCells(before, t));
      OpenQuoteAt(text, EndField(AfterCells(before, t)));
    }
    assert |records| == |lines| by { LinesCount(lines); }
  }

  lemma LinesCount(lines: seq<Line>)
    ensures |LinesContents(lines)| == |lines|
  {
  }

  lemma OpenQuoteAt(text: string, t: Scan)
    requires !t.inQuotes && t.field == []
    ensures Tokens("\"" + DoubleQuotes(text), t) == Err(|t.records|)
  {
    hide DoubleQuotes;
    var s := "\"" + DoubleQuotes(text);
    var t1 := t.(inQuotes := true, started := true);
    assert s[1..] == DoubleQuotes(text) + [];
    ReadQuotedBody(text, [], t1);
  }
}
