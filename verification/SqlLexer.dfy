/** Cutting a SQL dump into statements at the semicolons outside quotes, identifiers and comments. */
module SqlLexer {
  import opened Prelude
  import opened Text

  datatype Mode = Top | Quote | Ident

  /** A finished statement is kept unless it is blank. */
  function Flush(current: string): seq<string> {
    if Trim(current) == [] then [] else [current]
  }

  /** What is left of the line, from its newline on. */
  function SkipLine(s: string): (r: string)
    ensures |r| <= |s|
    ensures s != [] && s[0] != '\n' ==> |r| < |s|
  {
    s[IndexOf(s, '\n')..]
  }

  /** What follows the end of a block comment; nothing when it is not closed. */
  function SkipBlock(s: string): (r: string)
    ensures |r| <= |s|
  {
    if |s| < 2 then [] else if s[0] == '*' && s[1] == '/' then s[2..] else SkipBlock(s[1..])
  }

  predicate StartsDashComment(s: string) {
    && |s| >= 2 && s[0] == '-' && s[1] == '-'
    && (|s| == 2 || s[2] == ' ' || s[2] == '\t' || s[2] == '\r' || s[2] == '\n')
  }

  predicate StartsBlockComment(s: string) {
    |s| >= 2 && s[0] == '/' && s[1] == '*'
  }

  function ModeAfter(c: char): Mode {
    if c == '\'' then Quote else if c == '`' then Ident else Top
  }

  /** The statements from here on; `current` is what the open statement has collected. */
  function Statements(s: string, mode: Mode, current: string): seq<string>
    decreases |s|
  {
    if s == [] then Flush(current)
    else if mode.Quote? then
      if s[0] == '\\' && |s| > 1 then Statements(s[2..], Quote, current + s[..2])
      else Statements(s[1..], if s[0] == '\'' then Top else Quote, current + [s[0]])
    else if mode.Ident? then
      Statements(s[1..], if s[0] == '`' then Top else Ident, current + [s[0]])
    else if s[0] == '#' || StartsDashComment(s) then Statements(SkipLine(s), Top, current)
    else if StartsBlockComment(s) then Statements(SkipBlock(s[2..]), Top, current)
    else if s[0] == ';' then Flush(current) + Statements(s[1..], Top, [])
    else Statements(s[1..], ModeAfter(s[0]), current + [s[0]])
  }

  // ---------------------------------------------------------------- the scanner

  lemma TailTail(s: string, i: nat, k: nat)
    requires i + k <= |s|
    ensures s[i..][k..] == s[i + k..]
  {
  }

  method FindNewline(chars: string, from: nat) returns (i: nat)
    requires from <= |chars|
    ensures from <= i <= |chars| && chars[i..] == SkipLine(chars[from..])
  {
    i := from;
    while i < |chars| && chars[i] != '\n'
      invariant from <= i <= |chars|
      invariant SkipLine(chars[from..]) == SkipLine(chars[i..])
    {
      assert chars[i..][1..] == chars[i + 1..];
      i := i + 1;
    }
    assert IndexOf(chars[i..], '\n') == 0;
  }

  method FindBlockEnd(chars: string, from: nat) returns (i: nat)
    requires from <= |chars|
    ensures from <= i <= |chars| && chars[i..] == SkipBlock(chars[from..])
  {
    i := from;
    while i + 1 < |chars| && !(chars[i] == '*' && chars[i + 1] == '/')
      invariant from <= i <= |chars|
      invariant SkipBlock(chars[from..]) == SkipBlock(chars[i..])
    {
      assert chars[i..][1..] == chars[i + 1..];
      i := i + 1;
    }
    if i + 1 < |chars| {
      assert chars[i..][2..] == chars[i + 2..];
    }
    i := if i + 2 < |chars| then i + 2 else |chars|;
  }

  method SplitStatements(sql: string) returns (statements: seq<string>)
    ensures statements == Statements(sql, Top, [])
  {
    hide SkipLine, SkipBlock, Flush, IndexOf;
    statements := [];
    var current: string := [];
    var i, mode := 0, Top;
    assert sql[0..] == sql;
    while i < |sql|
      invariant i <= |sql|
      invariant Statements(sql, Top, []) == statements + Statements(sql[i..], mode, current)
      decreases |sql| - i
    {
      var ch := sql[i];
      ghost var rest, before := sql[i..], current;
      TailTail(sql, i, 1);
      if mode.Quote? {
        current := current + [ch];
        if ch == '\\' && i + 1 < |sql| {
          TailTail(sql, i, 2);
          assert rest[..2] == [ch] + [sql[i + 1]];
          Assoc(before, [ch], [sql[i + 1]]);
          current := current + [sql[i + 1]];
          i := i + 2;
        } else {
          if ch == '\'' {
            mode := Top;
          }
          i := i + 1;
        }
      } else if mode.Ident? {
        current := current + [ch];
        if ch == '`' {
          mode := Top;
        }
        i := i + 1;
      } else if ch == '#' || StartsDashComment(sql[i..]) {
        var j := FindNewline(sql, i);
        assert |SkipLine(rest)| < |rest|;
        i := j;
      } else if StartsBlockComment(sql[i..]) {
        TailTail(sql, i, 2);
        i := FindBlockEnd(sql, i + 2);
      } else {
        if ch == '\'' {
          mode := Quote;
          current := current + [ch];
        } else if ch == '`' {
          mode := Ident;
          current := current + [ch];
        } else if ch == ';' {
          Assoc(statements, Flush(current), Statements(sql[i + 1..], Top, []));
          statements := statements + Flush(current);
          current := [];
        } else {
          current := current + [ch];
        }
        i := i + 1;
      }
    }
    assert Statements(sql[i..], mode, current) == Flush(current);
    statements := statements + Flush(current);
  }

  // ---------------------------------------------------------------- dumps as lexical pieces

  /** The lexical pieces of a dump. A line comment stops before its newline. */
  datatype Piece =
    | Plain(c: char)
    | Str(body: string)
    | Name(body: string)
    | LineComment(hash: bool, body: string)
    | BlockComment(body: string)
    | Semi

  function PieceText(p: Piece): string {
    match p
    case Plain(c) => [c]
    case Str(body) => "'" + body + "'"
    case Name(body) => "`" + body + "`"
    case LineComment(hash, body) => (if hash then "#" else "--") + body
    case BlockComment(body) => "/*" + body + "*/"
    case Semi => ";"
  }

  function DumpText(dump: seq<Piece>): string {
    if dump == [] then [] else PieceText(dump[0]) + DumpText(dump[1..])
  }

  /** A string body: a backslash takes the next character with it, and no quote stands alone. */
  predicate QuoteSafe(body: string) {
    body == [] || (
      if body[0] == '\\' then |body| > 1 && QuoteSafe(body[2..])
      else body[0] != '\'' && QuoteSafe(body[1..]))
  }

  predicate NoBlockEnd(body: string) {
    forall k | 0 <= k < |body| - 1 :: !(body[k] == '*' && body[k + 1] == '/')
  }

  /** The piece is written so that the text after it cannot change what it is. */
  predicate PieceOk(p: Piece, after: string) {
    match p
    case Plain(c) =>
      && c != '\'' && c != '`' && c != ';' && c != '#'
      && !StartsDashComment([c] + after) && !StartsBlockComment([c] + after)
    case Str(body) => QuoteSafe(body)
    case Name(body) => '`' !in body
    case LineComment(hash, body) =>
      && '\n' !in body
      && (hash || body == [] || body[0] == ' ' || body[0] == '\t' || body[0] == '\r')
      && (after == [] || after[0] == '\n')
    case BlockComment(body) => NoBlockEnd(body)
    case Semi => true
  }

  predicate WellFormed(dump: seq<Piece>) {
    dump == [] || (PieceOk(dump[0], DumpText(dump[1..])) && WellFormed(dump[1..]))
  }

  /** What a piece adds to the statement it is in: comments add nothing. */
  function Kept(p: Piece): string {
    if p.LineComment? || p.BlockComment? || p.Semi? then [] else PieceText(p)
  }

  /** The statements of a dump, read off its pieces. */
  function StatementsOf(dump: seq<Piece>, current: string): seq<string> {
    if dump == [] then Flush(current)
    else if dump[0].Semi? then Flush(current) + StatementsOf(dump[1..], [])
    else StatementsOf(dump[1..], current + Kept(dump[0]))
  }

  lemma {:induction false} ScanQuote(body: string, after: string, current: string)
    requires QuoteSafe(body)
    ensures Statements(body + "'" + after, Quote, current) == Statements(after, Top, current + body + "'")
    decreases |body|
  {
    hide Flush, SkipLine, SkipBlock;
    var s := body + "'" + after;
    if body == [] {
      assert s[1..] == after && current + body == current;
    } else if body[0] == '\\' {
      assert s[2..] == body[2..] + "'" + after && s[..2] == body[..2];
      ScanQuote(body[2..], after, current + body[..2]);
      assert current + body[..2] + body[2..] == current + body;
    } else {
      assert s[1..] == body[1..] + "'" + after;
      ScanQuote(body[1..], after, current + [body[0]]);
      assert current + [body[0]] + body[1..] == current + body;
    }
  }

  lemma {:induction false} ScanIdent(body: string, after: string, current: string)
    requires '`' !in body
    ensures Statements(body + "`" + after, Ident, current) == Statements(after, Top, current + body + "`")
    decreases |body|
  {
    hide Flush, SkipLine, SkipBlock;
    var s := body + "`" + after;
    if body == [] {
      assert s[1..] == after && current + body == current;
    } else {
      assert s[1..] == body[1..] + "`" + after;
      assert body[0] in body;
      ScanIdent(body[1..], after, current + [body[0]]);
      assert current + [body[0]] + body[1..] == current + body;
    }
  }

  lemma SkipLineAfter(line: string, after: string)
    requires '\n' !in line && (after == [] || after[0] == '\n')
    ensures SkipLine(line + after) == after
  {
    var s := line + after;
    if after == [] {
      assert s == line;
    } else {
      assert s[..|line|] == line;
      IndexOfUnique(s, '\n', |line|);
    }
  }

  lemma {:induction false} SkipBlockAfter(body: string, after: string)
    requires NoBlockEnd(body)
    ensures SkipBlock(body + "*/" + after) == after
    decreases |body|
  {
    var s := body + "*/" + after;
    if body == [] {
      assert s[2..] == after;
    } else {
      assert s[1..] == body[1..] + "*/" + after;
      assert forall k | 0 <= k < |body[1..]| :: body[1..][k] == body[k + 1];
      SkipBlockAfter(body[1..], after);
      if |body| > 1 {
        assert s[1] == body[1];
      }
    }
  }

  lemma ScanStr(body: string, after: string, current: string)
    requires QuoteSafe(body)
    ensures Statements("'" + body + "'" + after, Top, current) == Statements(after, Top, current + ("'" + body + "'"))
  {
    hide Flush, SkipLine, SkipBlock, QuoteSafe;
    var s := "'" + body + "'" + after;
    assert s[1..] == body + "'" + after;
    ScanQuote(body, after, current + "'");
    assert current + "'" + body + "'" == current + ("'" + body + "'");
  }

  lemma ScanName(body: string, after: string, current: string)
    requires '`' !in body
    ensures Statements("`" + body + "`" + after, Top, current) == Statements(after, Top, current + ("`" + body + "`"))
  {
    hide Flush, SkipLine, SkipBlock;
    var s := "`" + body + "`" + after;
    assert s[1..] == body + "`" + after;
    ScanIdent(body, after, current + "`");
    assert current + "`" + body + "`" == current + ("`" + body + "`");
  }

  lemma ScanLineComment(line: string, after: string, current: string)
    requires line != [] && '\n' !in line && (after == [] || after[0] == '\n')
    requires line[0] == '#' || StartsDashComment(line + after)
    ensures Statements(line + after, Top, current) == Statements(after, Top, current)
  {
    hide Flush, SkipLine, SkipBlock;
    SkipLineAfter(line, after);
  }

  lemma ScanBlockComment(body: string, after: string, current: string)
    requires NoBlockEnd(body)
    ensures Statements("/*" + body + "*/" + after, Top, current) == Statements(after, Top, current)
  {
    hide Flush, SkipLine, SkipBlock, NoBlockEnd;
    var s := "/*" + body + "*/" + after;
    assert s[2..] == body + "*/" + after;
    SkipBlockAfter(body, after);
  }

  lemma ScanPlain(c: char, after: string, current: string)
    requires PieceOk(Plain(c), after) || c == ';'
    ensures Statements([c] + after, Top, current) ==
            if c == ';' then Flush(current) + Statements(after, Top, []) else Statements(after, Top, current + [c])
  {
    hide Flush, SkipLine, SkipBlock;
    assert ([c] + after)[1..] == after;
  }

  lemma ScanPiece(p: Piece, after: string, current: string)
    requires PieceOk(p, after)
    ensures Statements(PieceText(p) + after, Top, current) ==
            if p.Semi? then Flush(current) + Statements(after, Top, [])
            else Statements(after, Top, current + Kept(p))
  {
    hide Statements, Flush, QuoteSafe, NoBlockEnd;
    match p {
      case Plain(c) => ScanPlain(c, after, current);
      case Str(body) => ScanStr(body, after, current);
      case Name(body) => ScanName(body, after, current);
      case LineComment(hash, body) =>
        var line := PieceText(p);
        if !hash && |line + after| > 2 {
          assert (line + after)[2] == if body != [] then body[0] else after[0];
        }
        ScanLineComment(line, after, current);
        assert current + Kept(p) == current;
      case BlockComment(body) =>
        ScanBlockComment(body, after, current);
        assert current + Kept(p) == current;
      case Semi => ScanPlain(';', after, current);
    }
  }

  /** Splitting the text of any well-formed dump gives the statements of its pieces. */
  lemma {:induction false} SplitIsStatements(dump: seq<Piece>, current: string)
    requires WellFormed(dump)
    ensures Statements(DumpText(dump), Top, current) == StatementsOf(dump, current)
    decreases |dump|
  {
    hide Flush, PieceOk, PieceText, Statements, Kept;
    if dump == [] {
      assert Statements([], Top, current) == Flush(current) by { NoText(current); }
    } else {
      var p, rest := dump[0], dump[1..];
      ScanPiece(p, DumpText(rest), current);
      SplitIsStatements(rest, if p.Semi? then [] else current + Kept(p));
    }
  }

  lemma NoText(current: string)
    ensures Statements([], Top, current) == Flush(current)
  {
  }

  function KeptText(dump: seq<Piece>): string {
    if dump == [] then [] else Kept(dump[0]) + KeptText(dump[1..])
  }

  /** Pieces without a semicolon only add to the statement that is open. */
  lemma {:induction false} StatementsOfOpen(pieces: seq<Piece>, rest: seq<Piece>, current: string)
    requires forall k | 0 <= k < |pieces| :: !pieces[k].Semi?
    ensures StatementsOf(pieces + rest, current) == StatementsOf(rest, current + KeptText(pieces))
    decreases |pieces|
  {
    hide Flush, Kept;
    if pieces == [] {
      assert pieces + rest == rest && current + [] == current;
    } else {
      assert (pieces + rest)[1..] == pieces[1..] + rest;
      StatementsOfOpen(pieces[1..], rest, current + Kept(pieces[0]));
      Assoc(current, Kept(pieces[0]), KeptText(pieces[1..]));
    }
  }

  /** A dump that ends its last statement can be cut there. */
  lemma {:induction false} StatementsOfClosed(before: seq<Piece>, rest: seq<Piece>, current: string)
    requires before != [] && before[|before| - 1].Semi?
    ensures StatementsOf(before + rest, current) == StatementsOf(before, current) + StatementsOf(rest, [])
    decreases |before|
  {
    hide Flush, Kept;
    var tail := before[1..];
    assert (before + rest)[1..] == tail + rest;
    if tail == [] {
      assert tail + rest == rest;
      assert StatementsOf(before, current) == Flush(current) + Flush([]);
      assert Flush([]) == [] by { FlushNothing(); }
    } else if before[0].Semi? {
      StatementsOfClosed(tail, rest, []);
      Assoc(Flush(current), StatementsOf(tail, []), StatementsOf(rest, []));
    } else {
      StatementsOfClosed(tail, rest, current + Kept(before[0]));
    }
  }

  lemma FlushNothing()
    ensures Flush([]) == []
  {
  }
}
