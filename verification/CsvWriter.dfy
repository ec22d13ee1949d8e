/**
 An address book written as CSV, each field under the name of its column, and the proof that the
 importer reads it back.
 */
module CsvWriter {
  import opened Prelude
  import opened Text
  import opened Decimal
  import Utf8
  import opened CsvTokenizer
  import opened CsvRows

  // ---------------------------------------------------------------- the writer

  const FLAG_NAMES: seq<string> :=
    ["ignore_cert", "enable_gfx", "enable_drive", "disable_copy", "disable_paste", "prompt_credentials"]

  function NumberText(n: Option<nat>): string {
    match n case None => "" case Some(x) => Digits(x)
  }

  function CommaJoin(parts: seq<string>): string {
    if parts == [] then "" else if |parts| == 1 then parts[0] else parts[0] + "," + CommaJoin(parts[1..])
  }

  /** The field that belongs under a fixed column, by the column's name. */
  function CoreCell(row: Row, name: string): string {
    if name == "name" then row.name
    else if name == "protocol" then row.protocol
    else if name == "hostname" then row.hostname
    else if name == "port" then NumberText(row.port)
    else if name == "username" then row.username
    else if name == "password" then row.password
    else if name == "folder" then row.folder
    else if name == "allowed_groups" then CommaJoin(row.allowedGroups)
    else row.description
  }

  function SettingText(s: Option<Setting>): string {
    match s
    case None => ""
    case Some(TextSetting(text)) => text
    case Some(FlagSetting(flag)) => if flag then "true" else "false"
    case Some(DepthSetting(depth)) => Digits(depth)
  }

  function TrailingCell(row: Row, h: Header, j: nat): string
    requires HeaderOk(h) && j < |h.trailing|
  {
    match h.trailing[j]
    case Optional(p) => SettingText(row.settings[p])
    case Custom =>
      var k := CountCustom(h.trailing[..j]);
      if k < |row.customFields| then row.customFields[k].1 else ""
  }

  function WriteRecord(row: Row, h: Header): Record
    requires HeaderOk(h)
  {
    seq(WidthOf(h), k requires 0 <= k < WidthOf(h) =>
      if k < FIXED then CoreCell(row, HEADERS[k]) else TrailingCell(row, h, k - FIXED))
  }

  // ---------------------------------------------------------------- rows that can be written

  /** A setting is of the kind its column's name asks for. */
  predicate SettingFits(name: string, s: Option<Setting>) {
    s.None? ||
    if name in FLAG_NAMES then s.value.FlagSetting?
    else if name == "color_depth" then s.value.DepthSetting? && s.value.depth < 256
    else s.value.TextSetting? && s.value.text != [] && CleanEdges(s.value.text)
  }

  predicate FolderFits(folder: string) {
    folder == [] || (CleanEdges(folder) && folder[0] != '/' && folder[|folder| - 1] != '/')
  }

  predicate GroupFits(g: string) {
    g != [] && CleanEdges(g) && ',' !in g
  }

  predicate GroupsFit(groups: seq<string>) {
    && (forall k | 0 <= k < |groups| :: GroupFits(groups[k]))
    && (forall i, j | 0 <= i < j < |groups| :: groups[i] != groups[j])
  }

  predicate CoreFits(row: Row) {
    && row.name != [] && CleanEdges(row.name) && CleanEdges(row.username) && CleanEdges(row.description)
    && row.protocol in VALID_PROTOCOLS && CleanEdges(row.hostname)
    && (row.hostname != [] || row.protocol in HOSTNAME_OPTIONAL)
    && (row.port.Some? ==> row.port.value < 0x1_0000)
    && FolderFits(row.folder) && GroupsFit(row.allowedGroups)
  }

  /** The texts are trimmed, the custom values are those of the header's columns, and no other setting is given. */
  ghost predicate RowFits(row: Row, h: Header) {
    && CoreFits(row) && |row.customFields| == |h.customCols|
    && (forall k | 0 <= k < |h.customCols| ::
          row.customFields[k].0 == h.customCols[k] && CleanEdges(row.customFields[k].1))
    && (forall p | 0 <= p < OPTIONALS ::
          if Optional(p) in h.trailing then SettingFits(OPTIONAL_HEADERS[p], row.settings[p])
          else row.settings[p] == None)
  }

  // ---------------------------------------------------------------- cell by cell

  lemma TrimFix(s: string)
    requires CleanEdges(s)
    ensures Trim(s) == s
  {
    hide Trim, IsWhitespace;
    TrimExact([], s, []);
    assert [] + s + [] == s;
  }

  predicate NoCapitals(s: string) {
    forall c | c in s :: !('A' <= c <= 'Z')
  }

  lemma {:induction false} LowerFix(s: string)
    requires NoCapitals(s)
    ensures Lower(s) == s
  {
    if s != [] {
      assert s[0] in s && forall c | c in s[1..] :: c in s;
      LowerFix(s[1..]);
    }
  }

  lemma ProtocolPlain(p: string)
    requires p in VALID_PROTOCOLS
    ensures p != [] && CleanEdges(p) && NoCapitals(p)
  {
    assert NoCapitals("ssh") && NoCapitals("rdp") && NoCapitals("vnc") && NoCapitals("spice");
    assert NoCapitals("web") && NoCapitals("vdi") && NoCapitals("proxmox") && NoCapitals("powershell");
  }

  lemma ProtocolFix(p: string)
    requires p in VALID_PROTOCOLS
    ensures p != [] && CleanEdges(p) && Trim(p) == p && Lower(p) == p
  {
    hide Trim, Lower, NoCapitals, CleanEdges;
    ProtocolPlain(p);
    LowerFix(p);
    TrimFix(p);
  }

  lemma DigitsFix(n: nat)
    ensures Digits(n) != [] && CleanEdges(Digits(n)) && Trim(Digits(n)) == Digits(n)
  {
    hide Digits, Trim;
    var s := Digits(n);
    assert IsDigit(Utf8.Codes(s)[0]) && IsDigit(Utf8.Codes(s)[|s| - 1]);
    TrimFix(s);
  }

  lemma PortBack(port: Option<nat>)
    requires port.Some? ==> port.value < 0x1_0000
    ensures ParsePort(NumberText(port)) == Ok(port)
  {
    hide Digits, ParseUnsigned, Trim;
    if port.Some? {
      DigitsFix(port.value);
      ParseDigits(port.value, 0x1_0000);
    } else {
      TrimFix("");
    }
  }

  lemma FlagColumns(p: nat)
    requires p < OPTIONALS
    ensures IsFlagColumn(p) <==> OPTIONAL_HEADERS[p] in FLAG_NAMES
    ensures p == 3 <==> OPTIONAL_HEADERS[p] == "color_depth"
  {
  }

  lemma FlagBack(p: nat, flag: bool)
    requires IsFlagColumn(p)
    ensures ParseOptional(p, SettingText(Some(FlagSetting(flag)))) == Ok(Some(FlagSetting(flag)))
  {
    hide Trim, Lower, IsFlagColumn;
    var text := if flag then "true" else "false";
    TrimFix(text);
    assert NoCapitals("true") && NoCapitals("false");
    LowerFix(text);
  }

  lemma DepthBack(depth: nat)
    requires depth < 256
    ensures ParseOptional(3, SettingText(Some(DepthSetting(depth)))) == Ok(Some(DepthSetting(depth)))
  {
    hide Digits, ParseUnsigned, Trim, Lower;
    DigitsFix(depth);
    ParseDigits(depth, 256);
  }

  lemma SettingBack(p: nat, s: Option<Setting>)
    requires p < OPTIONALS && SettingFits(OPTIONAL_HEADERS[p], s)
    ensures ParseOptional(p, SettingText(s)) == Ok(s)
  {
    hide Digits, ParseUnsigned, Trim, Lower, IsFlagColumn;
    FlagColumns(p);
    match s {
      case None => TrimFix("");
      case Some(TextSetting(text)) => TrimFix(text);
      case Some(FlagSetting(flag)) => FlagBack(p, flag);
      case Some(DepthSetting(depth)) => DepthBack(depth);
    }
  }

  lemma FolderBack(folder: string)
    requires FolderFits(folder)
    ensures NormalizeFolder(folder) == folder
  {
    hide Trim;
    TrimFix(folder);
  }

  predicate AllSlashes(s: string) {
    forall c | c in s :: c == '/'
  }

  /** Normalizing a folder takes the white space and then the slashes off both ends, and nothing else. */
  lemma FolderExact(a: string, x: string, folder: string, y: string, b: string)
    requires AllWhitespace(a) && AllWhitespace(b) && AllSlashes(x) && AllSlashes(y) && FolderFits(folder)
    ensures NormalizeFolder(a + (x + folder + y) + b) == folder
  {
    hide Trim, IsWhitespace, TrimMatches;
    SlashIsVisible();
    SlashedEdges(x, folder, y);
    TrimExact(a, x + folder + y, b);
    Assoc(x, folder, y);
    SlashesFront(x, folder + y);
    SlashesBack(folder, y);
  }

  lemma SlashIsVisible()
    ensures !IsWhitespace('/')
  {
  }

  lemma SlashedEdges(x: string, folder: string, y: string)
    requires AllSlashes(x) && AllSlashes(y) && FolderFits(folder) && !IsWhitespace('/')
    ensures CleanEdges(x + folder + y)
  {
    hide IsWhitespace;
    var s := x + folder + y;
    if s != [] {
      assert s[0] == if x != [] then x[0] else if folder != [] then folder[0] else y[0];
      var n := |s| - 1;
      assert s[n] == if y != [] then y[|y| - 1] else if folder != [] then folder[|folder| - 1] else x[|x| - 1];
      assert x != [] ==> x[0] in x && x[|x| - 1] in x;
      assert y != [] ==> y[0] in y && y[|y| - 1] in y;
    }
  }

  lemma {:induction false} SlashesFront(x: string, s: string)
    requires AllSlashes(x)
    ensures TrimMatches(x + s, '/') == TrimMatches(s, '/')
    decreases |x|
  {
    if x == [] {
      assert x + s == s;
    } else {
      assert x[0] in x && (x + s)[1..] == x[1..] + s;
      assert forall c | c in x[1..] :: c in x;
      SlashesFront(x[1..], s);
    }
  }

  lemma {:induction false} SlashesBack(folder: string, y: string)
    requires AllSlashes(y) && FolderFits(folder)
    ensures TrimMatches(folder + y, '/') == folder
    decreases |y|
  {
    if folder == [] {
      SlashesFront(y, []);
      assert y + [] == y && folder + y == y;
    } else if y == [] {
      assert folder + y == folder;
    } else {
      var s := folder + y;
      assert y[|y| - 1] in y && s[|s| - 1] == '/' && s[0] != '/' && s[..|s| - 1] == folder + y[..|y| - 1];
      var t := y[..|y| - 1];
      assert AllSlashes(t) by {
        forall c | c in t
          ensures c == '/'
        {
          var i :| 0 <= i < |t| && t[i] == c;
          assert y[i] in y;
        }
      }
      SlashesBack(folder, t);
    }
  }

  /** Lowering changes the capitals A to Z and nothing else. */
  lemma {:induction false} LowerExact(s: string, k: nat)
    requires k < |s|
    ensures Lower(s)[k] == if 'A' <= s[k] <= 'Z' then (s[k] as int - 'A' as int + 'a' as int) as char else s[k]
  {
    if k > 0 {
      LowerExact(s[1..], k - 1);
    }
  }

  lemma SplitFirst(first: string, rest: string)
    requires ',' !in first
    ensures SplitOn(first + "," + rest, ',') == [first] + SplitOn(rest, ',')
  {
    hide IndexOf;
    var s, k := first + "," + rest, |first|;
    assert s[k] == ',' && s[..k] == first && s[k + 1..] == rest;
    IndexOfUnique(s, ',', k);
  }

  lemma SplitLast(last: string)
    requires ',' !in last
    ensures SplitOn(last, ',') == [last]
  {
  }

  lemma {:induction false} SplitJoined(parts: seq<string>)
    requires parts != [] && forall k | 0 <= k < |parts| :: ',' !in parts[k]
    ensures SplitOn(CommaJoin(parts), ',') == parts
    decreases |parts|
  {
    hide SplitOn;
    if |parts| == 1 {
      SplitLast(parts[0]);
      assert parts == [parts[0]];
    } else {
      SplitFirst(parts[0], CommaJoin(parts[1..]));
      SplitJoined(parts[1..]);
      assert parts == [parts[0]] + parts[1..];
    }
  }

  lemma {:induction false} GroupsFixed(groups: seq<string>)
    requires GroupsFit(groups)
    ensures GroupsOf(groups) == groups
    decreases |groups|
  {
    hide Trim, CleanEdges;
    if groups != [] {
      var n := |groups| - 1;
      var front, g := groups[..n], groups[n];
      assert forall k | 0 <= k < n :: front[k] == groups[k];
      GroupsFixed(front);
      GroupsStep(groups, n);
      assert GroupFits(g);
      TrimFix(g);
      assert g !in front;
      assert groups[..n + 1] == groups && groups == front + [g];
    }
  }

  lemma GroupsBack(groups: seq<string>)
    requires GroupsFit(groups)
    ensures GroupsOf(SplitOn(CommaJoin(groups), ',')) == groups
  {
    hide GroupsOf, SplitOn, CommaJoin, Trim;
    if groups == [] {
      NoGroups();
    } else {
      assert forall k | 0 <= k < |groups| :: GroupFits(groups[k]);
      SplitJoined(groups);
      GroupsFixed(groups);
    }
  }

  lemma NoGroups()
    ensures GroupsOf(SplitOn(CommaJoin([]), ',')) == []
  {
    hide Trim;
    TrimFix("");
    assert SplitOn("", ',') == [""];
    GroupsStep([""], 0);
    assert [""][..1] == [""] && [""][..0] == [];
  }

  // ---------------------------------------------------------------- the trailing cells

  /** The settings of the first `j` trailing columns. */
  ghost predicate SettingsUpTo(settings: Settings, row: Row, h: Header, j: nat)
    requires j <= |h.trailing|
  {
    forall p | 0 <= p < OPTIONALS ::
      settings[p] == if Optional(p) in h.trailing[..j] then row.settings[p] else None
  }

  /** What has been read of a written record after its first `j` trailing cells. */
  ghost predicate ReadUpTo(t: Trailing, row: Row, h: Header, j: nat)
    requires j <= |h.trailing|
  {
    var k := CountCustom(h.trailing[..j]);
    && t.problems == [] && SettingsUpTo(t.settings, row, h, j)
    && k <= |row.customFields| && t.custom == row.customFields[..k]
  }

  lemma CountSnoc(h: Header, n: nat)
    requires n < |h.trailing|
    ensures h.trailing[..n + 1] == h.trailing[..n] + [h.trailing[n]]
    ensures CountCustom(h.trailing[..n + 1]) == CountCustom(h.trailing[..n]) + if h.trailing[n].Custom? then 1 else 0
  {
    assert h.trailing[..n + 1][..n] == h.trailing[..n];
  }

  lemma CustomStep(t: Trailing, row: Row, h: Header, n: nat)
    requires HeaderOk(h) && RowFits(row, h) && n < |h.trailing| && h.trailing[n].Custom?
    requires ReadUpTo(t, row, h, n) && |t.custom| == CountCustom(h.trailing[..n])
    ensures ReadUpTo(AddCell(t, h, n, TrailingCell(row, h, n)), row, h, n + 1)
  {
    hide CoreFits, Trim, SettingFits, CountCustom;
    CustomIndex(h, n);
    CountSnoc(h, n);
    var k := CountCustom(h.trailing[..n]);
    TrimFix(row.customFields[k].1);
    assert row.customFields[..k + 1] == row.customFields[..k] + [row.customFields[k]];
    assert row.customFields[k] == (h.customCols[k], row.customFields[k].1);
  }

  lemma OptionalStep(t: Trailing, row: Row, h: Header, n: nat)
    requires HeaderOk(h) && RowFits(row, h) && n < |h.trailing| && h.trailing[n].Optional?
    requires ReadUpTo(t, row, h, n) && |t.custom| == CountCustom(h.trailing[..n])
    ensures ReadUpTo(AddCell(t, h, n, TrailingCell(row, h, n)), row, h, n + 1)
  {
    hide CoreFits, ParseOptional, SettingText, SettingFits, CountCustom;
    CountSnoc(h, n);
    var p := h.trailing[n].index;
    assert Optional(p) in h.trailing;
    SettingBack(p, row.settings[p]);
  }

  lemma {:induction false} TrailingBack(row: Row, h: Header, j: nat)
    requires HeaderOk(h) && RowFits(row, h) && j <= |h.trailing|
    ensures ReadUpTo(TrailingOf(h, WriteRecord(row, h), j), row, h, j)
    decreases j
  {
    hide ReadUpTo, RowFits, AddCell, TrailingCell, CoreCell, CountCustom;
    if j == 0 {
      ReadNothing(row, h);
    } else {
      TrailingBack(row, h, j - 1);
      var before := TrailingOf(h, WriteRecord(row, h), j - 1);
      if h.trailing[j - 1].Custom? {
        CustomStep(before, row, h, j - 1);
      } else {
        OptionalStep(before, row, h, j - 1);
      }
    }
  }

  lemma ReadNothing(row: Row, h: Header)
    ensures ReadUpTo(Trailing(NO_SETTINGS, [], []), row, h, 0)
  {
    assert h.trailing[..0] == [] && row.customFields[..0] == [];
  }

  lemma AllSettings(settings: Settings, row: Row, h: Header)
    requires HeaderOk(h) && RowFits(row, h) && SettingsUpTo(settings, row, h, |h.trailing|)
    ensures settings == row.settings
  {
    hide CoreFits, SettingFits, HeaderOk;
    assert h.trailing[..|h.trailing|] == h.trailing;
    forall p | 0 <= p < OPTIONALS ensures settings[p] == row.settings[p] {
    }
  }

  // ---------------------------------------------------------------- the fixed cells

  lemma CoreCells(row: Row, h: Header)
    requires HeaderOk(h)
    ensures var r := WriteRecord(row, h);
            && r[0] == row.name && r[1] == row.protocol && r[2] == row.hostname && r[3] == NumberText(row.port)
            && r[4] == row.username && r[5] == row.password && r[6] == row.folder
            && r[7] == CommaJoin(row.allowedGroups) && r[8] == row.description
  {
    hide HeaderOk, CommaJoin, NumberText, TrailingCell;
    Columns(row);
  }

  lemma Columns(row: Row)
    ensures CoreCell(row, HEADERS[0]) == row.name && CoreCell(row, HEADERS[1]) == row.protocol
    ensures CoreCell(row, HEADERS[2]) == row.hostname && CoreCell(row, HEADERS[3]) == NumberText(row.port)
    ensures CoreCell(row, HEADERS[4]) == row.username && CoreCell(row, HEADERS[5]) == row.password
    ensures CoreCell(row, HEADERS[6]) == row.folder && CoreCell(row, HEADERS[7]) == CommaJoin(row.allowedGroups)
    ensures CoreCell(row, HEADERS[8]) == row.description
  {
    hide CommaJoin, NumberText;
  }

  lemma CoreIsGood(row: Row, cells: seq<string>)
    requires CoreFits(row) && |cells| >= FIXED
    requires cells[0] == row.name && cells[1] == row.protocol && cells[2] == row.hostname
    requires cells[3] == NumberText(row.port)
    ensures CoreProblems(cells) == [] && ParsePort(cells[3]) == Ok(row.port)
    ensures Trim(cells[0]) == row.name && Lower(Trim(cells[1])) == row.protocol && Trim(cells[2]) == row.hostname
  {
    hide Trim, Lower, ParsePort, NumberText, GroupsFit, FolderFits;
    PortBack(row.port);
    ProtocolFix(row.protocol);
    TrimFix(row.name);
    TrimFix(row.hostname);
  }

  /** A row that is written under a header is read back from its record. */
  lemma RecordRoundTrip(row: Row, h: Header)
    requires HeaderOk(h) && RowFits(row, h)
    ensures ParseRecord(WriteRecord(row, h), h) == GoodRecord(row)
  {
    hide Trim, Lower, ParsePort, NumberText, GroupsOf, SplitOn, CommaJoin, NormalizeFolder, TrailingOf, WriteRecord,
         HeaderOk, CoreProblems, SettingsUpTo, CountCustom, CoreFits;
    var record := WriteRecord(row, h);
    WrittenWidth(row, h);
    CoreCells(row, h);
    CoreIsGood(row, record);
    FitsMeans(row);
    TrimFix(row.username);
    TrimFix(row.description);
    FolderBack(row.folder);
    GroupsBack(row.allowedGroups);
    TrailingBack(row, h, |h.trailing|);
    AllSettings(TrailingOf(h, record, |h.trailing|).settings, row, h);
    AllCustom(row, h);
    assert Padded(record, WidthOf(h)) == record;
    assert !IsBlank(record) by { assert record[0] != []; }
  }

  lemma FitsMeans(row: Row)
    requires CoreFits(row)
    ensures row.name != [] && CleanEdges(row.username) && CleanEdges(row.description)
    ensures FolderFits(row.folder) && GroupsFit(row.allowedGroups)
  {
  }

  lemma WrittenWidth(row: Row, h: Header)
    requires HeaderOk(h)
    ensures |WriteRecord(row, h)| == WidthOf(h) >= FIXED
  {
  }

  lemma AllCustom(row: Row, h: Header)
    requires HeaderOk(h) && |row.customFields| == |h.customCols|
    ensures CountCustom(h.trailing[..|h.trailing|]) == |row.customFields|
    ensures row.customFields[..|row.customFields|] == row.customFields
  {
    assert h.trailing[..|h.trailing|] == h.trailing;
  }

  // ---------------------------------------------------------------- the whole file

  ghost predicate BookFits(rows: seq<Row>, h: Header) {
    && (forall k | 0 <= k < |rows| :: RowFits(rows[k], h))
    && (forall i, j | 0 <= i < j < |rows| :: Key(rows[i]) != Key(rows[j]))
  }

  function WriteAll(rows: seq<Row>, h: Header): seq<Record>
    requires HeaderOk(h)
  {
    seq(|rows|, k requires 0 <= k < |rows| => WriteRecord(rows[k], h))
  }

  ghost function RowKeys(rows: seq<Row>): set<(string, string)> {
    set k | 0 <= k < |rows| :: Key(rows[k])
  }

  lemma {:induction false} AllAccepted(rows: seq<Row>, h: Header)
    requires HeaderOk(h) && BookFits(rows, h)
    ensures ReportOf(Outcomes(WriteAll(rows, h), h)) == Report(rows, [], [])
    ensures KeysOf(Outcomes(WriteAll(rows, h), h)) == RowKeys(rows)
    decreases |rows|
  {
    hide HeaderOk, RowFits, ReportOf, Outcomes, KeysOf, ParseRecord, WriteRecord;
    if rows == [] {
      NoRecords(h);
      assert WriteAll(rows, h) == [];
    } else {
      var n := |rows| - 1;
      var front, row, records := rows[..n], rows[n], WriteAll(rows, h);
      AllAccepted(front, h);
      assert records[..n] == WriteAll(front, h) && records[..n + 1] == records;
      RecordStep(records, n, h);
      RecordRoundTrip(row, h);
      assert Key(row) !in RowKeys(front);
      assert rows == front + [row];
      assert RowKeys(rows) == RowKeys(front) + {Key(row)} by {
        assert forall k | 0 <= k < n :: front[k] == rows[k];
        assert rows[n] == row;
      }
    }
  }

  function QuotedLine(record: Record): Line {
    Line(seq(|record|, k requires 0 <= k < |record| => Quoted(record[k])), Lf)
  }

  function QuotedLines(records: seq<Record>): seq<Line> {
    seq(|records|, k requires 0 <= k < |records| => QuotedLine(records[k]))
  }

  lemma {:induction false} QuotedOk(records: seq<Record>)
    requires forall k | 0 <= k < |records| :: records[k] != []
    ensures var lines := QuotedLines(records);
            && (forall k | 0 <= k < |lines| :: lines[k].cells != [])
            && LinesOk(lines, [])
            && LinesContents(lines) == records
    decreases |records|
  {
    var lines := QuotedLines(records);
    if records != [] {
      QuotedOk(records[1..]);
      assert lines[1..] == QuotedLines(records[1..]);
    }
    forall k | 0 <= k < |records| ensures CellsContents(lines[k].cells) == records[k] {
    }
  }

  /**
   The import undoes the export. A file with a good header record and the records of some rows,
   every cell quoted, is read as those records; the header is accepted; and the report has exactly
   the rows, in order, with nothing skipped and no error.
   */
  lemma ImportRoundTrip(header: Record, h: Header, customFields: seq<string>, rows: seq<Row>)
    requires HeaderFor(h, header, customFields) && BookFits(rows, h)
    ensures var records := [header] + WriteAll(rows, h);
            && (forall k | 0 <= k < |records| :: records[k] != [])
            && (forall k | 0 <= k < |QuotedLines(records)| :: QuotedLines(records)[k].cells != [])
            && Tokens(LinesText(QuotedLines(records), []), SCAN_START) == Ok(records)
            && ReportOf(Outcomes(records[1..], h)) == Report(rows, [], [])
  {
    hide Tokens, LinesText, ReportOf, Outcomes, WriteRecord, RowFits, CountCustom, ColumnsAre, Normalized;
    var all := WriteAll(rows, h);
    var records := [header] + all;
    forall k | 0 <= k < |all| ensures all[k] != [] {
      WrittenWidth(rows[k], h);
    }
    forall k | 0 <= k < |records| ensures records[k] != [] {
      assert k > 0 ==> records[k] == all[k - 1];
    }
    QuotedOk(records);
    TableRoundTrip(Table(QuotedLines(records), None));
    assert LinesContents(QuotedLines(records)) + [] == records;
    assert records[1..] == all;
    AllAccepted(rows, h);
  }

  // ---------------------------------------------------------------- what is read can be written

  lemma {:induction false} TrimStartKeeps(s: string)
    ensures var r := TrimStart(s); (forall c | c in r :: c in s) && (r != [] ==> r[|r| - 1] == s[|s| - 1])
  {
    hide IsWhitespace;
    if s != [] && IsWhitespace(s[0]) {
      TrimStartKeeps(s[1..]);
      assert forall c | c in s[1..] :: c in s;
    }
  }

  lemma {:induction false} TrimEndKeeps(s: string)
    ensures forall c | c in TrimEnd(s) :: c in s
  {
    hide IsWhitespace;
    if s != [] && IsWhitespace(s[|s| - 1]) {
      var t := s[..|s| - 1];
      TrimEndKeeps(t);
      assert s == t + [s[|s| - 1]];
      assert forall c | c in t :: c in s;
    }
  }

  lemma TrimClean(s: string)
    ensures CleanEdges(Trim(s)) && forall c | c in Trim(s) :: c in s
  {
    hide IsWhitespace;
    TrimEndKeeps(s);
    TrimStartKeeps(TrimEnd(s));
  }

  lemma {:induction false} MatchesOff(s: string, c: char)
    ensures var r := TrimMatches(s, c);
            |r| <= |s| && (r != [] ==> r[0] != c && r[|r| - 1] != c)
    decreases |s|
  {
    if s != [] && s[0] == c {
      MatchesOff(s[1..], c);
    } else if s != [] && s[|s| - 1] == c {
      MatchesOff(s[..|s| - 1], c);
    }
  }

  lemma {:induction false} PiecesWithout(s: string, c: char, k: nat)
    requires k < |SplitOn(s, c)|
    ensures c !in SplitOn(s, c)[k]
    decreases |s|
  {
    var n := IndexOf(s, c);
    if n < |s| && k > 0 {
      PiecesWithout(s[n + 1..], c, k - 1);
    }
  }

  lemma GroupsFitWhenRead(cell: string)
    ensures GroupsFit(GroupsOf(SplitOn(cell, ',')))
  {
    hide Trim, SplitOn, CleanEdges, GroupsOf;
    var pieces := SplitOn(cell, ',');
    var groups := GroupsOf(pieces);
    forall i | 0 <= i < |groups| ensures GroupFits(groups[i]) {
      assert groups[i] in groups;
      var k :| 0 <= k < |pieces| && Trim(pieces[k]) == groups[i];
      PiecesWithout(cell, ',', k);
      TrimClean(pieces[k]);
    }
  }

  lemma LowerClean(s: string)
    requires CleanEdges(s)
    ensures CleanEdges(Lower(s))
  {
    hide Lower;
    if s != [] {
      LowerExact(s, 0);
      LowerExact(s, |s| - 1);
    }
  }

  lemma LowerHasNoCapitals(s: string)
    ensures NoCapitals(Lower(s))
  {
    hide Lower;
    var r := Lower(s);
    forall c | c in r ensures !('A' <= c <= 'Z') {
      var k :| 0 <= k < |r| && r[k] == c;
      LowerExact(s, k);
    }
  }

  lemma ProtocolWhenRead(cell: string)
    ensures var p := Lower(Trim(cell)); Lower(Trim(p)) == p
  {
    hide Trim, Lower, CleanEdges, NoCapitals;
    var p := Lower(Trim(cell));
    TrimClean(cell);
    LowerClean(Trim(cell));
    TrimFix(p);
    LowerHasNoCapitals(Trim(cell));
    LowerFix(p);
  }

  lemma SettingWhenRead(p: nat, cell: string)
    requires p < OPTIONALS && ParseOptional(p, cell).Ok?
    ensures SettingFits(OPTIONAL_HEADERS[p], ParseOptional(p, cell).value)
  {
    hide Trim, Lower, IsFlagColumn, ParseUnsigned, CleanEdges;
    FlagColumns(p);
    TrimClean(cell);
  }

  lemma {:induction false} CustomWhenRead(h: Header, cells: seq<string>, j: nat, k: nat)
    requires HeaderOk(h) && j <= |h.trailing| && |cells| == WidthOf(h)
    requires k < |TrailingOf(h, cells, j).custom|
    ensures k < |h.customCols|
    ensures var v := TrailingOf(h, cells, j).custom[k]; v.0 == h.customCols[k] && CleanEdges(v.1)
    decreases j
  {
    hide Trim, ParseOptional, CleanEdges, HeaderOk;
    var before := TrailingOf(h, cells, j - 1);
    if k < |before.custom| {
      CustomWhenRead(h, cells, j - 1, k);
    } else {
      CustomIndex(h, j - 1);
      TrimClean(cells[FIXED + j - 1]);
    }
  }

  lemma CoreWhenRead(cells: seq<string>)
    requires |cells| >= FIXED && CoreProblems(cells) == []
    ensures ParsePort(cells[3]).Ok? && (ParsePort(cells[3]).value.Some? ==> ParsePort(cells[3]).value.value < 0x1_0000)
    ensures Trim(cells[0]) != [] && Lower(Trim(cells[1])) in VALID_PROTOCOLS
    ensures Trim(cells[2]) != [] || Lower(Trim(cells[1])) in HOSTNAME_OPTIONAL
  {
    hide Trim, Lower, ParseUnsigned, CleanEdges;
    TrimClean(cells[0]);
    TrimFix(Trim(cells[0]));
    TrimClean(cells[2]);
    TrimFix(Trim(cells[2]));
    ProtocolWhenRead(cells[1]);
  }

  lemma FolderWhenRead(cell: string)
    ensures var f := NormalizeFolder(cell); FolderFits(f) <==> CleanEdges(f)
  {
    hide Trim, IsWhitespace;
    MatchesOff(Trim(cell), '/');
  }

  lemma CustomAllRead(h: Header, cells: seq<string>)
    requires HeaderOk(h) && |cells| == WidthOf(h)
    ensures var custom := TrailingOf(h, cells, |h.trailing|).custom;
            && |custom| == |h.customCols|
            && forall k | 0 <= k < |h.customCols| :: custom[k].0 == h.customCols[k] && CleanEdges(custom[k].1)
  {
    hide TrailingOf, CleanEdges;
    assert h.trailing[..|h.trailing|] == h.trailing;
    var custom := TrailingOf(h, cells, |h.trailing|).custom;
    forall k | 0 <= k < |h.customCols| ensures custom[k].0 == h.customCols[k] && CleanEdges(custom[k].1) {
      CustomWhenRead(h, cells, |h.trailing|, k);
    }
  }

  lemma SettingsWhenRead(h: Header, cells: seq<string>, p: nat)
    requires HeaderOk(h) && |cells| == WidthOf(h) && p < OPTIONALS
    requires TrailingOf(h, cells, |h.trailing|).problems == []
    ensures var s := TrailingOf(h, cells, |h.trailing|).settings[p];
            if Optional(p) in h.trailing then SettingFits(OPTIONAL_HEADERS[p], s) else s == None
  {
    hide TrailingOf, ParseOptional, SettingFits, HeaderOk;
    var n := |h.trailing|;
    SettingsExact(h, cells, n, p);
    if Optional(p) in h.trailing {
      var i :| 0 <= i < n && h.trailing[i] == Optional(p);
      SettingWhenRead(p, cells[FIXED + i]);
    }
  }

  /** Every accepted row can be written, but for a folder that still has white space at an end. */
  lemma AcceptedFits(record: Record, h: Header)
    requires HeaderOk(h) && ParseRecord(record, h).GoodRecord?
    ensures var row := ParseRecord(record, h).row; RowFits(row, h) <==> CleanEdges(row.folder)
  {
    hide Trim, Lower, ParsePort, GroupsOf, SplitOn, NormalizeFolder, TrailingOf, HeaderOk, CoreProblems,
         CountCustom, CleanEdges, SettingFits, GroupsFit, FolderFits;
    var cells := Padded(record, WidthOf(h));
    var row := ParseRecord(record, h).row;
    CoreWhenRead(cells);
    TrimClean(cells[0]);
    TrimClean(cells[2]);
    TrimClean(cells[4]);
    TrimClean(cells[8]);
    GroupsFitWhenRead(cells[7]);
    FolderWhenRead(cells[6]);
    CustomAllRead(h, cells);
    forall p | 0 <= p < OPTIONALS
      ensures if Optional(p) in h.trailing then SettingFits(OPTIONAL_HEADERS[p], row.settings[p])
              else row.settings[p] == None
    {
      SettingsWhenRead(h, cells, p);
    }
  }

  lemma FolderIsRead(row: Row, h: Header)
    requires HeaderOk(h)
    ensures var r := ParseRecord(WriteRecord(row, h), h); r.GoodRecord? ==> r.row.folder == NormalizeFolder(row.folder)
  {
    hide WriteRecord, HeaderOk, NormalizeFolder, TrailingOf, CoreProblems, Trim, Lower, ParsePort, GroupsOf, SplitOn;
    WrittenWidth(row, h);
    CoreCells(row, h);
  }

  lemma DirtyFolder(folder: string)
    requires !CleanEdges(folder)
    ensures NormalizeFolder(folder) != folder
  {
    hide IsWhitespace;
    MatchesOff(Trim(folder), '/');
  }

  /**
   An accepted row that is written and read again is the same row if and only if its folder has no
   white space at its ends.
   */
  lemma ReimportExact(record: Record, h: Header)
    requires HeaderOk(h) && ParseRecord(record, h).GoodRecord?
    ensures var row := ParseRecord(record, h).row;
            ParseRecord(WriteRecord(row, h), h) == GoodRecord(row) <==> CleanEdges(row.folder)
  {
    hide ParseRecord, WriteRecord, HeaderOk, RowFits, CleanEdges;
    var row := ParseRecord(record, h).row;
    AcceptedFits(record, h);
    if CleanEdges(row.folder) {
      RecordRoundTrip(row, h);
    } else {
      FolderIsRead(row, h);
      DirtyFolder(row.folder);
    }
  }

  /** Slashes may hide white space, so that normalizing a folder twice is not normalizing it once. */
  lemma SlashHidesSpace()
    ensures NormalizeFolder("/ a") == " a" && NormalizeFolder(" a") == "a"
  {
    hide Trim;
    TrimFix("/ a");
    assert "/ a"[1..] == " a";
    TrimExact(" ", "a", "");
    assert " " + "a" + "" == " a";
  }
}
