/**
 From CSV records to address book rows: the header is checked, then every data record is sorted
 into exactly one of blank, failed, repeated or accepted.
 */
module CsvRows {
  import opened Prelude
  import opened Text
  import opened Decimal
  import opened CsvTokenizer

  const HEADERS: seq<string> :=
    ["name", "protocol", "hostname", "port", "username", "password", "folder", "allowed_groups", "description"]

  const LEGACY_HEADERS: seq<string> :=
    ["name", "protocol", "hostname", "port", "username", "password", "folder", "display_name", "allowed_groups",
     "description"]

  const OPTIONAL_HEADERS: seq<string> :=
    ["domain", "security", "ignore_cert", "color_depth", "remote_app", "enable_gfx", "enable_drive", "disable_copy",
     "disable_paste", "auth_pkg", "kdc_url", "prompt_credentials", "private_key"]

  const VALID_PROTOCOLS: seq<string> := ["ssh", "rdp", "vnc", "spice", "web", "vdi", "proxmox", "powershell"]

  /** Protocols whose target is not a host name. */
  const HOSTNAME_OPTIONAL: seq<string> := ["web", "vdi", "proxmox"]

  const FIXED: nat := 9
  const OPTIONALS: nat := 13

  function LowerChar(c: char): char {
    if 'A' <= c <= 'Z' then (c as int + 32) as char else c
  }

  /** `to_ascii_lowercase` */
  function Lower(s: string): (r: string)
    ensures |r| == |s|
  {
    if s == [] then [] else [LowerChar(s[0])] + Lower(s[1..])
  }

  function TrimMatches(s: string, c: char): string {
    if s != [] && s[0] == c then TrimMatches(s[1..], c)
    else if s != [] && s[|s| - 1] == c then TrimMatches(s[..|s| - 1], c)
    else s
  }

  function TrimStartMatches(s: string, c: char): string {
    if s != [] && s[0] == c then TrimStartMatches(s[1..], c) else s
  }

  // ---------------------------------------------------------------- the header

  datatype Column = Optional(index: nat) | Custom

  /** The columns after the fixed ones, and the names of the custom ones among them. */
  datatype Header = Header(trailing: seq<Column>, customCols: seq<string>)

  datatype FileError =
    | OpenQuote(row: nat)
    | EmptyFile
    | LegacyHeader
    | WrongColumn(i: nat)
    | RepeatedColumn(i: nat)
    | UnknownColumn(i: nat)

  function CountCustom(columns: seq<Column>): nat {
    if columns == [] then 0 else
      CountCustom(columns[..|columns| - 1]) + if columns[|columns| - 1].Custom? then 1 else 0
  }

  /** What an accepted header guarantees. */
  ghost predicate HeaderOk(h: Header) {
    && |h.customCols| == CountCustom(h.trailing)
    && (forall j | 0 <= j < |h.trailing| && h.trailing[j].Optional? :: h.trailing[j].index < OPTIONALS)
    && (forall i, j | 0 <= i < j < |h.trailing| && h.trailing[i].Optional? && h.trailing[j].Optional? ::
          h.trailing[i].index != h.trailing[j].index)
  }

  method FindName(names: seq<string>, name: string) returns (r: Option<nat>)
    ensures r.None? <==> name !in names
    ensures r.Some? ==> r.value < |names| && names[r.value] == name
  {
    for i := 0 to |names|
      invariant name !in names[..i]
    {
      if names[i] == name {
        return Some(i);
      }
    }
    assert names[..|names|] == names;
    return None;
  }

  /** What a trailing column stands for, by its name. */
  predicate ColumnIs(c: Column, raw: string, customFields: seq<string>) {
    match c
    case Optional(p) => p < OPTIONALS && OPTIONAL_HEADERS[p] == Lower(Trim(raw))
    case Custom => Lower(Trim(raw)) !in OPTIONAL_HEADERS && Trim(raw) in customFields
  }

  ghost predicate ColumnsAre(columns: seq<Column>, raw: seq<string>, customFields: seq<string>) {
    |columns| <= |raw| && forall j | 0 <= j < |columns| :: ColumnIs(columns[j], raw[j], customFields)
  }

  /** The names of the custom columns, in order. */
  function CustomNames(columns: seq<Column>, raw: seq<string>): seq<string>
    requires |columns| <= |raw|
  {
    if columns == [] then [] else
      var n := |columns| - 1;
      CustomNames(columns[..n], raw) + if columns[n].Custom? then [Trim(raw[n])] else []
  }

  lemma AddOptional(h: Header, p: nat)
    requires HeaderOk(h) && p < OPTIONALS && Optional(p) !in h.trailing
    ensures HeaderOk(Header(h.trailing + [Optional(p)], h.customCols))
  {
    var all := h.trailing + [Optional(p)];
    assert all[..|h.trailing|] == h.trailing;
    assert forall j | 0 <= j < |h.trailing| :: all[j] == h.trailing[j] && h.trailing[j] in h.trailing;
  }

  lemma AddCustom(h: Header, name: string)
    requires HeaderOk(h)
    ensures HeaderOk(Header(h.trailing + [Custom], h.customCols + [name]))
  {
    var all := h.trailing + [Custom];
    assert all[..|h.trailing|] == h.trailing;
    assert forall j | 0 <= j < |h.trailing| :: all[j] == h.trailing[j];
  }

  lemma ColumnsSnoc(columns: seq<Column>, c: Column, raw: seq<string>, customFields: seq<string>)
    requires ColumnsAre(columns, raw, customFields) && |columns| < |raw| && ColumnIs(c, raw[|columns|], customFields)
    ensures ColumnsAre(columns + [c], raw, customFields)
    ensures CustomNames(columns + [c], raw) ==
            CustomNames(columns, raw) + if c.Custom? then [Trim(raw[|columns|])] else []
  {
    hide ColumnIs;
    var all := columns + [c];
    assert all[..|columns|] == columns;
    assert forall j | 0 <= j < |columns| :: all[j] == columns[j];
  }

  predicate IsOptionalName(raw: string) {
    Lower(Trim(raw)) in OPTIONAL_HEADERS
  }

  predicate IsKnownName(raw: string, customFields: seq<string>) {
    IsOptionalName(raw) || Trim(raw) in customFields
  }

  /** Every name is known, and no optional one repeats; custom ones may. */
  ghost predicate Acceptable(raw: seq<string>, customFields: seq<string>) {
    && (forall j | 0 <= j < |raw| :: IsKnownName(raw[j], customFields))
    && (forall i, j | 0 <= i < j < |raw| && IsOptionalName(raw[i]) :: Lower(Trim(raw[i])) != Lower(Trim(raw[j])))
  }

  /**
   The trailing columns: optional settings once each, custom fields by their exact names. The
   first column that breaks this is named, as unknown or as repeated.
   */
  method ParseTrailing(raw: seq<string>, customFields: seq<string>) returns (r: Result<Header, FileError>)
    ensures r.Ok? <==> Acceptable(raw, customFields)
    ensures r.Ok? ==> HeaderOk(r.value) && |r.value.trailing| == |raw|
    ensures r.Ok? ==> ColumnsAre(r.value.trailing, raw, customFields)
    ensures r.Ok? ==> r.value.customCols == CustomNames(r.value.trailing, raw)
    ensures r.Err? ==> (r.error.UnknownColumn? || r.error.RepeatedColumn?) && FIXED <= r.error.i < FIXED + |raw|
    ensures r.Err? ==> var k := r.error.i - FIXED;
              && Acceptable(raw[..k], customFields) && !Acceptable(raw[..k + 1], customFields)
              && (r.error.UnknownColumn? <==> !IsKnownName(raw[k], customFields))
  {
    hide HeaderOk, Trim, Lower, CustomNames, Acceptable, Repeats;
    var trailing: seq<Column>, customCols: seq<string>, seen: set<nat> := [], [], {};
    NoColumns(raw, customFields);
    for i := 0 to |raw|
      invariant |trailing| == i && HeaderOk(Header(trailing, customCols))
      invariant ColumnsAre(trailing, raw, customFields) && customCols == CustomNames(trailing, raw)
      invariant Acceptable(raw[..i], customFields)
      invariant forall p :: p in seen <==> Optional(p) in trailing
    {
      var name := Trim(raw[i]);
      var found := FindName(OPTIONAL_HEADERS, Lower(name));
      AcceptableStep(raw, i, customFields);
      if found.Some? {
        SeenBefore(raw, i, trailing, customFields, found.value);
        if found.value in seen {
          NotAcceptable(raw, i + 1, customFields);
          return Err(RepeatedColumn(FIXED + i));
        }
        AddOptional(Header(trailing, customCols), found.value);
        ColumnsSnoc(trailing, Optional(found.value), raw, customFields);
        seen := seen + {found.value};
        trailing := trailing + [Optional(found.value)];
      } else if name in customFields {
        AddCustom(Header(trailing, customCols), name);
        ColumnsSnoc(trailing, Custom, raw, customFields);
        customCols := customCols + [name];
        trailing := trailing + [Custom];
      } else {
        NotAcceptable(raw, i + 1, customFields);
        return Err(UnknownColumn(FIXED + i));
      }
    }
    assert raw[..|raw|] == raw;
    return Ok(Header(trailing, customCols));
  }

  /** An earlier column has the same name, whatever its case. */
  ghost predicate Repeats(raw: seq<string>, i: nat)
    requires i < |raw|
  {
    exists j | 0 <= j < i :: Lower(Trim(raw[j])) == Lower(Trim(raw[i]))
  }

  lemma AcceptableStep(raw: seq<string>, i: nat, customFields: seq<string>)
    requires i < |raw| && Acceptable(raw[..i], customFields)
    ensures Acceptable(raw[..i + 1], customFields) <==>
            IsKnownName(raw[i], customFields) && !(IsOptionalName(raw[i]) && Repeats(raw, i))
  {
    hide Lower, Trim;
    var front, all := raw[..i], raw[..i + 1];
    assert all == front + [raw[i]];
    assert forall j | 0 <= j < i :: front[j] == raw[j] && all[j] == raw[j];
    if IsOptionalName(raw[i]) && Repeats(raw, i) {
      var j :| 0 <= j < i && Lower(Trim(raw[j])) == Lower(Trim(raw[i]));
      assert IsOptionalName(all[j]) && Lower(Trim(all[j])) == Lower(Trim(all[i]));
    }
  }

  lemma NotAcceptable(raw: seq<string>, k: nat, customFields: seq<string>)
    requires k <= |raw| && !Acceptable(raw[..k], customFields)
    ensures !Acceptable(raw, customFields)
  {
    hide IsKnownName, IsOptionalName, Lower, Trim;
  }

  lemma OptionalNamesDistinct(p: nat, q: nat)
    requires p < q < OPTIONALS
    ensures OPTIONAL_HEADERS[p] != OPTIONAL_HEADERS[q]
  {
  }

  lemma SeenBefore(raw: seq<string>, i: nat, trailing: seq<Column>, customFields: seq<string>, p: nat)
    requires i < |raw| && |trailing| == i && ColumnsAre(trailing, raw, customFields)
    requires p < OPTIONALS && OPTIONAL_HEADERS[p] == Lower(Trim(raw[i]))
    ensures Optional(p) in trailing <==> Repeats(raw, i)
  {
    hide Lower, Trim;
    if Repeats(raw, i) {
      var j :| 0 <= j < i && Lower(Trim(raw[j])) == Lower(Trim(raw[i]));
      assert ColumnIs(trailing[j], raw[j], customFields);
      var q := trailing[j].index;
      if p < q { OptionalNamesDistinct(p, q); }
      if q < p { OptionalNamesDistinct(q, p); }
    }
    if Optional(p) in trailing {
      var j :| 0 <= j < i && trailing[j] == Optional(p);
      assert ColumnIs(trailing[j], raw[j], customFields);
    }
  }

  lemma NoColumns(raw: seq<string>, customFields: seq<string>)
    ensures HeaderOk(Header([], [])) && CustomNames([], raw) == [] && Acceptable(raw[..0], customFields)
  {
  }

  function TrimAll(record: Record): seq<string> {
    seq(|record|, k requires 0 <= k < |record| => Trim(record[k]))
  }

  /** The header in lower case; a byte order mark before it is dropped. */
  function Normalized(raw: seq<string>): seq<string> {
    seq(|raw|, k requires 0 <= k < |raw| =>
      if k == 0 then TrimStartMatches(Lower(raw[0]), '\U{feff}') else Lower(raw[k]))
  }

  /** The first of the expected columns that the header does not have in its place. */
  method FirstMismatch(normalized: seq<string>, expected: seq<string>) returns (r: Option<nat>)
    ensures r.None? <==> |expected| <= |normalized| && normalized[..|expected|] == expected
    ensures r.Some? ==> r.value < |expected| && r.value <= |normalized| && normalized[..r.value] == expected[..r.value]
    ensures r.Some? && r.value < |normalized| ==> normalized[r.value] != expected[r.value]
  {
    for i := 0 to |expected|
      invariant i <= |normalized| && normalized[..i] == expected[..i]
    {
      if i >= |normalized| || normalized[i] != expected[i] {
        return Some(i);
      }
    }
    assert expected[..|expected|] == expected;
    return None;
  }

  /** The header a record spells: the fixed names in their places, then known columns. */
  ghost predicate HeaderFor(h: Header, record: Record, customFields: seq<string>) {
    && HeaderOk(h) && |record| == WidthOf(h)
    && Normalized(TrimAll(record))[..FIXED] == HEADERS
    && ColumnsAre(h.trailing, TrimAll(record)[FIXED..], customFields)
    && h.customCols == CustomNames(h.trailing, TrimAll(record)[FIXED..])
  }

  /** The fixed names in their places, and acceptable columns after them. */
  ghost predicate GoodHeader(record: Record, customFields: seq<string>) {
    HEADERS <= Normalized(TrimAll(record)) && Acceptable(TrimAll(record)[FIXED..], customFields)
  }

  method ParseHeader(record: Record, customFields: seq<string>) returns (r: Result<Header, FileError>)
    ensures r.Ok? <==> GoodHeader(record, customFields)
    ensures r.Ok? ==> HeaderFor(r.value, record, customFields)
    ensures r == Err(LegacyHeader) <==> Normalized(TrimAll(record)) == LEGACY_HEADERS
    ensures r.Err? && r.error.WrongColumn? ==>
              var names, i := Normalized(TrimAll(record)), r.error.i;
              i < FIXED && HEADERS[..i] <= names && (i == |names| || names[i] != HEADERS[i])
    ensures r.Err? && (r.error.RepeatedColumn? || r.error.UnknownColumn?) ==> HEADERS <= Normalized(TrimAll(record))
    ensures r.Err? ==>
              r.error.LegacyHeader? || r.error.WrongColumn? || r.error.RepeatedColumn? || r.error.UnknownColumn?
  {
    hide HeaderOk, Trim, Lower, TrimStartMatches, ColumnsAre, CustomNames, Acceptable;
    var raw := TrimAll(record);
    var normalized := Normalized(raw);
    if normalized == LEGACY_HEADERS {
      assert normalized[7] != HEADERS[7];
      return Err(LegacyHeader);
    }
    var wrong := FirstMismatch(normalized, HEADERS);
    if wrong.Some? {
      return Err(WrongColumn(wrong.value));
    }
    r := ParseTrailing(raw[FIXED..], customFields);
  }

  /** A record spells at most one header. */
  lemma HeaderUnique(a: Header, b: Header, record: Record, customFields: seq<string>)
    requires HeaderFor(a, record, customFields) && HeaderFor(b, record, customFields)
    ensures a == b
  {
    hide HeaderOk, Trim, Lower, CustomNames, Normalized;
    var raw := TrimAll(record)[FIXED..];
    forall j | 0 <= j < |a.trailing| ensures a.trailing[j] == b.trailing[j] {
      var x, y := a.trailing[j], b.trailing[j];
      assert ColumnIs(x, raw[j], customFields) && ColumnIs(y, raw[j], customFields);
      if x.Optional? && y.Optional? {
        if x.index < y.index { OptionalNamesDistinct(x.index, y.index); }
        if y.index < x.index { OptionalNamesDistinct(y.index, x.index); }
      }
    }
  }

  // ---------------------------------------------------------------- cells

  datatype Setting = TextSetting(text: string) | FlagSetting(flag: bool) | DepthSetting(depth: nat)

  datatype Problem = BadPort | NameRequired | BadProtocol | HostnameRequired | BadFlag(index: nat) | BadDepth
                   | TooManyColumns

  function ParsePort(cell: string): Result<Option<nat>, Problem> {
    var t := Trim(cell);
    if t == [] then Ok(None) else
    match ParseUnsigned(t, 0x1_0000) case None => Err(BadPort) case Some(p) => Ok(Some(p))
  }

  predicate IsFlagColumn(index: nat) {
    index == 2 || 5 <= index <= 8 || index == 11
  }

  /** An optional cell: blank is nothing; flags are true or false, the color depth a small number. */
  function ParseOptional(index: nat, cell: string): Result<Option<Setting>, Problem> {
    var t := Trim(cell);
    if t == [] then Ok(None)
    else if IsFlagColumn(index) then
      if Lower(t) == "true" then Ok(Some(FlagSetting(true)))
      else if Lower(t) == "false" then Ok(Some(FlagSetting(false)))
      else Err(BadFlag(index))
    else if index == 3 then
      match ParseUnsigned(t, 256) case None => Err(BadDepth) case Some(d) => Ok(Some(DepthSetting(d)))
    else Ok(Some(TextSetting(t)))
  }

  function ValidateRow(name: string, protocol: string, hostname: string): Option<Problem> {
    var p := Lower(Trim(protocol));
    if Trim(name) == [] then Some(NameRequired)
    else if p !in VALID_PROTOCOLS then Some(BadProtocol)
    else if Trim(hostname) == [] && p !in HOSTNAME_OPTIONAL then Some(HostnameRequired)
    else None
  }

  function NormalizeFolder(path: string): string {
    TrimMatches(Trim(path), '/')
  }

  function SplitOn(s: string, c: char): seq<string>
    decreases |s|
  {
    var k := IndexOf(s, c);
    if k == |s| then [s] else [s[..k]] + SplitOn(s[k + 1..], c)
  }

  /** The trimmed names of a group list, without the empty ones, each once and in first-seen order. */
  function GroupsOf(pieces: seq<string>): (groups: seq<string>)
    ensures forall g :: g in groups <==> g != [] && exists k | 0 <= k < |pieces| :: Trim(pieces[k]) == g
    ensures forall i, j | 0 <= i < j < |groups| :: groups[i] != groups[j]
  {
    if pieces == [] then [] else
      var n := |pieces| - 1;
      var before, g := GroupsOf(pieces[..n]), Trim(pieces[n]);
      var r := if g == [] || g in before then before else before + [g];
      assert forall x :: x in r <==> x != [] && exists k | 0 <= k < |pieces| :: Trim(pieces[k]) == x by {
        assert forall k | 0 <= k < n :: pieces[..n][k] == pieces[k];
      }
      r
  }

  lemma GroupsStep(pieces: seq<string>, i: nat)
    requires i < |pieces|
    ensures var before, g := GroupsOf(pieces[..i]), Trim(pieces[i]);
            GroupsOf(pieces[..i + 1]) == if g == [] || g in before then before else before + [g]
  {
    hide Trim;
    assert pieces[..i + 1][..i] == pieces[..i];
  }

  method ParseGroups(input: string) returns (groups: seq<string>)
    ensures groups == GroupsOf(SplitOn(input, ','))
  {
    hide Trim, SplitOn;
    var pieces := SplitOn(input, ',');
    groups := [];
    var seen: set<string> := {};
    for i := 0 to |pieces|
      invariant groups == GroupsOf(pieces[..i])
      invariant forall g :: g in seen <==> g in groups
    {
      var g := Trim(pieces[i]);
      GroupsStep(pieces, i);
      if g == [] || g in seen {
        continue;
      }
      seen := seen + {g};
      groups := groups + [g];
    }
    assert pieces[..|pieces|] == pieces;
  }

  // ---------------------------------------------------------------- one record

  type Settings = s: seq<Option<Setting>> | |s| == OPTIONALS witness NO_SETTINGS

  const NO_SETTINGS: seq<Option<Setting>> :=
    [None, None, None, None, None, None, None, None, None, None, None, None, None]

  datatype Row = Row(
    name: string,
    protocol: string,
    hostname: string,
    port: Option<nat>,
    username: string,
    password: string,
    folder: string,
    allowedGroups: seq<string>,
    description: string,
    settings: Settings,
    customFields: seq<(string, string)>)

  function Key(r: Row): (string, string) {
    (r.folder, r.name)
  }

  predicate IsBlank(record: Record) {
    forall k | 0 <= k < |record| :: record[k] == []
  }

  /** The record filled up with empty cells. */
  function Padded(record: Record, width: nat): seq<string>
    requires |record| <= width
  {
    record + seq(width - |record|, _ => "")
  }

  function WidthOf(h: Header): nat {
    FIXED + |h.trailing|
  }

  /** The settings, custom values and problems of the trailing cells. */
  datatype Trailing = Trailing(settings: Settings, custom: seq<(string, string)>, problems: seq<Problem>)

  function AddCell(t: Trailing, h: Header, j: nat, cell: string): Trailing
    requires HeaderOk(h) && j < |h.trailing| && |t.custom| == CountCustom(h.trailing[..j])
  {
    match h.trailing[j]
    case Custom =>
      CustomIndex(h, j);
      t.(custom := t.custom + [(h.customCols[|t.custom|], Trim(cell))])
    case Optional(p) =>
      match ParseOptional(p, cell)
      case Ok(v) => t.(settings := t.settings[p := v])
      case Err(e) => t.(problems := t.problems + [e])
  }

  /** The index of the next custom column never runs past the custom names. */
  lemma {:induction false} CustomIndex(h: Header, j: nat)
    requires HeaderOk(h) && j < |h.trailing| && h.trailing[j].Custom?
    ensures CountCustom(h.trailing[..j]) < |h.customCols|
  {
    CountMonotone(h.trailing, j + 1);
    assert h.trailing[..j + 1][..j] == h.trailing[..j];
  }

  lemma {:induction false} CountMonotone(columns: seq<Column>, j: nat)
    requires j <= |columns|
    ensures CountCustom(columns[..j]) <= CountCustom(columns)
    decreases |columns|
  {
    if j < |columns| {
      var n := |columns| - 1;
      CountMonotone(columns[..n], j);
      assert columns[..n][..j] == columns[..j];
    } else {
      assert columns[..j] == columns;
    }
  }

  function TrailingOf(h: Header, cells: seq<string>, j: nat): (t: Trailing)
    requires HeaderOk(h) && j <= |h.trailing| && |cells| == WidthOf(h)
    ensures |t.custom| == CountCustom(h.trailing[..j])
  {
    if j == 0 then Trailing(NO_SETTINGS, [], []) else
      assert h.trailing[..j][..j - 1] == h.trailing[..j - 1];
      AddCell(TrailingOf(h, cells, j - 1), h, j - 1, cells[FIXED + j - 1])
  }

  /** What a record becomes before repeated keys are looked at. */
  datatype Parsed = BlankRecord | BadRecord(problems: seq<Problem>) | GoodRecord(row: Row)

  function CoreProblems(cells: seq<string>): seq<Problem>
    requires |cells| >= FIXED
  {
    (match ParsePort(cells[3]) case Err(e) => [e] case Ok(_) => []) +
    (match ValidateRow(Trim(cells[0]), Lower(Trim(cells[1])), Trim(cells[2])) case Some(e) => [e] case None => [])
  }

  function ParseRecord(record: Record, h: Header): Parsed
    requires HeaderOk(h)
  {
    if IsBlank(record) then BlankRecord
    else if |record| > WidthOf(h) then BadRecord([TooManyColumns])
    else
      var cells := Padded(record, WidthOf(h));
      var t := TrailingOf(h, cells, |h.trailing|);
      var problems := CoreProblems(cells) + t.problems;
      if problems != [] then BadRecord(problems) else
        GoodRecord(Row(Trim(cells[0]), Lower(Trim(cells[1])), Trim(cells[2]), ParsePort(cells[3]).value,
                       Trim(cells[4]), cells[5], NormalizeFolder(cells[6]), GroupsOf(SplitOn(cells[7], ',')),
                       Trim(cells[8]), t.settings, t.custom))
  }

  method ReadRecord(record: Record, h: Header) returns (r: Parsed)
    requires HeaderOk(h)
    ensures r == ParseRecord(record, h)
  {
    hide CoreProblems, AddCell, CountCustom, GroupsOf, Trim, Lower, ParsePort;
    if IsBlank(record) {
      return BlankRecord;
    }
    if |record| > WidthOf(h) {
      return BadRecord([TooManyColumns]);
    }
    var cells := Padded(record, WidthOf(h));
    var port := ParsePort(cells[3]);
    var name, protocol, hostname := Trim(cells[0]), Lower(Trim(cells[1])), Trim(cells[2]);
    var groups := ParseGroups(cells[7]);
    var problems: seq<Problem> := [];
    if port.Err? {
      problems := problems + [port.error];
    }
    var invalid := ValidateRow(name, protocol, hostname);
    if invalid.Some? {
      problems := problems + [invalid.value];
    }
    assert problems == CoreProblems(cells) by { CoreIs(cells); }
    var t := ReadTrailing(h, cells);
    problems := problems + t.problems;
    if problems != [] {
      return BadRecord(problems);
    }
    return GoodRecord(Row(name, protocol, hostname, port.value, Trim(cells[4]), cells[5], NormalizeFolder(cells[6]),
                          groups, Trim(cells[8]), t.settings, t.custom));
  }

  lemma CoreIs(cells: seq<string>)
    requires |cells| >= FIXED
    ensures CoreProblems(cells) ==
            (match ParsePort(cells[3]) case Err(e) => [e] case Ok(_) => []) +
            (match ValidateRow(Trim(cells[0]), Lower(Trim(cells[1])), Trim(cells[2]))
             case Some(e) => [e] case None => [])
    ensures CoreProblems(cells) == [] ==> ParsePort(cells[3]).Ok?
  {
  }

  method ReadTrailing(h: Header, cells: seq<string>) returns (t: Trailing)
    requires HeaderOk(h) && |cells| == WidthOf(h)
    ensures t == TrailingOf(h, cells, |h.trailing|)
  {
    hide ParseOptional, Trim;
    var settings: Settings := NO_SETTINGS;
    var custom: seq<(string, string)>, problems: seq<Problem> := [], [];
    var customIdx := 0;
    for j := 0 to |h.trailing|
      invariant customIdx == |custom|
      invariant Trailing(settings, custom, problems) == TrailingOf(h, cells, j)
    {
      var cell := cells[FIXED + j];
      match h.trailing[j] {
        case Custom =>
          CustomIndex(h, j);
          custom := custom + [(h.customCols[customIdx], Trim(cell))];
          customIdx := customIdx + 1;
        case Optional(p) =>
          var v := ParseOptional(p, cell);
          match v {
            case Ok(x) => settings := settings[p := x];
            case Err(e) => problems := problems + [e];
          }
      }
    }
    t := Trailing(settings, custom, problems);
  }

  // ---------------------------------------------------------------- all records

  datatype Outcome = Blank | Failed(problems: seq<Problem>) | Repeated(key: (string, string)) | Accepted(row: Row)

  ghost function KeysOf(outcomes: seq<Outcome>): set<(string, string)> {
    set k | 0 <= k < |outcomes| && outcomes[k].Accepted? :: Key(outcomes[k].row)
  }

  ghost function OutcomeOf(record: Record, h: Header, before: seq<Outcome>): Outcome
    requires HeaderOk(h)
  {
    match ParseRecord(record, h)
    case BlankRecord => Blank
    case BadRecord(problems) => Failed(problems)
    case GoodRecord(row) => if Key(row) in KeysOf(before) then Repeated(Key(row)) else Accepted(row)
  }

  /** One outcome per record, in file order. */
  ghost function Outcomes(records: seq<Record>, h: Header): (r: seq<Outcome>)
    requires HeaderOk(h)
    ensures |r| == |records|
  {
    if records == [] then [] else
      var n := |records| - 1;
      var before := Outcomes(records[..n], h);
      before + [OutcomeOf(records[n], h, before)]
  }

  /** What the importer returns: rows, the 1-based numbers of repeated records, and the failures. */
  datatype Report = Report(rows: seq<Row>, skipped: seq<nat>, errors: seq<(nat, seq<Problem>)>)

  ghost function ReportOf(outcomes: seq<Outcome>): Report {
    if outcomes == [] then Report([], [], []) else
      var n := |outcomes| - 1;
      AddOutcome(ReportOf(outcomes[..n]), outcomes[n], n + 1)
  }

  method ReadRecords(records: seq<Record>, h: Header) returns (report: Report)
    requires HeaderOk(h)
    ensures report == ReportOf(Outcomes(records, h))
  {
    hide ParseRecord, HeaderOk, Outcomes, ReportOf, KeysOf;
    var rows: seq<Row>, skipped: seq<nat>, errors: seq<(nat, seq<Problem>)> := [], [], [];
    var seen: set<(string, string)> := {};
    NoRecords(h);
    for i := 0 to |records|
      invariant Report(rows, skipped, errors) == ReportOf(Outcomes(records[..i], h))
      invariant seen == KeysOf(Outcomes(records[..i], h))
    {
      RecordStep(records, i, h);
      var parsed := ReadRecord(records[i], h);
      match parsed {
        case BlankRecord =>
        case BadRecord(problems) => errors := errors + [(i + 1, problems)];
        case GoodRecord(row) =>
          if Key(row) in seen {
            skipped := skipped + [i + 1];
          } else {
            seen := seen + {Key(row)};
            rows := rows + [row];
          }
      }
    }
    assert records[..|records|] == records;
    report := Report(rows, skipped, errors);
  }

  lemma NoRecords(h: Header)
    requires HeaderOk(h)
    ensures ReportOf(Outcomes([], h)) == Report([], [], []) && KeysOf(Outcomes([], h)) == {}
  {
    hide HeaderOk;
  }

  function AddOutcome(r: Report, o: Outcome, number: nat): Report {
    match o
    case Blank => r
    case Failed(problems) => r.(errors := r.errors + [(number, problems)])
    case Repeated(_) => r.(skipped := r.skipped + [number])
    case Accepted(row) => r.(rows := r.rows + [row])
  }

  lemma RecordStep(records: seq<Record>, i: nat, h: Header)
    requires HeaderOk(h) && i < |records|
    ensures var before, after := Outcomes(records[..i], h), Outcomes(records[..i + 1], h);
            var o := OutcomeOf(records[i], h, before);
            && ReportOf(after) == AddOutcome(ReportOf(before), o, i + 1)
            && KeysOf(after) == KeysOf(before) + if o.Accepted? then {Key(o.row)} else {}
  {
    hide HeaderOk, OutcomeOf, KeysOf;
    assert records[..i + 1][..i] == records[..i];
    var before, after := Outcomes(records[..i], h), Outcomes(records[..i + 1], h);
    var o := OutcomeOf(records[i], h, before);
    assert after == before + [o];
    assert after[..i] == before;
    KeysSnoc(before, o);
  }

  lemma KeysSnoc(before: seq<Outcome>, o: Outcome)
    ensures KeysOf(before + [o]) == KeysOf(before) + if o.Accepted? then {Key(o.row)} else {}
  {
    var all := before + [o];
    forall k | 0 <= k < |before| && before[k].Accepted? ensures Key(before[k].row) in KeysOf(all) {
      assert all[k] == before[k];
    }
    if o.Accepted? {
      assert all[|before|] == o;
    }
  }

  /** The whole import: tokenize, check the header, then sort the data records. */
  method ParseRows(input: string, customFields: seq<string>) returns (r: Result<Report, FileError>)
    ensures Tokens(input, SCAN_START).Err? ==> r == Err(OpenQuote(Tokens(input, SCAN_START).error))
    ensures Tokens(input, SCAN_START) == Ok([]) ==> r == Err(EmptyFile)
    ensures r.Ok? <==> && Tokens(input, SCAN_START).Ok? && Tokens(input, SCAN_START).value != []
                       && GoodHeader(Tokens(input, SCAN_START).value[0], customFields)
    ensures r.Ok? ==> exists h | HeaderFor(h, Tokens(input, SCAN_START).value[0], customFields) ::
                        r.value == ReportOf(Outcomes(Tokens(input, SCAN_START).value[1..], h))
  {
    hide GoodHeader, HeaderOk, Tokens, ReportOf, Outcomes;
    var tokens := Tokenize(input);
    if tokens.Err? {
      return Err(OpenQuote(tokens.error));
    }
    var records := tokens.value;
    if records == [] {
      return Err(EmptyFile);
    }
    var header := ParseHeader(records[0], customFields);
    if header.Err? {
      return Err(header.error);
    }
    var report := ReadRecords(records[1..], header.value);
    return Ok(report);
  }

  // ---------------------------------------------------------------- accounting

  lemma OutcomesPrefix(records: seq<Record>, h: Header, k: nat)
    requires HeaderOk(h) && k < |records|
    ensures Outcomes(records, h)[..k] == Outcomes(records[..k], h)
    ensures Outcomes(records, h)[k] == OutcomeOf(records[k], h, Outcomes(records[..k], h))
    decreases |records|
  {
    hide OutcomeOf, HeaderOk;
    var n := |records| - 1;
    if k < n {
      OutcomesPrefix(records[..n], h, k);
      assert records[..n][..k] == records[..k];
    }
  }

  /** An accepted row passes validation again, and its port is a 16-bit number if it has one. */
  lemma AcceptedIsValid(record: Record, h: Header)
    requires HeaderOk(h) && ParseRecord(record, h).GoodRecord?
    ensures var row := ParseRecord(record, h).row;
            && ValidateRow(row.name, row.protocol, row.hostname) == None
            && row.name != [] && Lower(Trim(row.protocol)) in VALID_PROTOCOLS
            && (row.hostname != [] || Lower(Trim(row.protocol)) in ["web", "vdi", "proxmox"])
            && (row.port.Some? ==> row.port.value < 0x1_0000)
  {
    assert Trim([]) == [];
    hide TrailingOf, Trim, Lower;
    var cells := Padded(record, WidthOf(h));
    CoreIs(cells);
  }

  /**
   Row accounting. Every data record has exactly one outcome: blank exactly when all its fields
   are empty; accepted rows validate and no two share folder and name; and a repeated record has
   an earlier accepted row with its key.
   */
  lemma Accounting(records: seq<Record>, h: Header, k: nat)
    requires HeaderOk(h) && k < |records|
    ensures var o := Outcomes(records, h);
            && (o[k].Blank? <==> IsBlank(records[k]))
            && (o[k].Accepted? ==> ValidateRow(o[k].row.name, o[k].row.protocol, o[k].row.hostname) == None)
            && (o[k].Accepted? ==> forall j | 0 <= j < k && o[j].Accepted? :: Key(o[j].row) != Key(o[k].row))
            && (o[k].Repeated? ==> exists j | 0 <= j < k :: o[j].Accepted? && Key(o[j].row) == o[k].key)
            && (o[k].Failed? ==> o[k].problems != [])
  {
    hide HeaderOk, Outcomes, ValidateRow;
    var o := Outcomes(records, h);
    OutcomesPrefix(records, h, k);
    var before := Outcomes(records[..k], h);
    assert forall j | 0 <= j < k :: o[j] == before[j];
    assert ParseRecord(records[k], h).BlankRecord? <==> IsBlank(records[k]);
    if o[k].Accepted? {
      AcceptedIsValid(records[k], h);
    }
  }

  ghost function CountBlank(outcomes: seq<Outcome>): nat {
    if outcomes == [] then 0 else
      CountBlank(outcomes[..|outcomes| - 1]) + if outcomes[|outcomes| - 1].Blank? then 1 else 0
  }

  ghost predicate Increasing(s: seq<nat>) {
    forall i, j | 0 <= i < j < |s| :: s[i] < s[j]
  }

  /** The places of the accepted records. */
  ghost function AcceptedAt(outcomes: seq<Outcome>): seq<nat> {
    if outcomes == [] then [] else
      var n := |outcomes| - 1;
      AcceptedAt(outcomes[..n]) + if outcomes[n].Accepted? then [n] else []
  }

  /** Rows, skipped records, errors and blanks add up to the records. */
  lemma {:induction false} ReportCounts(outcomes: seq<Outcome>)
    ensures var r := ReportOf(outcomes);
            && |r.rows| + |r.skipped| + |r.errors| + CountBlank(outcomes) == |outcomes|
            && |AcceptedAt(outcomes)| == |r.rows|
    decreases |outcomes|
  {
    if outcomes != [] {
      ReportCounts(outcomes[..|outcomes| - 1]);
    }
  }

  ghost predicate RowsPlaced(rows: seq<Row>, at: seq<nat>, outcomes: seq<Outcome>) {
    && |rows| == |at| && Increasing(at)
    && forall k | 0 <= k < |rows| :: at[k] < |outcomes| && outcomes[at[k]] == Accepted(rows[k])
  }

  ghost predicate SkippedPlaced(skipped: seq<nat>, outcomes: seq<Outcome>) {
    && Increasing(skipped)
    && forall k | 0 <= k < |skipped| :: 0 < skipped[k] <= |outcomes| && outcomes[skipped[k] - 1].Repeated?
  }

  ghost predicate ErrorsPlaced(errors: seq<(nat, seq<Problem>)>, outcomes: seq<Outcome>) {
    && (forall i, j | 0 <= i < j < |errors| :: errors[i].0 < errors[j].0)
    && forall k | 0 <= k < |errors| ::
         0 < errors[k].0 <= |outcomes| && outcomes[errors[k].0 - 1] == Failed(errors[k].1)
  }

  lemma RowsSnoc(rows: seq<Row>, at: seq<nat>, front: seq<Outcome>, o: Outcome)
    requires RowsPlaced(rows, at, front)
    ensures RowsPlaced(rows, at, front + [o])
    ensures o.Accepted? ==> RowsPlaced(rows + [o.row], at + [|front|], front + [o])
  {
  }

  lemma SkippedSnoc(skipped: seq<nat>, front: seq<Outcome>, o: Outcome)
    requires SkippedPlaced(skipped, front)
    ensures SkippedPlaced(skipped, front + [o])
    ensures o.Repeated? ==> SkippedPlaced(skipped + [|front| + 1], front + [o])
  {
  }

  lemma ErrorsSnoc(errors: seq<(nat, seq<Problem>)>, front: seq<Outcome>, o: Outcome)
    requires ErrorsPlaced(errors, front)
    ensures ErrorsPlaced(errors, front + [o])
    ensures o.Failed? ==> ErrorsPlaced(errors + [(|front| + 1, o.problems)], front + [o])
  {
  }

  /**
   The report's rows are the accepted records in file order, and its skipped numbers and error
   numbers are those of repeated and of failed records, each rising.
   */
  lemma {:induction false} ReportPlaces(outcomes: seq<Outcome>)
    ensures var r := ReportOf(outcomes);
            RowsPlaced(r.rows, AcceptedAt(outcomes), outcomes) && SkippedPlaced(r.skipped, outcomes)
            && ErrorsPlaced(r.errors, outcomes)
    decreases |outcomes|
  {
    hide RowsPlaced, SkippedPlaced, ErrorsPlaced;
    if outcomes == [] {
      NothingPlaced();
    } else {
      var n := |outcomes| - 1;
      var front, o := outcomes[..n], outcomes[n];
      ReportPlaces(front);
      var r := ReportOf(front);
      assert outcomes == front + [o];
      assert AcceptedAt(outcomes) == if o.Accepted? then AcceptedAt(front) + [n] else AcceptedAt(front);
      RowsSnoc(r.rows, AcceptedAt(front), front, o);
      SkippedSnoc(r.skipped, front, o);
      ErrorsSnoc(r.errors, front, o);
    }
  }

  lemma NothingPlaced()
    ensures RowsPlaced([], [], []) && SkippedPlaced([], []) && ErrorsPlaced([], [])
  {
  }

  // ---------------------------------------------------------------- settings

  /**
   Without problems, the setting of column `p` is what its cell parses to when the header has the
   column, and nothing when it does not.
   */
  lemma {:induction false} SettingsExact(h: Header, cells: seq<string>, j: nat, p: nat)
    requires HeaderOk(h) && j <= |h.trailing| && |cells| == WidthOf(h) && p < OPTIONALS
    requires TrailingOf(h, cells, j).problems == []
    ensures forall i | 0 <= i < j && h.trailing[i] == Optional(p) ::
              ParseOptional(p, cells[FIXED + i]) == Ok(TrailingOf(h, cells, j).settings[p])
    ensures (forall i | 0 <= i < j :: h.trailing[i] != Optional(p)) ==> TrailingOf(h, cells, j).settings[p] == None
    decreases j
  {
    hide ParseOptional, Trim;
    if j > 0 {
      var before := TrailingOf(h, cells, j - 1);
      assert before.problems == [];
      SettingsExact(h, cells, j - 1, p);
    }
  }
}
