/** Writing the storage encryption key into the `[storage]` section of a TOML file, line by line. */
module StorageKey {
  import opened Prelude
  import opened Text

  // ---------------------------------------------------------------- lines

  /** A line that ends in CR LF goes without its CR. */
  function StripCr(line: string): string {
    if line != [] && line[|line| - 1] == '\r' then line[..|line| - 1] else line
  }

  /** `str::lines`: a final newline does not open another line. */
  function Lines(text: string): seq<string>
    decreases |text|
  {
    if text == [] then [] else
      var k := IndexOf(text, '\n');
      if k == |text| then [text] else [StripCr(text[..k])] + Lines(text[k + 1..])
  }

  /** The lines joined with newlines, and one at the end. */
  function Unlines(lines: seq<string>): string {
    if lines == [] then "\n"
    else if |lines| == 1 then lines[0] + "\n"
    else lines[0] + "\n" + Unlines(lines[1..])
  }

  // ---------------------------------------------------------------- kinds of lines

  predicate StartsWith(s: string, prefix: string) {
    prefix <= s
  }

  predicate IsKeyLine(line: string) {
    var t := TrimStart(line);
    && StartsWith(t, "encryption_key")
    && |t| > 14 && (t[14] == '=' || IsWhitespace(t[14]))
  }

  predicate IsStorageHeader(line: string) {
    var t := Trim(line);
    || t == "[storage]"
    || StartsWith(t, "[storage] ") || StartsWith(t, "[storage]\t") || StartsWith(t, "[storage]#")
  }

  predicate IsTableHeader(line: string) {
    var t := Trim(line);
    t != [] && t[0] == '[' && t[|t| - 1] == ']'
  }

  function HeaderLine(): string {
    "[storage]"
  }

  function BlankLine(): string {
    ""
  }

  function Entry(key: string): string {
    "encryption_key = \"" + key + "\""
  }

  lemma EntryKind(key: string)
    ensures IsKeyLine(Entry(key)) && !IsStorageHeader(Entry(key)) && !IsTableHeader(Entry(key))
  {
    var e := Entry(key);
    assert e[0] == 'e' && e[|e| - 1] == '"' && e[14] == ' ';
    assert TrimStart(e) == e;
    assert e[..14] == "encryption_key";
  }

  // ---------------------------------------------------------------- the edit as a function

  function FirstHeader(lines: seq<string>): (k: nat)
    ensures k <= |lines| && (k < |lines| ==> IsStorageHeader(lines[k]))
    ensures forall j | 0 <= j < k :: !IsStorageHeader(lines[j])
  {
    if lines == [] || IsStorageHeader(lines[0]) then 0 else FirstHeader(lines[1..]) + 1
  }

  /** How many lines come before the next table. */
  function SectionLength(lines: seq<string>): (k: nat)
    ensures k <= |lines| && (k < |lines| ==> IsTableHeader(lines[k]))
    ensures forall j | 0 <= j < k :: !IsTableHeader(lines[j])
  {
    if lines == [] || IsTableHeader(lines[0]) then 0 else SectionLength(lines[1..]) + 1
  }

  function DropKeys(lines: seq<string>): seq<string> {
    if lines == [] then [] else (if IsKeyLine(lines[0]) then [] else [lines[0]]) + DropKeys(lines[1..])
  }

  function ReplaceKey(lines: seq<string>, entry: string): seq<string> {
    if lines == [] then []
    else if IsKeyLine(lines[0]) then [entry] + DropKeys(lines[1..])
    else [lines[0]] + ReplaceKey(lines[1..], entry)
  }

  predicate HasKey(lines: seq<string>) {
    exists k | 0 <= k < |lines| :: IsKeyLine(lines[k])
  }

  /** The section's body with its key: the first key line is replaced, later ones go. */
  function NewBody(body: seq<string>, entry: string): seq<string> {
    if HasKey(body) then ReplaceKey(body, entry) else [entry] + body
  }

  /** A file without the section, up to the header that is appended after a blank line. */
  function Appended(lines: seq<string>): seq<string> {
    (if lines == [] then [] else lines + [BlankLine()]) + [HeaderLine()]
  }

  function Edit(lines: seq<string>, entry: string): seq<string> {
    var h := FirstHeader(lines);
    if h == |lines| then Appended(lines) + [entry]
    else
      var rest := lines[h + 1..];
      var n := SectionLength(rest);
      lines[..h + 1] + (NewBody(rest[..n], entry) + rest[n..])
  }

  function Persist(text: string, key: string): string {
    Unlines(Edit(Lines(text), Entry(key)))
  }

  // ---------------------------------------------------------------- the edit in place

  ghost predicate NoKeys(lines: seq<string>, a: nat, b: nat)
    requires b <= |lines|
  {
    forall j | a <= j < b :: !IsKeyLine(lines[j])
  }

  /** The indices of the key lines from `a` to `b`, in order. */
  function KeysFrom(lines: seq<string>, a: nat, b: nat): seq<nat>
    requires b <= |lines|
    decreases b
  {
    if b <= a then [] else KeysFrom(lines, a, b - 1) + if IsKeyLine(lines[b - 1]) then [b - 1] else []
  }

  lemma {:induction false} KeysFromEmpty(lines: seq<string>, a: nat, b: nat)
    requires b <= |lines| && KeysFrom(lines, a, b) == []
    ensures NoKeys(lines, a, b)
    decreases b
  {
    hide IsKeyLine;
    if a < b {
      KeysFromEmpty(lines, a, b - 1);
    }
  }

  lemma {:induction false} KeysFromLast(lines: seq<string>, a: nat, b: nat)
    requires b <= |lines| && KeysFrom(lines, a, b) != []
    ensures var ks := KeysFrom(lines, a, b);
            var off := ks[|ks| - 1];
            && a <= off < b && IsKeyLine(lines[off]) && NoKeys(lines, off + 1, b)
            && ks[..|ks| - 1] == KeysFrom(lines, a, off)
    decreases b
  {
    hide IsKeyLine;
    if !IsKeyLine(lines[b - 1]) {
      KeysFromLast(lines, a, b - 1);
    }
  }

  lemma HasKeyRange(lines: seq<string>, a: nat, b: nat)
    requires a <= b <= |lines|
    ensures HasKey(lines[a..b]) <==> !NoKeys(lines, a, b)
  {
    hide IsKeyLine;
    var s := lines[a..b];
    if HasKey(s) {
      var k :| 0 <= k < |s| && IsKeyLine(s[k]);
      assert s[k] == lines[a + k];
    }
    if !NoKeys(lines, a, b) {
      var j :| a <= j < b && IsKeyLine(lines[j]);
      assert s[j - a] == lines[j];
    }
  }

  /** The part of a section from its first key line on. */
  lemma {:induction false} ReplaceAt(lines: seq<string>, from: nat, end: nat, f: nat, entry: string)
    requires from <= f < end <= |lines| && IsKeyLine(lines[f]) && NoKeys(lines, from, f)
    ensures ReplaceKey(lines[from..end], entry) == lines[from..f] + ([entry] + DropKeys(lines[f + 1..end]))
    decreases f - from
  {
    hide IsKeyLine, DropKeys;
    var s := lines[from..end];
    assert s[1..] == lines[from + 1..end];
    if f == from {
      assert lines[from..f] == [];
    } else {
      ReplaceAt(lines, from + 1, end, f, entry);
      assert lines[from..f] == [lines[from]] + lines[from + 1..f];
    }
  }

  lemma {:induction false} DropKeysFrom(lines: seq<string>, a: nat, b: nat, end: nat)
    requires a <= b <= end <= |lines| && NoKeys(lines, a, b)
    ensures DropKeys(lines[a..end]) == lines[a..b] + DropKeys(lines[b..end])
    decreases b - a
  {
    hide IsKeyLine;
    if a == b {
      assert lines[a..b] == [];
    } else {
      assert lines[a..end][1..] == lines[a + 1..end];
      DropKeysFrom(lines, a + 1, b, end);
      assert lines[a..b] == [lines[a]] + lines[a + 1..b];
    }
  }

  lemma DropKeysAt(lines: seq<string>, a: nat, end: nat)
    requires a < end <= |lines| && IsKeyLine(lines[a])
    ensures DropKeys(lines[a..end]) == DropKeys(lines[a + 1..end])
  {
    hide IsKeyLine;
    assert lines[a..end][1..] == lines[a + 1..end];
  }

  /** The lines when the key lines from `done` to `end` are gone. */
  function Cleared(lines: seq<string>, done: nat, end: nat): seq<string>
    requires done <= end <= |lines|
  {
    lines[..done] + (DropKeys(lines[done..end]) + lines[end..])
  }

  lemma ClearedNone(lines: seq<string>, end: nat)
    requires end <= |lines|
    ensures Cleared(lines, end, end) == lines
  {
    assert lines[end..end] == [];
    assert DropKeys([]) == [];
    assert [] + lines[end..] == lines[end..];
    assert lines[..end] + lines[end..] == lines;
  }

  lemma ClearedLess(lines: seq<string>, a: nat, done: nat, end: nat)
    requires a <= done <= end <= |lines| && NoKeys(lines, a, done)
    ensures Cleared(lines, a, end) == Cleared(lines, done, end)
  {
    hide IsKeyLine, DropKeys;
    DropKeysFrom(lines, a, done, end);
    var kept, tail := DropKeys(lines[done..end]), lines[end..];
    assert lines[..done] == lines[..a] + lines[a..done];
    Assoc(lines[a..done], kept, tail);
    Assoc(lines[..a], lines[a..done], kept + tail);
  }

  lemma ClearedOne(lines: seq<string>, off: nat, end: nat)
    requires off < end <= |lines| && IsKeyLine(lines[off])
    ensures |Cleared(lines, off + 1, end)| > off
    ensures var out := Cleared(lines, off + 1, end); out[..off] + out[off + 1..] == Cleared(lines, off, end)
  {
    hide IsKeyLine, DropKeys;
    DropKeysAt(lines, off, end);
    var rest := DropKeys(lines[off + 1..end]) + lines[end..];
    assert Cleared(lines, off + 1, end) == lines[..off + 1] + rest;
    assert (lines[..off + 1] + rest)[..off] == lines[..off];
    assert (lines[..off + 1] + rest)[off + 1..] == rest;
  }

  /** The duplicates are removed from the last one on, so that the other indices stay valid. */
  method RemoveDuplicates(lines: seq<string>, from: nat, end: nat, duplicates: seq<nat>) returns (out: seq<string>)
    requires from <= end <= |lines| && duplicates == KeysFrom(lines, from, end)
    ensures out == Cleared(lines, from, end)
  {
    hide IsKeyLine, DropKeys, KeysFrom, NoKeys, Cleared;
    out := lines;
    var i := |duplicates|;
    ghost var done := end;
    ClearedNone(lines, end);
    while i > 0
      invariant 0 <= i <= |duplicates| && from <= done <= end
      invariant duplicates[..i] == KeysFrom(lines, from, done)
      invariant out == Cleared(lines, done, end)
    {
      ghost var ks := duplicates[..i];
      KeysFromLast(lines, from, done);
      i := i - 1;
      var off := duplicates[i];
      assert ks[|ks| - 1] == off && ks[..|ks| - 1] == duplicates[..i];
      ClearedLess(lines, off + 1, done, end);
      ClearedOne(lines, off, end);
      out := out[..off] + out[off + 1..];
      done := off;
    }
    assert duplicates[..0] == [];
    KeysFromEmpty(lines, from, done);
    ClearedLess(lines, from, done, end);
  }

  lemma ReplacedAfterClearing(lines: seq<string>, from: nat, end: nat, f: nat, entry: string)
    requires from <= f < end <= |lines| && IsKeyLine(lines[f]) && NoKeys(lines, from, f)
    ensures f < |Cleared(lines, f + 1, end)|
    ensures Cleared(lines, f + 1, end)[f := entry] ==
            lines[..from] + (ReplaceKey(lines[from..end], entry) + lines[end..])
  {
    hide IsKeyLine, DropKeys, ReplaceKey;
    ReplaceAt(lines, from, end, f, entry);
    var kept, tail := DropKeys(lines[f + 1..end]), lines[end..];
    var out := lines[..f + 1] + (kept + tail);
    assert out[f := entry] == lines[..f] + ([entry] + (kept + tail));
    assert lines[..f] == lines[..from] + lines[from..f];
    Assoc(lines[..from], lines[from..f], [entry] + (kept + tail));
    Assoc(lines[from..f], [entry] + kept, tail);
    Assoc([entry], kept, tail);
  }

  /**
   The first key line of the section is noted and overwritten, and the later ones are removed
   before, which leaves its index valid.
   */
  method ReplaceInSection(lines: seq<string>, from: nat, end: nat, entry: string)
    returns (out: seq<string>, found: bool)
    requires from <= end <= |lines|
    ensures found == HasKey(lines[from..end])
    ensures out == if found then lines[..from] + (ReplaceKey(lines[from..end], entry) + lines[end..]) else lines
  {
    hide IsKeyLine, DropKeys, ReplaceKey, HasKey, Cleared;
    var first: Option<nat> := None;
    var duplicates: seq<nat> := [];
    for k := from to end
      invariant first.None? ==> duplicates == [] && NoKeys(lines, from, k)
      invariant first.Some? ==> from <= first.value < k && IsKeyLine(lines[first.value])
      invariant first.Some? ==> NoKeys(lines, from, first.value)
      invariant first.Some? ==> duplicates == KeysFrom(lines, first.value + 1, k)
    {
      if IsKeyLine(lines[k]) {
        if first.None? {
          first := Some(k);
        } else {
          duplicates := duplicates + [k];
        }
      }
    }
    HasKeyRange(lines, from, end);
    found := first.Some?;
    out := lines;
    if found {
      out := RemoveDuplicates(lines, first.value + 1, end, duplicates);
      ReplacedAfterClearing(lines, from, end, first.value, entry);
      out := out[first.value := entry];
    }
  }

  ghost predicate NoTables(lines: seq<string>) {
    forall j | 0 <= j < |lines| :: !IsTableHeader(lines[j])
  }

  /** A file cut at its first storage section: up to the header, the body, and the next tables. */
  ghost predicate Shaped(front: seq<string>, body: seq<string>, tail: seq<string>) {
    && front != [] && IsStorageHeader(front[|front| - 1])
    && (forall j | 0 <= j < |front| - 1 :: !IsStorageHeader(front[j]))
    && NoTables(body)
    && (tail == [] || IsTableHeader(tail[0]))
  }

  /** The body of the first storage section. */
  function Body(lines: seq<string>): seq<string> {
    var h := FirstHeader(lines);
    if h == |lines| then [] else lines[h + 1..][..SectionLength(lines[h + 1..])]
  }

  lemma EditOfShape(front: seq<string>, body: seq<string>, tail: seq<string>, entry: string)
    requires Shaped(front, body, tail)
    ensures var lines := front + (body + tail);
            && FirstHeader(lines) == |front| - 1
            && Body(lines) == body
            && Edit(lines, entry) == front + (NewBody(body, entry) + tail)
  {
    hide IsStorageHeader, IsTableHeader, FirstHeader, SectionLength, NewBody;
    var lines, h := front + (body + tail), |front| - 1;
    assert lines[..h + 1] == front && lines[h + 1..] == body + tail;
    assert (body + tail)[..|body|] == body && (body + tail)[|body|..] == tail;
  }

  lemma ShapeOf(lines: seq<string>) returns (front: seq<string>, body: seq<string>, tail: seq<string>)
    requires FirstHeader(lines) < |lines|
    ensures Shaped(front, body, tail) && lines == front + (body + tail)
  {
    hide IsStorageHeader, IsTableHeader, FirstHeader, SectionLength;
    var h := FirstHeader(lines);
    var rest := lines[h + 1..];
    var n := SectionLength(rest);
    front, body, tail := lines[..h + 1], rest[..n], rest[n..];
    assert body + tail == rest && lines == front + rest;
  }

  lemma EditWithoutHeader(lines: seq<string>, entry: string)
    requires FirstHeader(lines) == |lines|
    ensures Edit(lines, entry) == Appended(lines) + [entry]
  {
    hide FirstHeader, Appended;
  }

  method FindHeader(lines: seq<string>) returns (h: nat)
    ensures h == FirstHeader(lines)
  {
    hide IsStorageHeader, FirstHeader;
    h := 0;
    while h < |lines| && !IsStorageHeader(lines[h])
      invariant h <= |lines| && forall j | 0 <= j < h :: !IsStorageHeader(lines[j])
    {
      h := h + 1;
    }
  }

  method FindSectionEnd(lines: seq<string>, from: nat) returns (end: nat)
    requires from <= |lines|
    ensures from <= end <= |lines| && NoTables(lines[from..end])
    ensures end < |lines| ==> IsTableHeader(lines[end])
  {
    hide IsTableHeader;
    end := from;
    while end < |lines| && !IsTableHeader(lines[end])
      invariant from <= end <= |lines|
      invariant NoTables(lines[from..end])
    {
      assert lines[from..end + 1] == lines[from..end] + [lines[end]];
      end := end + 1;
    }
  }

  method AppendSection(lines: seq<string>, entry: string) returns (out: seq<string>)
    ensures out == Appended(lines) + [entry]
  {
    hide HeaderLine, BlankLine;
    out := lines;
    if out != [] {
      out := out + [BlankLine()];
    }
    out := out + [HeaderLine()];
    out := out + [entry];
  }

  method EditLines(lines: seq<string>, entry: string) returns (out: seq<string>)
    ensures out == Edit(lines, entry)
  {
    hide IsStorageHeader, IsTableHeader, IsKeyLine, FirstHeader, ReplaceKey, HasKey, Edit, Appended, NoTables;
    var h := FindHeader(lines);
    if h == |lines| {
      EditWithoutHeader(lines, entry);
      out := AppendSection(lines, entry);
      return;
    }
    var end := FindSectionEnd(lines, h + 1);
    ghost var front, body, tail := lines[..h + 1], lines[h + 1..end], lines[end..];
    assert lines == front + (body + tail);
    EditOfShape(front, body, tail, entry);
    var found;
    out, found := ReplaceInSection(lines, h + 1, end, entry);
    if !found {
      out := out[..h + 1] + [entry] + out[h + 1..];
      InsertAfter(lines, h + 1, end, entry);
    }
  }

  lemma InsertAfter(lines: seq<string>, h: nat, end: nat, entry: string)
    requires h <= end <= |lines|
    ensures lines[..h] + [entry] + lines[h..] == lines[..h] + (([entry] + lines[h..end]) + lines[end..])
  {
    assert lines[h..] == lines[h..end] + lines[end..];
  }

  method PersistKey(text: string, key: string) returns (out: string)
    ensures out == Persist(text, key)
  {
    var lines := EditLines(Lines(text), Entry(key));
    out := Unlines(lines);
  }

  // ---------------------------------------------------------------- one write after another

  lemma {:induction false} DropKeysHasNone(lines: seq<string>)
    ensures !HasKey(DropKeys(lines)) && DropKeys(DropKeys(lines)) == DropKeys(lines)
  {
    hide IsKeyLine;
    if lines != [] {
      DropKeysHasNone(lines[1..]);
      if IsKeyLine(lines[0]) {
        assert DropKeys(lines) == DropKeys(lines[1..]);
      } else {
        var d := DropKeys(lines);
        assert d[1..] == DropKeys(lines[1..]);
      }
    }
  }

  lemma {:induction false} DropKeysNone(lines: seq<string>)
    requires !HasKey(lines)
    ensures DropKeys(lines) == lines
  {
    hide IsKeyLine;
    if lines != [] {
      assert !IsKeyLine(lines[0]);
      DropKeysNone(lines[1..]);
    }
  }

  lemma {:induction false} ReplaceTwice(lines: seq<string>, a: string, b: string)
    requires HasKey(lines) && IsKeyLine(a)
    ensures HasKey(ReplaceKey(lines, a)) && ReplaceKey(ReplaceKey(lines, a), b) == ReplaceKey(lines, b)
    decreases |lines|
  {
    hide IsKeyLine;
    var r := ReplaceKey(lines, a);
    if IsKeyLine(lines[0]) {
      assert r[0] == a && r[1..] == DropKeys(lines[1..]);
      DropKeysHasNone(lines[1..]);
    } else {
      ReplaceTwice(lines[1..], a, b);
      assert r[1..] == ReplaceKey(lines[1..], a);
    }
  }

  lemma NewBodyTwice(body: seq<string>, a: string, b: string)
    requires IsKeyLine(a)
    ensures HasKey(NewBody(body, a)) && NewBody(NewBody(body, a), b) == NewBody(body, b)
  {
    hide IsKeyLine;
    if HasKey(body) {
      ReplaceTwice(body, a, b);
    } else {
      var r := [a] + body;
      assert r[0] == a && r[1..] == body;
      DropKeysNone(body);
    }
  }

  lemma {:induction false} NoTablesDropped(body: seq<string>)
    requires NoTables(body)
    ensures NoTables(DropKeys(body))
  {
    hide IsTableHeader, IsKeyLine;
    if body != [] {
      NoTablesDropped(body[1..]);
    }
  }

  lemma {:induction false} NoTablesReplaced(body: seq<string>, entry: string)
    requires !IsTableHeader(entry) && NoTables(body)
    ensures NoTables(ReplaceKey(body, entry))
  {
    hide IsTableHeader, IsKeyLine;
    if body != [] {
      if IsKeyLine(body[0]) {
        NoTablesDropped(body[1..]);
      } else {
        NoTablesReplaced(body[1..], entry);
      }
    }
  }

  lemma NewBodyHasNoTables(body: seq<string>, entry: string)
    requires !IsTableHeader(entry) && NoTables(body)
    ensures NoTables(NewBody(body, entry))
  {
    hide IsTableHeader, IsKeyLine;
    if HasKey(body) {
      NoTablesReplaced(body, entry);
    }
  }

  lemma AppendedShape(lines: seq<string>, entry: string)
    requires FirstHeader(lines) == |lines| && !IsTableHeader(entry)
    ensures Shaped(Appended(lines), [entry], [])
    ensures Edit(lines, entry) == Appended(lines) + ([entry] + [])
  {
    hide IsTableHeader, FirstHeader, IsStorageHeader, Edit, HeaderLine, BlankLine;
    var front := Appended(lines);
    HeaderKinds();
    assert front[|front| - 1] == HeaderLine();
    forall j | 0 <= j < |front| - 1 ensures !IsStorageHeader(front[j]) {
      assert front[j] == if j < |lines| then lines[j] else BlankLine();
    }
    EditWithoutHeader(lines, entry);
    assert [entry] + [] == [entry];
  }

  lemma HeaderKinds()
    ensures IsStorageHeader(HeaderLine()) && !IsStorageHeader(BlankLine())
  {
  }

  /** What an edit leaves, in its parts. */
  lemma EditParts(lines: seq<string>, entry: string) returns (front: seq<string>, body: seq<string>, tail: seq<string>)
    requires !IsTableHeader(entry)
    ensures Shaped(front, body, tail) && Edit(lines, entry) == front + (body + tail)
    ensures FirstHeader(lines) == |lines| ==> front == Appended(lines) && body == [entry] && tail == []
    ensures FirstHeader(lines) < |lines| ==>
              && |front| == FirstHeader(lines) + 1
              && body == NewBody(Body(lines), entry) && lines == front + (Body(lines) + tail)
  {
    hide IsTableHeader, FirstHeader, IsStorageHeader, Edit, NewBody, Body, Appended;
    if FirstHeader(lines) == |lines| {
      front, body, tail := Appended(lines), [entry], [];
      AppendedShape(lines, entry);
    } else {
      front, body, tail := ShapeOf(lines);
      EditOfShape(front, body, tail, entry);
      NewBodyHasNoTables(body, entry);
      body := NewBody(body, entry);
    }
  }

  /** Writing a key and then another leaves what writing only the second one leaves. */
  lemma EditTwice(lines: seq<string>, a: string, b: string)
    requires IsKeyLine(a) && !IsTableHeader(a) && !IsTableHeader(b)
    ensures Edit(Edit(lines, a), b) == Edit(lines, b)
  {
    hide IsTableHeader, IsKeyLine, FirstHeader, Edit, NewBody, Body, Appended, Shaped;
    var front, body, tail := EditParts(lines, a);
    EditOfShape(front, body, tail, b);
    if FirstHeader(lines) == |lines| {
      AppendedShape(lines, b);
      NewBodyOne(a, b);
    } else {
      var front', body', tail' := ShapeOf(lines);
      EditOfShape(front', body', tail', b);
      EditOfShape(front', body', tail', a);
      assert front == front' && tail == tail' by { SameParts(lines, front, Body(lines), tail, front', body', tail'); }
      NewBodyTwice(body', a, b);
    }
  }

  lemma SameParts(lines: seq<string>, f: seq<string>, b: seq<string>, t: seq<string>,
                  f': seq<string>, b': seq<string>, t': seq<string>)
    requires lines == f + (b + t) && lines == f' + (b' + t') && |f| == |f'| && |b| == |b'|
    ensures f == f' && t == t'
  {
    assert f == lines[..|f|] && f' == lines[..|f|];
    assert t == lines[|f| + |b|..] && t' == lines[|f| + |b|..];
  }

  lemma NewBodyOne(a: string, b: string)
    requires IsKeyLine(a)
    ensures NewBody([a], b) == [b]
  {
    hide IsKeyLine;
    assert HasKey([a]) by { assert [a][0] == a; }
    assert [a][1..] == [];
  }

  // ---------------------------------------------------------------- one key, nothing else touched

  ghost predicate OneKey(body: seq<string>, entry: string) {
    exists k | 0 <= k < |body| ::
      body[k] == entry && forall j | 0 <= j < |body| && j != k :: !IsKeyLine(body[j])
  }

  lemma {:induction false} ReplacedHasOneKey(body: seq<string>, entry: string)
    requires HasKey(body)
    ensures OneKey(ReplaceKey(body, entry), entry)
    decreases |body|
  {
    hide IsKeyLine;
    var r := ReplaceKey(body, entry);
    if IsKeyLine(body[0]) {
      DropKeysHasNone(body[1..]);
      assert r[0] == entry;
      forall j | 0 < j < |r| ensures !IsKeyLine(r[j]) {
        assert r[j] == DropKeys(body[1..])[j - 1];
      }
    } else {
      ReplacedHasOneKey(body[1..], entry);
      var t := ReplaceKey(body[1..], entry);
      var k :| 0 <= k < |t| && t[k] == entry && forall j | 0 <= j < |t| && j != k :: !IsKeyLine(t[j]);
      assert r == [body[0]] + t;
      assert r[k + 1] == entry;
      forall j | 0 <= j < |r| && j != k + 1 ensures !IsKeyLine(r[j]) {
        if j > 0 { assert r[j] == t[j - 1]; }
      }
    }
  }

  lemma {:induction false} ReplaceKeepsOthers(body: seq<string>, entry: string)
    requires IsKeyLine(entry)
    ensures DropKeys(ReplaceKey(body, entry)) == DropKeys(body)
  {
    hide IsKeyLine;
    if body != [] {
      var r := ReplaceKey(body, entry);
      if IsKeyLine(body[0]) {
        assert r[1..] == DropKeys(body[1..]);
        DropKeysHasNone(body[1..]);
      } else {
        assert r[1..] == ReplaceKey(body[1..], entry);
        ReplaceKeepsOthers(body[1..], entry);
      }
    }
  }

  /**
   After a write the first storage section, as the code delimits it, holds exactly one key line,
   the new one; and apart from key lines of that section every line keeps its text and its order.
   */
  lemma WriteIsExact(lines: seq<string>, key: string)
    ensures var r, entry, h := Edit(lines, Entry(key)), Entry(key), FirstHeader(lines);
            && FirstHeader(r) < |r|
            && OneKey(Body(r), entry)
            && (h == |lines| ==> r == (if lines == [] then [] else lines + [BlankLine()]) + [HeaderLine()] + [entry])
            && (h < |lines| ==>
                  && r[..h + 1] == lines[..h + 1]
                  && DropKeys(Body(r)) == DropKeys(Body(lines))
                  && r[h + 1 + |Body(r)|..] == lines[h + 1 + |Body(lines)|..])
  {
    hide IsStorageHeader, IsTableHeader, IsKeyLine, FirstHeader, Entry, Edit, NewBody, Body, DropKeys, OneKey;
    var entry := Entry(key);
    EntryKind(key);
    var front, body, tail := EditParts(lines, entry);
    EditOfShape(front, body, tail, entry);
    if FirstHeader(lines) == |lines| {
      EditWithoutHeader(lines, entry);
      OnlyKey(entry);
    } else {
      NewBodyExact(Body(lines), entry);
      var r := Edit(lines, entry);
      assert r[..|front|] == front && lines[..|front|] == front;
      assert r[|front| + |body|..] == tail && lines[|front| + |Body(lines)|..] == tail;
    }
  }

  lemma OnlyKey(entry: string)
    ensures OneKey([entry], entry)
  {
    assert [entry][0] == entry;
  }

  lemma NewBodyExact(body: seq<string>, entry: string)
    requires IsKeyLine(entry)
    ensures OneKey(NewBody(body, entry), entry) && DropKeys(NewBody(body, entry)) == DropKeys(body)
  {
    hide IsKeyLine;
    if HasKey(body) {
      ReplacedHasOneKey(body, entry);
      ReplaceKeepsOthers(body, entry);
    } else {
      var r := [entry] + body;
      assert r[0] == entry && r[1..] == body;
      forall j | 0 < j < |r| ensures !IsKeyLine(r[j]) {
        assert r[j] == body[j - 1];
      }
    }
  }

  // ---------------------------------------------------------------- sections as TOML has them

  /**
   A line that opens a table in TOML: brackets, then nothing but white space and a comment. The
   code's own test does not allow the comment, except after `[storage]`.
   */
  predicate OpensTable(line: string) {
    var t := Trim(line);
    && t != [] && t[0] == '['
    && exists k | 0 <= k < |t| :: t[k] == ']' && (var rest := TrimStart(t[k + 1..]); rest == [] || rest[0] == '#')
  }

  lemma TableHeaderOpens(line: string)
    requires IsTableHeader(line)
    ensures OpensTable(line)
  {
    var t := Trim(line);
    assert t[|t| - 1] == ']' && t[|t|..] == [];
  }

  /** How many lines come before the next one that opens a table. */
  function TableLength(lines: seq<string>): (k: nat)
    ensures k <= |lines| && (k < |lines| ==> OpensTable(lines[k]))
    ensures forall j | 0 <= j < k :: !OpensTable(lines[j])
  {
    if lines == [] || OpensTable(lines[0]) then 0 else TableLength(lines[1..]) + 1
  }

  /** The lines of the first storage section. */
  function OwnBody(lines: seq<string>): seq<string> {
    Body(lines)[..TableLength(Body(lines))]
  }

  /** The lines of other tables that the code takes for a part of the section. */
  function Swallowed(lines: seq<string>): seq<string> {
    Body(lines)[TableLength(Body(lines))..]
  }

  /** The lines from the end of the code's section on. */
  function AfterBody(lines: seq<string>): seq<string> {
    var h := FirstHeader(lines);
    if h == |lines| then [] else lines[h + 1..][SectionLength(lines[h + 1..])..]
  }

  /** The write that is meant: the key goes into the storage section, and other tables stay as they are. */
  function ProperEdit(lines: seq<string>, entry: string): seq<string> {
    var h := FirstHeader(lines);
    if h == |lines| then Appended(lines) + [entry]
    else lines[..h + 1] + ((NewBody(OwnBody(lines), entry) + Swallowed(lines)) + AfterBody(lines))
  }

  lemma TableLengthUnique(lines: seq<string>, k: nat)
    requires k <= |lines| && (forall j | 0 <= j < k :: !OpensTable(lines[j])) && (k < |lines| ==> OpensTable(lines[k]))
    ensures TableLength(lines) == k
  {
    hide OpensTable;
  }

  /** The section's own lines are those up to the next line of the file that opens a table. */
  lemma OwnBodyEnds(lines: seq<string>)
    requires FirstHeader(lines) < |lines|
    ensures |OwnBody(lines)| == TableLength(lines[FirstHeader(lines) + 1..])
  {
    hide OpensTable, IsTableHeader, FirstHeader, TableLength;
    var rest, body := lines[FirstHeader(lines) + 1..], Body(lines);
    var m := TableLength(body);
    assert forall j | 0 <= j < |body| :: body[j] == rest[j];
    if m == |body| < |rest| {
      TableHeaderOpens(rest[m]);
    }
    TableLengthUnique(rest, m);
  }

  lemma {:induction false} DropKeysShorter(lines: seq<string>)
    ensures |DropKeys(lines)| <= |lines| && (HasKey(lines) ==> |DropKeys(lines)| < |lines|)
  {
    hide IsKeyLine;
    if lines != [] {
      DropKeysShorter(lines[1..]);
    }
  }

  lemma {:induction false} DropKeysConcat(a: seq<string>, b: seq<string>)
    ensures DropKeys(a + b) == DropKeys(a) + DropKeys(b)
    decreases |a|
  {
    hide IsKeyLine;
    if a == [] {
      assert a + b == b;
    } else {
      assert (a + b)[0] == a[0] && (a + b)[1..] == a[1..] + b;
      DropKeysConcat(a[1..], b);
      Assoc(if IsKeyLine(a[0]) then [] else [a[0]], DropKeys(a[1..]), DropKeys(b));
    }
  }

  lemma {:induction false} ReplaceKeyConcat(a: seq<string>, b: seq<string>, entry: string)
    ensures ReplaceKey(a + b, entry) ==
            if HasKey(a) then ReplaceKey(a, entry) + DropKeys(b) else a + ReplaceKey(b, entry)
    decreases |a|
  {
    hide IsKeyLine, DropKeys;
    if a == [] {
      assert a + b == b;
    } else {
      assert (a + b)[0] == a[0] && (a + b)[1..] == a[1..] + b;
      if IsKeyLine(a[0]) {
        DropKeysConcat(a[1..], b);
        Assoc([entry], DropKeys(a[1..]), DropKeys(b));
      } else {
        ReplaceKeyConcat(a[1..], b, entry);
        Assoc([a[0]], ReplaceKey(a[1..], entry), DropKeys(b));
        Assoc([a[0]], a[1..], ReplaceKey(b, entry));
        assert a == [a[0]] + a[1..];
      }
    }
  }

  lemma {:induction false} ReplaceKeyLength(lines: seq<string>, entry: string)
    ensures |ReplaceKey(lines, entry)| <= |lines|
  {
    hide IsKeyLine;
    if lines != [] {
      DropKeysShorter(lines[1..]);
      ReplaceKeyLength(lines[1..], entry);
    }
  }

  /** What becomes of the lines of the section and of those that are taken for a part of it. */
  lemma NewBodyConcat(own: seq<string>, other: seq<string>, entry: string)
    ensures NewBody(own + other, entry) ==
            if HasKey(own) then NewBody(own, entry) + DropKeys(other)
            else if HasKey(other) then own + ReplaceKey(other, entry)
            else NewBody(own, entry) + other
  {
    hide IsKeyLine, ReplaceKey, DropKeys;
    HasKeyConcat(own, other);
    ReplaceKeyConcat(own, other, entry);
    Assoc([entry], own, other);
  }

  lemma HasKeyConcat(a: seq<string>, b: seq<string>)
    ensures HasKey(a + b) <==> HasKey(a) || HasKey(b)
  {
    hide IsKeyLine;
    if HasKey(b) {
      var k :| 0 <= k < |b| && IsKeyLine(b[k]);
      assert (a + b)[|a| + k] == b[k];
    }
    if HasKey(a) {
      var k :| 0 <= k < |a| && IsKeyLine(a[k]);
      assert (a + b)[k] == a[k];
    }
  }

  lemma NewBodyLonger(own: seq<string>, other: seq<string>, entry: string)
    ensures NewBody(own + other, entry) == NewBody(own, entry) + other <==> !HasKey(other)
  {
    hide IsKeyLine, ReplaceKey, DropKeys, HasKey;
    NewBodyConcat(own, other, entry);
    DropKeysShorter(other);
    ReplaceKeyLength(other, entry);
    if !HasKey(other) {
      DropKeysNone(other);
    }
  }

  /**
   Exactly when the write is the one that is meant: no table that the code takes for a part of the
   section, because its header has a comment, has a key line of its own. The section then has
   exactly one key line, the new one.
   */
  lemma SectionExact(lines: seq<string>, key: string)
    ensures Edit(lines, Entry(key)) == ProperEdit(lines, Entry(key)) <==> !HasKey(Swallowed(lines))
    ensures OneKey(NewBody(OwnBody(lines), Entry(key)), Entry(key))
  {
    hide IsKeyLine, IsTableHeader, NewBody, HasKey, Entry, OneKey, FirstHeader, Edit, ProperEdit, Body, OwnBody,
         Swallowed, AfterBody;
    var entry, own, other := Entry(key), OwnBody(lines), Swallowed(lines);
    EntryKind(key);
    NewBodyExact(own, entry);
    if FirstHeader(lines) == |lines| {
      EditWithoutHeader(lines, entry);
      ProperWithoutHeader(lines, entry);
    } else {
      EditIs(lines, entry);
      BodySplits(lines);
      NewBodyLonger(own, other, entry);
      SameMiddle(lines[..FirstHeader(lines) + 1], NewBody(own + other, entry), NewBody(own, entry) + other,
                 AfterBody(lines));
    }
  }

  lemma EditIs(lines: seq<string>, entry: string)
    requires FirstHeader(lines) < |lines|
    ensures var front := lines[..FirstHeader(lines) + 1];
            && Edit(lines, entry) == front + (NewBody(Body(lines), entry) + AfterBody(lines))
            && ProperEdit(lines, entry) ==
               front + ((NewBody(OwnBody(lines), entry) + Swallowed(lines)) + AfterBody(lines))
  {
    hide NewBody, FirstHeader, SectionLength, IsStorageHeader, IsTableHeader, OwnBody, Swallowed;
  }

  lemma BodySplits(lines: seq<string>)
    ensures Body(lines) == OwnBody(lines) + Swallowed(lines)
  {
    hide Body, TableLength, OpensTable;
  }

  lemma ProperWithoutHeader(lines: seq<string>, entry: string)
    requires FirstHeader(lines) == |lines|
    ensures ProperEdit(lines, entry) == Appended(lines) + [entry] && !HasKey(Swallowed(lines))
  {
    hide FirstHeader, Appended;
  }

  lemma SameMiddle(front: seq<string>, a: seq<string>, b: seq<string>, tail: seq<string>)
    ensures front + (a + tail) == front + (b + tail) <==> a == b
  {
    var x, y := front + (a + tail), front + (b + tail);
    if x == y {
      assert |a| == |b|;
      assert a == x[|front|..|front| + |a|] && b == y[|front|..|front| + |b|];
    }
  }

  /** A table whose header has a comment loses its own key line, and the storage section gets none. */
  lemma CommentedHeaderIsSwallowed()
    ensures var lines := ["[storage]", "[server] # c", Entry("old")];
            && OpensTable(lines[1]) && OwnBody(lines) == []
            && Edit(lines, Entry("new")) == ["[storage]", "[server] # c", Entry("new")]
  {
    var lines := ["[storage]", "[server] # c", Entry("old")];
    Commented();
    EntryKind("old");
    hide IsKeyLine, IsStorageHeader, IsTableHeader, OpensTable, Entry;
    var front, body := ["[storage]"], ["[server] # c", Entry("old")];
    assert lines == front + (body + []);
    EditOfShape(front, body, [], Entry("new"));
    assert body[1..] == [Entry("old")] && [Entry("old")][1..] == [];
    assert HasKey(body) by { assert IsKeyLine(body[1]); }
  }

  lemma TrimOf(s: string)
    requires s != [] && !IsWhitespace(s[0]) && !IsWhitespace(s[|s| - 1])
    ensures Trim(s) == s && TrimStart(s) == s
  {
  }

  lemma Commented()
    ensures IsStorageHeader("[storage]")
    ensures var line := "[server] # c";
            OpensTable(line) && !IsTableHeader(line) && !IsKeyLine(line) && !IsStorageHeader(line)
  {
    var line := "[server] # c";
    TrimOf(line);
    TrimOf("[storage]");
    hide TrimEnd;
    assert line[7] == ']' && line[8..] == " # c" && " # c"[1..] == "# c";
    assert TrimStart(line[8..]) == "# c";
    assert line[7] != "[storage]"[7];
  }

  // ---------------------------------------------------------------- last write wins

  /** The lines as they are read back once they have been written. */
  function StripAll(lines: seq<string>): seq<string> {
    seq(|lines|, k requires 0 <= k < |lines| => StripCr(lines[k]))
  }

  ghost predicate NoStrayCr(lines: seq<string>) {
    forall line | line in lines :: StripCr(line) == line
  }

  ghost predicate NoNewline(lines: seq<string>) {
    forall line | line in lines :: '\n' !in line
  }

  /** The lines that a write keeps: all but the key lines of the first storage section. */
  function KeptLines(lines: seq<string>): seq<string> {
    var h := FirstHeader(lines);
    if h == |lines| then lines else
      lines[..h + 1] + (DropKeys(Body(lines)) + lines[h + 1 + |Body(lines)|..])
  }

  lemma {:induction false} LinesHaveNoNewline(text: string)
    ensures NoNewline(Lines(text))
    decreases |text|
  {
    if text != [] {
      var k := IndexOf(text, '\n');
      if k < |text| {
        LinesHaveNoNewline(text[k + 1..]);
        assert '\n' !in text[..k];
      }
    }
  }

  lemma FirstLine(line: string, rest: string)
    requires '\n' !in line
    ensures Lines(line + "\n" + rest) == [StripCr(line)] + Lines(rest)
  {
    hide IndexOf;
    var s := line + "\n" + rest;
    assert s[..|line|] == line && s[|line| + 1..] == rest;
    IndexOfUnique(s, '\n', |line|);
  }

  lemma NoLines()
    ensures Lines([]) == [] && StripAll([]) == []
  {
  }

  lemma UnlinesCons(lines: seq<string>)
    requires lines != []
    ensures Unlines(lines) == lines[0] + "\n" + (if |lines| == 1 then [] else Unlines(lines[1..]))
  {
  }

  lemma StripCons(lines: seq<string>)
    requires lines != []
    ensures StripAll(lines) == [StripCr(lines[0])] + StripAll(lines[1..])
  {
    hide StripCr;
  }

  lemma {:induction false} LinesOfUnlines(lines: seq<string>)
    requires lines != [] && NoNewline(lines)
    ensures Lines(Unlines(lines)) == StripAll(lines)
    decreases |lines|
  {
    hide Lines, StripCr, Unlines, StripAll;
    assert lines[0] in lines;
    UnlinesCons(lines);
    StripCons(lines);
    FirstLine(lines[0], if |lines| == 1 then [] else Unlines(lines[1..]));
    if |lines| == 1 {
      NoLines();
      assert lines[1..] == [];
    } else {
      LinesOfUnlines(lines[1..]);
    }
  }

  /** Reading back loses a character for every stray CR. */
  lemma {:induction false} UnlinesShrinks(lines: seq<string>)
    ensures |Unlines(StripAll(lines))| <= |Unlines(lines)|
    ensures |Unlines(StripAll(lines))| == |Unlines(lines)| <==> NoStrayCr(lines)
    decreases |lines|
  {
    if |lines| > 1 {
      UnlinesShrinks(lines[1..]);
      assert StripAll(lines)[1..] == StripAll(lines[1..]);
      assert lines == [lines[0]] + lines[1..];
    } else if |lines| == 1 {
      assert lines == [lines[0]];
    }
  }

  lemma {:induction false} TrimStartPrefix(a: string, b: string)
    requires TrimStart(a) != []
    ensures TrimStart(a + b) == TrimStart(a) + b
  {
    hide IsWhitespace;
    if IsWhitespace(a[0]) {
      assert (a + b)[1..] == a[1..] + b;
      TrimStartPrefix(a[1..], b);
    }
  }

  /** A stray CR hides no header, but can turn a bare name into a key line. */
  lemma StripKinds(line: string)
    ensures IsStorageHeader(StripCr(line)) <==> IsStorageHeader(line)
    ensures IsTableHeader(StripCr(line)) <==> IsTableHeader(line)
    ensures IsKeyLine(StripCr(line)) ==> IsKeyLine(line)
  {
    var s := StripCr(line);
    assert Trim(s) == Trim(line);
    if s != line && IsKeyLine(s) {
      assert line == s + ['\r'];
      TrimStartPrefix(s, ['\r']);
    }
  }

  /** Key lines that end in no stray CR stay key lines, and no other line becomes one. */
  ghost predicate PlainKeys(lines: seq<string>) {
    forall line | line in lines && IsKeyLine(line) :: StripCr(line) == line
  }

  lemma StripFirst(lines: seq<string>)
    requires lines != [] && PlainKeys(lines)
    ensures PlainKeys(lines[1..]) && StripAll(lines)[1..] == StripAll(lines[1..])
    ensures IsKeyLine(StripCr(lines[0])) <==> IsKeyLine(lines[0])
    ensures IsKeyLine(lines[0]) ==> StripCr(lines[0]) == lines[0]
  {
    hide IsKeyLine, StripCr;
    StripKinds(lines[0]);
    assert lines[0] in lines;
  }

  lemma {:induction false} StripDrop(body: seq<string>)
    requires PlainKeys(body)
    ensures DropKeys(StripAll(body)) == StripAll(DropKeys(body))
    decreases |body|
  {
    hide IsKeyLine, StripCr, PlainKeys;
    if body != [] {
      StripFirst(body);
      StripDrop(body[1..]);
    }
  }

  lemma {:induction false} StripReplace(body: seq<string>, entry: string)
    requires PlainKeys(body) && StripCr(entry) == entry
    ensures HasKey(StripAll(body)) <==> HasKey(body)
    ensures ReplaceKey(StripAll(body), entry) == StripAll(ReplaceKey(body, entry))
    decreases |body|
  {
    hide IsKeyLine, StripCr, PlainKeys;
    if body != [] {
      StripFirst(body);
      if IsKeyLine(body[0]) {
        StripDrop(body[1..]);
        assert IsKeyLine(StripAll(body)[0]);
      } else {
        StripReplace(body[1..], entry);
      }
    }
  }

  lemma StripConcat(a: seq<string>, b: seq<string>)
    ensures StripAll(a + b) == StripAll(a) + StripAll(b)
  {
    hide StripCr;
  }

  lemma StripShape(front: seq<string>, body: seq<string>, tail: seq<string>)
    requires Shaped(front, body, tail)
    ensures Shaped(StripAll(front), StripAll(body), StripAll(tail))
  {
    hide IsStorageHeader, IsTableHeader, IsKeyLine, StripCr;
    forall line ensures
      && (IsStorageHeader(StripCr(line)) <==> IsStorageHeader(line))
      && (IsTableHeader(StripCr(line)) <==> IsTableHeader(line))
    {
      StripKinds(line);
    }
  }

  /** Reading a written file back and writing again: the second write, with the CRs stripped. */
  lemma StripEdit(lines: seq<string>, first: string, second: string)
    ensures Edit(StripAll(Edit(lines, Entry(first))), Entry(second)) == StripAll(Edit(lines, Entry(second)))
  {
    hide *;
    var a, b := Entry(first), Entry(second);
    EntryKind(first);
    EntryKind(second);
    EntryEnd(first);
    EntryEnd(second);
    var front, body, tail := EditParts(lines, a);
    EditOfShape(front, body, tail, b);
    EditTwice(lines, a, b);
    WriteIsExact(lines, first);
    OnlyKeyIs(body, a);
    StripNewBody(body, b);
    StripShape(front, body, tail);
    StripThree(front, body, tail);
    EditOfShape(StripAll(front), StripAll(body), StripAll(tail), b);
    StripThree(front, NewBody(body, b), tail);
  }

  lemma StripThree(front: seq<string>, body: seq<string>, tail: seq<string>)
    ensures StripAll(front + (body + tail)) == StripAll(front) + (StripAll(body) + StripAll(tail))
  {
    hide StripAll;
    StripConcat(front, body + tail);
    StripConcat(body, tail);
  }

  lemma StripNewBody(body: seq<string>, entry: string)
    requires PlainKeys(body) && StripCr(entry) == entry
    ensures NewBody(StripAll(body), entry) == StripAll(NewBody(body, entry))
  {
    hide IsKeyLine, StripCr, HasKey, ReplaceKey, PlainKeys;
    StripReplace(body, entry);
    StripConcat([entry], body);
    assert StripAll([entry]) == [entry];
  }

  lemma EntryEnd(key: string)
    ensures StripCr(Entry(key)) == Entry(key)
    ensures '\n' !in key ==> '\n' !in Entry(key)
  {
    var e := Entry(key);
    assert e[|e| - 1] == '"';
  }

  lemma OnlyKeyIs(body: seq<string>, entry: string)
    requires OneKey(body, entry) && StripCr(entry) == entry
    ensures PlainKeys(body)
  {
    hide IsKeyLine, StripCr;
  }

  lemma {:induction false} BodyMembers(body: seq<string>, entry: string, x: string)
    ensures x in DropKeys(body) ==> x in body
    ensures HasKey(body) ==> (x in ReplaceKey(body, entry) <==> x == entry || x in DropKeys(body))
  {
    hide IsKeyLine;
    if body != [] {
      BodyMembers(body[1..], entry, x);
    }
  }

  lemma EditMembers(lines: seq<string>, entry: string, x: string)
    requires !IsTableHeader(entry)
    ensures x in KeptLines(lines) ==> x in Edit(lines, entry) && x in lines
    ensures x in Edit(lines, entry) ==> x in KeptLines(lines) || x == entry || x == BlankLine() || x == HeaderLine()
  {
    hide IsTableHeader, IsStorageHeader, IsKeyLine, FirstHeader, Edit, Body, DropKeys, ReplaceKey, HasKey, Shaped,
         BlankLine, HeaderLine;
    var front, body, tail := EditParts(lines, entry);
    if FirstHeader(lines) < |lines| {
      var before := Body(lines);
      assert lines[..|front|] == front && lines[|front| + |before|..] == tail;
      BodyMembers(before, entry, x);
      if !HasKey(before) {
        DropKeysNone(before);
      }
    }
  }

  lemma PlainLines()
    ensures StripCr(BlankLine()) == BlankLine() && StripCr(HeaderLine()) == HeaderLine()
    ensures '\n' !in BlankLine() && '\n' !in HeaderLine()
  {
  }

  /**
   The file remembers only the last key written exactly when no line that the write keeps ends in
   a stray CR, one that is not part of a line ending. Files with LF endings and files with CR LF
   endings are of this kind.
   */
  lemma LastWriteWinsExact(text: string, first: string, second: string)
    requires '\n' !in first
    ensures Persist(Persist(text, first), second) == Persist(text, second) <==> NoStrayCr(KeptLines(Lines(text)))
  {
    hide Lines, Unlines, Edit, Entry, KeptLines, StripCr, IsTableHeader, IsKeyLine, IsStorageHeader, BlankLine,
         HeaderLine;
    var lines, a, b := Lines(text), Entry(first), Entry(second);
    LinesHaveNoNewline(text);
    EntryKind(first);
    EntryKind(second);
    EntryEnd(first);
    EntryEnd(second);
    PlainLines();
    var once, twice := Edit(lines, a), Edit(lines, b);
    forall x | x in once ensures '\n' !in x { EditMembers(lines, a, x); }
    forall x ensures
      && (x in KeptLines(lines) ==> x in twice)
      && (x in twice && StripCr(x) != x ==> x in KeptLines(lines))
    {
      EditMembers(lines, b, x);
    }
    EditNotEmpty(lines, a);
    LinesOfUnlines(once);
    StripEdit(lines, first, second);
    UnlinesShrinks(twice);
    if NoStrayCr(twice) {
      assert StripAll(twice) == twice;
    }
  }

  lemma EditNotEmpty(lines: seq<string>, entry: string)
    requires !IsTableHeader(entry)
    ensures Edit(lines, entry) != []
  {
    hide IsTableHeader, IsStorageHeader, Edit, Body, FirstHeader, NewBody, Appended;
    var front, body, tail := EditParts(lines, entry);
  }

  /** When every CR is followed by an LF, no line that is read ends in a CR. */
  lemma {:induction false} PairedCr(text: string)
    requires forall i | 0 <= i < |text| && text[i] == '\r' :: i + 1 < |text| && text[i + 1] == '\n'
    ensures NoStrayCr(Lines(text))
    decreases |text|
  {
    if text != [] {
      var k := IndexOf(text, '\n');
      if k < |text| {
        PairedCr(text[k + 1..]);
        assert k >= 2 ==> text[k - 1] in text[..k] && text[k - 2] != '\r';
      }
    }
  }

  // ---------------------------------------------------------------- reading the key back

  /** What stands between the quotes after the equals sign of a key line. */
  function QuotedValue(line: string): Option<string> {
    var t := TrimStart(line);
    if |t| < 14 then None else
    var sign := TrimStart(t[14..]);
    if sign == [] || sign[0] != '=' then None else
    var quoted := TrimStart(sign[1..]);
    if quoted == [] || quoted[0] != '"' then None else
    var end := IndexOf(quoted[1..], '"');
    if end == |quoted| - 1 then None else Some(quoted[1..][..end])
  }

  /** The value of the first key line. */
  function KeyIn(lines: seq<string>): Option<string> {
    if lines == [] then None else if IsKeyLine(lines[0]) then QuotedValue(lines[0]) else KeyIn(lines[1..])
  }

  /** A key that needs no escapes in a TOML string and no second line. */
  predicate PlainKey(key: string) {
    '"' !in key && '\\' !in key && '\n' !in key && '\r' !in key
  }

  lemma SkipSpace(s: string)
    requires s != [] && !IsWhitespace(s[0])
    ensures TrimStart(" " + s) == s
  {
    assert (" " + s)[1..] == s;
  }

  /** The entry from its equals sign on. */
  function SignPart(key: string): string {
    "= " + QuotePart(key)
  }

  function QuotePart(key: string): string {
    "\"" + key + "\""
  }

  lemma EntrySplits(key: string)
    ensures |Entry(key)| > 14 && Entry(key)[14..] == " " + SignPart(key) && SignPart(key) != [] && QuotePart(key) != []
    ensures SignPart(key)[0] == '=' && SignPart(key)[1..] == " " + QuotePart(key)
    ensures QuotePart(key)[0] == '"' && QuotePart(key)[1..] == key + "\""
  {
  }

  lemma EntryReads(key: string)
    requires PlainKey(key)
    ensures QuotedValue(Entry(key)) == Some(key)
  {
    hide IndexOf, Entry, SignPart, QuotePart, TrimStart;
    EntrySplits(key);
    EntryStart(key);
    SkipSpace(SignPart(key));
    SkipSpace(QuotePart(key));
    var rest := key + "\"";
    assert rest[|key|] == '"' && rest[..|key|] == key;
    IndexOfUnique(rest, '"', |key|);
  }

  lemma EntryStart(key: string)
    ensures TrimStart(Entry(key)) == Entry(key)
  {
    assert Entry(key)[0] == 'e';
  }

  lemma {:induction false} KeyInOne(body: seq<string>, entry: string)
    requires OneKey(body, entry) && IsKeyLine(entry)
    ensures KeyIn(body) == QuotedValue(entry)
    decreases |body|
  {
    hide IsKeyLine, QuotedValue;
    var k :| 0 <= k < |body| && body[k] == entry && forall j | 0 <= j < |body| && j != k :: !IsKeyLine(body[j]);
    if k > 0 {
      assert body[1..][k - 1] == entry;
      assert forall j | 0 <= j < |body[1..]| && j != k - 1 :: body[1..][j] == body[j + 1];
      KeyInOne(body[1..], entry);
    }
  }

  lemma {:induction false} KeyInNone(body: seq<string>)
    requires !HasKey(body)
    ensures KeyIn(body) == None
    decreases |body|
  {
    hide IsKeyLine, QuotedValue;
    if body != [] {
      assert !IsKeyLine(body[0]);
      KeyInNone(body[1..]);
    }
  }

  lemma OneKeyStripped(body: seq<string>, entry: string)
    requires OneKey(body, entry) && StripCr(entry) == entry
    ensures OneKey(StripAll(body), entry)
  {
    hide IsKeyLine, StripCr;
    var k :| 0 <= k < |body| && body[k] == entry && forall j | 0 <= j < |body| && j != k :: !IsKeyLine(body[j]);
    var b := StripAll(body);
    assert b[k] == entry;
    forall j | 0 <= j < |b| && j != k ensures !IsKeyLine(b[j]) {
      StripKinds(body[j]);
    }
  }

  /** The written file as it is read back, in its parts. */
  lemma ReadParts(text: string, key: string) returns (front: seq<string>, body: seq<string>, tail: seq<string>)
    requires '\n' !in key
    ensures Shaped(front, body, tail) && Edit(Lines(text), Entry(key)) == front + (body + tail)
    ensures Body(Lines(Persist(text, key))) == StripAll(body)
    ensures OneKey(body, Entry(key))
    ensures FirstHeader(Lines(text)) == |Lines(text)| ==> body == [Entry(key)]
    ensures FirstHeader(Lines(text)) < |Lines(text)| ==> body == NewBody(Body(Lines(text)), Entry(key))
  {
    hide *;
    EntryKind(key);
    EntryEnd(key);
    var lines, entry := Lines(text), Entry(key);
    front, body, tail := EditParts(lines, entry);
    EditOfShape(front, body, tail, entry);
    WriteIsExact(lines, key);
    ReadBack(text, key);
    StripShape(front, body, tail);
    StripThree(front, body, tail);
    EditOfShape(StripAll(front), StripAll(body), StripAll(tail), entry);
  }

  lemma ReadBack(text: string, key: string)
    requires '\n' !in key
    ensures Lines(Persist(text, key)) == StripAll(Edit(Lines(text), Entry(key)))
  {
    hide Lines, Unlines, Edit, Entry, KeptLines, StripCr, StripAll, IsTableHeader, IsKeyLine, BlankLine, HeaderLine;
    EntryKind(key);
    EntryEnd(key);
    PlainLines();
    LinesHaveNoNewline(text);
    forall x | x in Edit(Lines(text), Entry(key)) ensures '\n' !in x {
      EditMembers(Lines(text), Entry(key), x);
    }
    EditNotEmpty(Lines(text), Entry(key));
    LinesOfUnlines(Edit(Lines(text), Entry(key)));
  }

  /** The key that was written is the one in the section that the code takes for the storage section. */
  lemma KeyIsRead(text: string, key: string)
    requires PlainKey(key)
    ensures KeyIn(Body(Lines(Persist(text, key)))) == Some(key)
  {
    hide *;
    PlainMeans(key);
    var front, body, tail := ReadParts(text, key);
    EntryKind(key);
    EntryEnd(key);
    OneKeyStripped(body, Entry(key));
    KeyInOne(StripAll(body), Entry(key));
    EntryReads(key);
  }

  lemma PlainMeans(key: string)
    requires PlainKey(key)
    ensures '\n' !in key
  {
  }

  /** Two keys leave the same file only if they are equal. */
  lemma KeysLeaveTheirMark(text: string, a: string, b: string)
    requires PlainKey(a) && PlainKey(b) && Persist(text, a) == Persist(text, b)
    ensures a == b
  {
    hide *;
    KeyIsRead(text, a);
    KeyIsRead(text, b);
  }

  // ---------------------------------------------------------------- reading it from the TOML section

  lemma StripOpens(line: string)
    ensures OpensTable(StripCr(line)) <==> OpensTable(line)
  {
    assert Trim(StripCr(line)) == Trim(line);
  }

  lemma StripTableLength(lines: seq<string>)
    ensures TableLength(StripAll(lines)) == TableLength(lines)
  {
    hide OpensTable, TableLength, StripCr;
    var k := TableLength(lines);
    forall j | 0 <= j < |lines| ensures OpensTable(StripAll(lines)[j]) <==> OpensTable(lines[j]) {
      StripOpens(lines[j]);
    }
    TableLengthUnique(StripAll(lines), k);
  }

  ghost predicate NoTableOpens(lines: seq<string>) {
    forall j | 0 <= j < |lines| :: !OpensTable(lines[j])
  }

  lemma {:induction false} NoTableDropped(body: seq<string>)
    requires NoTableOpens(body)
    ensures NoTableOpens(DropKeys(body))
  {
    hide OpensTable, IsKeyLine;
    if body != [] {
      NoTableDropped(body[1..]);
    }
  }

  lemma {:induction false} NoTableReplaced(body: seq<string>, entry: string)
    requires !OpensTable(entry) && NoTableOpens(body)
    ensures NoTableOpens(ReplaceKey(body, entry))
  {
    hide OpensTable, IsKeyLine;
    if body != [] {
      NoTableDropped(body[1..]);
      NoTableReplaced(body[1..], entry);
    }
  }

  /** A line that opens a table is no key line. */
  lemma OpensIsNoKey(line: string)
    requires OpensTable(line)
    ensures !IsKeyLine(line)
  {
    hide IsWhitespace;
    var t := TrimStart(line);
    TrimBothStart(line);
    assert "encryption_key"[0] == 'e';
  }

  lemma {:induction false} TrimBothStart(s: string)
    ensures Trim(s) != [] ==> TrimStart(s) != [] && TrimStart(s)[0] == Trim(s)[0]
    decreases |s|
  {
    hide IsWhitespace;
    if s != [] && IsWhitespace(s[|s| - 1]) {
      TrimBothStart(s[..|s| - 1]);
      if TrimStart(s[..|s| - 1]) != [] {
        StartOfPrefix(s[..|s| - 1], s[|s| - 1]);
      }
      assert s == s[..|s| - 1] + [s[|s| - 1]];
    }
  }

  lemma StartOfPrefix(s: string, c: char)
    requires TrimStart(s) != []
    ensures TrimStart(s + [c]) != [] && TrimStart(s + [c])[0] == TrimStart(s)[0]
  {
    TrimStartPrefix(s, [c]);
  }

  /** The own lines of a body that starts with `own` and goes on with another table or not at all. */
  lemma OwnPart(own: seq<string>, other: seq<string>)
    requires NoTableOpens(own) && (other != [] ==> OpensTable(other[0]))
    ensures (own + other)[..TableLength(own + other)] == own
  {
    hide OpensTable, TableLength;
    TableLengthUnique(own + other, |own|);
  }

  lemma EntryOpensNothing(key: string)
    ensures !OpensTable(Entry(key))
  {
    var e := Entry(key);
    assert e[0] == 'e' && e[|e| - 1] == '"';
    TrimOf(e);
  }

  /** The section's own lines after a write. */
  lemma OwnAfter(own: seq<string>, other: seq<string>, key: string)
    requires NoTableOpens(own) && (other != [] ==> OpensTable(other[0]))
    ensures var body := NewBody(own + other, Entry(key));
            body[..TableLength(body)] ==
              if HasKey(own) || !HasKey(other) then NewBody(own, Entry(key)) else own
  {
    hide IsKeyLine, OpensTable, TableLength, Entry, HasKey, ReplaceKey, DropKeys;
    var entry := Entry(key);
    NewBodyConcat(own, other, entry);
    EntryOpensNothing(key);
    NoTableReplaced(own, entry);
    FirstStays(other, entry);
    if HasKey(own) {
      OwnPart(NewBody(own, entry), DropKeys(other));
    } else if HasKey(other) {
      OwnPart(own, ReplaceKey(other, entry));
    } else {
      assert forall j | 0 < j < |own| + 1 :: NewBody(own, entry)[j] == own[j - 1];
      OwnPart(NewBody(own, entry), other);
    }
  }

  lemma FirstStays(other: seq<string>, entry: string)
    requires other != [] ==> OpensTable(other[0])
    ensures DropKeys(other) != [] ==> OpensTable(DropKeys(other)[0])
    ensures ReplaceKey(other, entry) != [] ==> OpensTable(ReplaceKey(other, entry)[0])
  {
    hide IsKeyLine, OpensTable;
    if other != [] {
      OpensIsNoKey(other[0]);
    }
  }

  lemma OwnIsOpenless(lines: seq<string>)
    ensures NoTableOpens(OwnBody(lines)) && (Swallowed(lines) != [] ==> OpensTable(Swallowed(lines)[0]))
  {
    hide OpensTable, Body, TableLength;
  }

  /**
   Exactly when the storage section, as TOML delimits it, has the key after the write: it had a key
   line of its own, or no table that the code takes for a part of it has one.
   */
  lemma SectionKeyExact(text: string, key: string)
    requires PlainKey(key)
    ensures KeyIn(OwnBody(Lines(Persist(text, key)))) == Some(key) <==>
            HasKey(OwnBody(Lines(text))) || !HasKey(Swallowed(Lines(text)))
  {
    hide *;
    PlainMeans(key);
    EntryKind(key);
    EntryEnd(key);
    EntryReads(key);
    var lines, own, other := Lines(text), OwnBody(Lines(text)), Swallowed(Lines(text));
    var front, body, tail := ReadParts(text, key);
    OwnOfStripped(Lines(Persist(text, key)), body);
    if FirstHeader(lines) == |lines| {
      ProperWithoutHeader(lines, Entry(key));
      AloneOwn(key);
      OnlyKey(Entry(key));
      OneKeyStripped([Entry(key)], Entry(key));
      KeyInOne(StripAll([Entry(key)]), Entry(key));
    } else {
      BodySplits(lines);
      OwnIsOpenless(lines);
      OwnAfter(own, other, key);
      if HasKey(own) || !HasKey(other) {
        NewBodyExact(own, Entry(key));
        OneKeyStripped(NewBody(own, Entry(key)), Entry(key));
        KeyInOne(StripAll(NewBody(own, Entry(key))), Entry(key));
      } else {
        NoKeyStripped(own);
        KeyInNone(StripAll(own));
      }
    }
  }

  lemma OwnOfStripped(lines: seq<string>, body: seq<string>)
    requires Body(lines) == StripAll(body)
    ensures OwnBody(lines) == StripAll(body[..TableLength(body)])
  {
    hide OpensTable, TableLength, Body, StripCr;
    StripTableLength(body);
  }

  lemma AloneOwn(key: string)
    ensures [Entry(key)][..TableLength([Entry(key)])] == [Entry(key)]
  {
    hide OpensTable, Entry;
    EntryOpensNothing(key);
  }

  lemma NoKeyStripped(body: seq<string>)
    requires !HasKey(body)
    ensures !HasKey(StripAll(body))
  {
    hide IsKeyLine, StripCr;
    forall j | 0 <= j < |body| ensures !IsKeyLine(StripAll(body)[j]) {
      StripKinds(body[j]);
    }
  }
}
