/** Reading the rows of one INSERT statement: tuples, their values, and the escapes inside. */
module SqlRows {
  import opened Prelude
  import opened Text
  import opened Utf8

  // ---------------------------------------------------------------- tuples

  /** The tuple scanner; `open` is the text of the tuple that is being read. */
  datatype TupleScan = TupleScan(depth: int, inQuote: bool, escape: bool, open: Option<string>)

  const TUPLES_START := TupleScan(0, false, false, None)

  function Grow(open: Option<string>, text: string): Option<string> {
    match open
    case None => None
    case Some(t) => Some(t + text)
  }

  function TupleStep(st: TupleScan, c: char): TupleScan {
    var grown := st.(open := Grow(st.open, [c]));
    if st.escape then grown.(escape := false)
    else if c == '\\' && st.inQuote then grown.(escape := true)
    else if c == '\'' then grown.(inQuote := !st.inQuote)
    else if st.inQuote then grown
    else if c == '(' then
      if st.depth + 1 == 1 then st.(depth := 1, open := Some([])) else grown.(depth := st.depth + 1)
    else if c == ')' then
      if st.depth - 1 == 0 then st.(depth := 0, open := None) else grown.(depth := st.depth - 1)
    else grown
  }

  predicate Closes(st: TupleScan, c: char) {
    !st.escape && !st.inQuote && c == ')' && st.depth == 1 && st.open.Some?
  }

  function TupleSteps(st: TupleScan, s: string): TupleScan
    decreases |s|
  {
    if s == [] then st else TupleSteps(TupleStep(st, s[0]), s[1..])
  }

  function Tuples(st: TupleScan, s: string): seq<string>
    decreases |s|
  {
    if s == [] then [] else
      (if Closes(st, s[0]) then [st.open.value] else []) + Tuples(TupleStep(st, s[0]), s[1..])
  }

  /** The first place where `pattern` occurs. */
  function Find(s: string, pattern: string): (r: Option<nat>)
    ensures r.Some? ==> r.value + |pattern| <= |s|
  {
    if pattern <= s then Some(0) else if s == [] then None else Shift(Find(s[1..], pattern), 1)
  }

  /** `str::to_uppercase`, given what it does to each character. */
  function ToUpper(s: string, upper: char -> string): string {
    if s == [] then [] else upper(s[0]) + ToUpper(s[1..], upper)
  }

  /** `&s[byte..]`: nothing when `byte` is not where a character starts, where Rust panics. */
  function SliceFromByte(s: string, byte: nat): Option<string> {
    if byte == 0 then Some(s)
    else if s == [] || |EncodeChar(s[0])| > byte then None
    else SliceFromByte(s[1..], byte - |EncodeChar(s[0])|)
  }

  /**
   The tuples of a statement: what follows the first VALUES. Its place is found in the uppercase
   text and used as a byte offset into the text itself.
   */
  function TuplesOf(line: string, upper: char -> string): Option<seq<string>> {
    var up := ToUpper(line, upper);
    match Find(up, "VALUES")
    case None => Some([])
    case Some(k) =>
      match SliceFromByte(line, |Encode(up[..k])| + 6)
      case None => None
      case Some(rest) => Some(Tuples(TUPLES_START, rest))
  }

  method ExtractTuples(line: string, upper: char -> string) returns (results: Option<seq<string>>)
    ensures results == TuplesOf(line, upper)
  {
    hide ToUpper, Find, SliceFromByte, Encode, Tuples;
    var up := ToUpper(line, upper);
    var found := Find(up, "VALUES");
    if found == None {
      return Some([]);
    }
    var slice := SliceFromByte(line, |Encode(up[..found.value])| + 6);
    if slice == None {
      return None;
    }
    var rest := slice.value;
    var out: seq<string> := [];
    var depth, inQuote, escape := 0, false, false;
    var start: Option<nat> := None;
    assert rest[0..] == rest;
    for i := 0 to |rest|
      invariant start.Some? ==> start.value <= i
      invariant Tuples(TUPLES_START, rest) ==
                out + Tuples(TupleScan(depth, inQuote, escape, Since(rest, start, i)), rest[i..])
    {
      var ch := rest[i];
      TuplesUnfold(TupleScan(depth, inQuote, escape, Since(rest, start, i)), rest, i, out);
      SinceGrows(rest, start, i);
      if escape {
        escape := false;
      } else if ch == '\\' && inQuote {
        escape := true;
      } else if ch == '\'' {
        inQuote := !inQuote;
      } else if inQuote {
      } else if ch == '(' {
        depth := depth + 1;
        if depth == 1 {
          start := Some(i + 1);
        }
      } else if ch == ')' {
        depth := depth - 1;
        if depth == 0 {
          if start.Some? {
            out := out + [rest[start.value..i]];
          }
          start := None;
        }
      }
    }
    TuplesEnd(TupleScan(depth, inQuote, escape, Since(rest, start, |rest|)), rest, out);
    return Some(out);
  }

  /** The text since `start`, up to `i`. */
  function Since(rest: string, start: Option<nat>, i: nat): Option<string>
    requires i <= |rest| && (start.Some? ==> start.value <= i)
  {
    match start
    case None => None
    case Some(k) => Some(rest[k..i])
  }

  lemma SinceGrows(rest: string, start: Option<nat>, i: nat)
    requires i < |rest| && (start.Some? ==> start.value <= i)
    ensures Since(rest, start, i + 1) == Grow(Since(rest, start, i), [rest[i]])
    ensures Since(rest, Some(i + 1), i + 1) == Some([])
  {
    if start.Some? {
      assert rest[start.value..i + 1] == rest[start.value..i] + [rest[i]];
    }
    assert rest[i + 1..i + 1] == [];
  }

  lemma TuplesUnfold(st: TupleScan, rest: string, i: nat, out: seq<string>)
    requires i < |rest|
    ensures out + Tuples(st, rest[i..]) ==
            (if Closes(st, rest[i]) then out + [st.open.value] else out) + Tuples(TupleStep(st, rest[i]), rest[i + 1..])
  {
    hide TupleStep;
    assert rest[i..][1..] == rest[i + 1..];
    if Closes(st, rest[i]) {
      Assoc(out, [st.open.value], Tuples(TupleStep(st, rest[i]), rest[i + 1..]));
    } else {
      Assoc(out, [], Tuples(TupleStep(st, rest[i]), rest[i + 1..]));
      assert out + [] == out;
    }
  }

  lemma TuplesEnd(st: TupleScan, rest: string, out: seq<string>)
    ensures out + Tuples(st, rest[|rest|..]) == out
  {
  }

  // ---------------------------------------------------------------- values

  datatype ValueScan = ValueScan(inQuote: bool, escape: bool, current: string)

  const VALUES_START := ValueScan(false, false, [])

  predicate Separates(st: ValueScan, c: char) {
    !st.escape && !st.inQuote && c == ','
  }

  function ValueStep(st: ValueScan, c: char): ValueScan {
    if st.escape then ValueScan(st.inQuote, false, st.current + [c])
    else if c == '\\' && st.inQuote then ValueScan(true, true, st.current + [c])
    else if c == '\'' then st.(inQuote := !st.inQuote)
    else if c == ',' && !st.inQuote then VALUES_START
    else st.(current := st.current + [c])
  }

  function ValueSteps(st: ValueScan, s: string): ValueScan
    decreases |s|
  {
    if s == [] then st else ValueSteps(ValueStep(st, s[0]), s[1..])
  }

  /** The values from here on, trimmed, quotes stripped and escapes kept. */
  function Values(st: ValueScan, s: string): seq<string>
    decreases |s|
  {
    if s == [] then [Trim(st.current)]
    else (if Separates(st, s[0]) then [Trim(st.current)] else []) + Values(ValueStep(st, s[0]), s[1..])
  }

  method ParseTuple(tuple: string) returns (values: seq<string>)
    ensures values == Values(VALUES_START, tuple)
  {
    hide Values, Trim;
    values := [];
    var current: string := [];
    var inQuote, escape := false, false;
    assert tuple[0..] == tuple;
    for i := 0 to |tuple|
      invariant Values(VALUES_START, tuple) == values + Values(ValueScan(inQuote, escape, current), tuple[i..])
    {
      var ch := tuple[i];
      ValuesUnfold(ValueScan(inQuote, escape, current), tuple, i, values);
      if escape {
        current := current + [ch];
        escape := false;
      } else if ch == '\\' && inQuote {
        escape := true;
        current := current + [ch];
      } else if ch == '\'' {
        inQuote := !inQuote;
      } else if ch == ',' && !inQuote {
        values := values + [Trim(current)];
        current := [];
      } else {
        current := current + [ch];
      }
    }
    assert Values(ValueScan(inQuote, escape, current), tuple[|tuple|..]) == [Trim(current)] by {
      ValuesEnd(ValueScan(inQuote, escape, current));
      assert tuple[|tuple|..] == [];
    }
    values := values + [Trim(current)];
  }

  lemma ValuesUnfold(st: ValueScan, tuple: string, i: nat, out: seq<string>)
    requires i < |tuple|
    ensures out + Values(st, tuple[i..]) ==
            (if Separates(st, tuple[i]) then out + [Trim(st.current)] else out) +
            Values(ValueStep(st, tuple[i]), tuple[i + 1..])
  {
    hide ValueStep, Separates, Trim;
    assert tuple[i..][1..] == tuple[i + 1..];
    if Separates(st, tuple[i]) {
      Assoc(out, [Trim(st.current)], Values(ValueStep(st, tuple[i]), tuple[i + 1..]));
    } else {
      Assoc(out, [], Values(ValueStep(st, tuple[i]), tuple[i + 1..]));
      assert out + [] == out;
    }
  }

  lemma ValuesEnd(st: ValueScan)
    ensures Values(st, []) == [Trim(st.current)]
  {
  }

  // ---------------------------------------------------------------- escapes

  function UnescapeChar(c: char): char {
    if c == 'n' then '\n' else if c == 'r' then '\r' else if c == 't' then '\t' else if c == '0' then '\0' else c
  }

  function Unescape(s: string): string {
    if s == [] then []
    else if s[0] != '\\' then [s[0]] + Unescape(s[1..])
    else if |s| == 1 then "\\"
    else [UnescapeChar(s[1])] + Unescape(s[2..])
  }

  /** The four letters that stand for control characters; any other character stands for itself. */
  lemma EscapesMean(c: char)
    ensures Unescape("\\n") == "\n" && Unescape("\\r") == "\r" && Unescape("\\t") == "\t" && Unescape("\\0") == "\0"
    ensures c != 'n' && c != 'r' && c != 't' && c != '0' ==> Unescape(['\\', c]) == [c]
  {
    assert forall s: string | |s| == 2 :: s[2..] == [];
  }

  method UnescapeSql(s: string) returns (result: string)
    ensures result == Unescape(s)
  {
    result := [];
    var i := 0;
    assert s[0..] == s;
    while i < |s|
      invariant i <= |s|
      invariant Unescape(s) == result + Unescape(s[i..])
    {
      var ch := s[i];
      UnescapeUnfold(s, i, result);
      if ch == '\\' {
        if i + 1 < |s| {
          match s[i + 1] {
            case 'n' => result := result + ['\n'];
            case 'r' => result := result + ['\r'];
            case 't' => result := result + ['\t'];
            case '0' => result := result + ['\0'];
            case c => result := result + [c];
          }
          i := i + 2;
        } else {
          result := result + ['\\'];
          i := i + 1;
        }
      } else {
        result := result + [ch];
        i := i + 1;
      }
    }
    assert result + Unescape(s[i..]) == result;
  }

  lemma UnescapeUnfold(s: string, i: nat, out: string)
    requires i < |s|
    ensures out + Unescape(s[i..]) ==
            if s[i] != '\\' then out + [s[i]] + Unescape(s[i + 1..])
            else if i + 1 == |s| then out + ['\\'] + Unescape(s[i + 1..])
            else out + [UnescapeChar(s[i + 1])] + Unescape(s[i + 2..])
  {
    assert s[i..][1..] == s[i + 1..];
    if s[i] != '\\' {
      Assoc(out, [s[i]], Unescape(s[i + 1..]));
    } else if i + 1 == |s| {
      assert s[i + 1..] == [];
      assert out + ['\\'] + [] == out + ['\\'];
    } else {
      assert s[i..][2..] == s[i + 2..];
      Assoc(out, [UnescapeChar(s[i + 1])], Unescape(s[i + 2..]));
    }
  }
}
