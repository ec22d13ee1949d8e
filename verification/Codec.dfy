/** The wire format's loops, proved against the functions of `Protocol` and `Boundary`. */
module Codec {
  import opened Prelude
  import opened Utf8
  import opened Decimal
  import opened Protocol
  import opened Boundary

  const BOUNDARY_FAST_PATH_MAX: nat := 1024

  // ---------------------------------------------------------------- one instruction

  lemma {:induction false} EncodeSnoc(els: seq<string>, last: string)
    requires els != []
    ensures EncodeElements(els + [last]) ==
            EncodeElements(els)[..|EncodeElements(els)| - 1] + "," + EncodeElement(last) + ";"
    decreases |els|
  {
    hide EncodeElement;
    if |els| == 1 {
      assert (els + [last])[1..] == [last];
    } else {
      assert (els + [last])[1..] == els[1..] + [last];
      EncodeSnoc(els[1..], last);
    }
  }

  method EncodeInstruction(i: Instruction) returns (out: string)
    ensures out == EncodeText(i)
  {
    hide EncodeElement;
    out := EncodeElement(i.opcode);
    assert EncodeElements([i.opcode]) == out + ";";
    for k := 0 to |i.args|
      invariant out + ";" == EncodeElements([i.opcode] + i.args[..k])
    {
      EncodeSnoc([i.opcode] + i.args[..k], i.args[k]);
      assert [i.opcode] + i.args[..k] + [i.args[k]] == [i.opcode] + i.args[..k + 1];
      assert (out + ";")[..|out|] == out;
      out := out + ",";
      out := out + EncodeElement(i.args[k]);
    }
    assert i.args[..|i.args|] == i.args;
    out := out + ";";
  }

  /** What parsing the rest yields once `done` has been read. */
  function Prepend(done: seq<string>, rest: Result<seq<string>, ParseError>): Result<seq<string>, ParseError> {
    match rest
    case Err(e) => Err(e)
    case Ok(els) => Ok(done + els)
  }

  lemma PrependNothing(rest: Result<seq<string>, ParseError>)
    ensures Prepend([], rest) == rest
  {
    if rest.Ok? {
      assert [] + rest.value == rest.value;
    }
  }

  lemma PrependStep(done: seq<string>, s: string, n: nat)
    requires IndexOf(s, '.') < |s| && ParseUsize(s[..IndexOf(s, '.')]) == Some(n)
    ensures var rest := s[IndexOf(s, '.') + 1..];
            Prepend(done, ParseElements(s)) ==
              if n > |rest| then Err(Truncated)
              else if n == |rest| then Ok(done + [rest])
              else if rest[n] != ',' then Err(UnexpectedChar)
              else Prepend(done + [rest[..n]], ParseElements(rest[n + 1..]))
  {
    hide ParseUsize;
    var rest := s[IndexOf(s, '.') + 1..];
    if n < |rest| && rest[n] == ',' && ParseElements(rest[n + 1..]).Ok? {
      Assoc(done, [rest[..n]], ParseElements(rest[n + 1..]).value);
    }
  }

  method Parse(data: string) returns (r: ParseResult)
    ensures r == ParseText(data)
  {
    hide ParseElements, ParseUsize, TrimEndSemi, IndexOf;
    var body := TrimEndSemi(data);
    if body == [] {
      return Err(Empty);
    }
    var elements: seq<string> := [];
    var remaining := body;
    PrependNothing(ParseElements(body));
    while true
      invariant ParseElements(body) == Prepend(elements, ParseElements(remaining))
      decreases |remaining|
    {
      var dot := IndexOf(remaining, '.');
      if dot == |remaining| {
        assert ParseElements(remaining) == Err(MalformedElement) by { NoDot(remaining); }
        return Err(MalformedElement);
      }
      var length := ParseUsize(remaining[..dot]);
      if length == None {
        assert ParseElements(remaining) == Err(InvalidLength) by { BadLength(remaining); }
        return Err(InvalidLength);
      }
      PrependStep(elements, remaining, length.value);
      remaining := remaining[dot + 1..];
      assert remaining[..|remaining|] == remaining;
      var end := 0;
      for taken := 0 to length.value
        invariant end == taken <= |remaining|
      {
        if end == |remaining| {
          return Err(Truncated);
        }
        end := end + 1;
      }
      elements := elements + [remaining[..end]];
      remaining := remaining[end..];
      if remaining == [] {
        break;
      }
      if remaining[0] != ',' {
        return Err(UnexpectedChar);
      }
      remaining := remaining[1..];
    }
    return Ok(Instruction(elements[0], elements[1..]));
  }

  lemma NoDot(s: string)
    requires IndexOf(s, '.') == |s|
    ensures ParseElements(s) == Err(MalformedElement)
  {
  }

  lemma BadLength(s: string)
    requires IndexOf(s, '.') < |s| && ParseUsize(s[..IndexOf(s, '.')]) == None
    ensures ParseElements(s) == Err(InvalidLength)
  {
  }

  // ---------------------------------------------------------------- the boundary

  /** A length prefix as the scan reads it: the digits as text, then as a `usize`. */
  function ParseLength(digits: seq<Byte>): Option<nat> {
    match Decode(digits)
    case None => None
    case Some(s) => ParseUsize(s)
  }

  lemma ParseLengthOfDigits(digits: seq<Byte>)
    requires digits != [] && AllDigits(digits)
    ensures ParseLength(digits) ==
            if 0 <= Value(digits) < USIZE_MODULUS then Some(Value(digits)) else None
  {
    hide Encode, Decode, Value;
    var s := seq(|digits|, i requires 0 <= i < |digits| => digits[i] as char);
    assert Codes(s) == digits;
    EncodeAscii(s);
    DecodeEncode(s);
    ValueNonNegative(digits);
    assert IsDigit(digits[0]);
  }

  function BoundaryOf(buf: seq<Byte>): Option<nat> {
    if Scan(buf) == 0 then None else Some(Scan(buf))
  }

  lemma SliceSlice<T>(s: seq<T>, i: nat, j: nat)
    requires i + j <= |s|
    ensures s[i..][j..] == s[i + j..] && s[i..][..j] == s[i..i + j]
  {
  }

  /** Reads the digits and the dot at `start`; `next` is the start of the element's data. */
  method ReadLength(buf: seq<Byte>, start: nat) returns (r: Option<(nat, nat)>)
    requires start <= |buf|
    ensures match r
            case None => ElementEnd(buf[start..]) == None
            case Some((len, next)) =>
              && start < next <= |buf|
              && ElementEnd(buf[start..]) == Shift(SkipChars(buf[next..], len), next - start)
  {
    hide SkipChars, Value, ParseLength;
    var pos := start;
    while pos < |buf| && IsDigit(buf[pos])
      invariant start <= pos <= |buf|
      invariant DigitRun(buf[start..]) == pos - start + DigitRun(buf[pos..])
    {
      SliceSlice(buf, pos, 1);
      pos := pos + 1;
    }
    assert DigitRun(buf[start..]) == pos - start;
    if pos == start || pos >= |buf| || buf[pos] != DOT {
      return None;
    }
    SliceSlice(buf, start, pos - start);
    SliceSlice(buf, start, pos + 1 - start);
    var digits := buf[start..pos];
    DigitRunExact(buf[start..], pos - start);
    ParseLengthOfDigits(digits);
    var length := ParseLength(digits);
    if length == None {
      return None;
    }
    return Some((length.value, pos + 1));
  }

  lemma SkipStep(buf: seq<Byte>, pos: nat, n: nat)
    requires pos <= |buf| && n > 0
    ensures Shift(SkipChars(buf[pos..], n), pos) ==
            if pos == |buf| || Width(buf[pos]) == 0 || pos + Width(buf[pos]) > |buf| then None
            else Shift(SkipChars(buf[pos + Width(buf[pos])..], n - 1), pos + Width(buf[pos]))
  {
    hide Width;
    if pos < |buf| && pos + Width(buf[pos]) <= |buf| {
      SliceSlice(buf, pos, Width(buf[pos]));
    }
  }

  /** Skips `len` characters from `start`, octet by octet. */
  method SkipElement(buf: seq<Byte>, start: nat, len: nat) returns (r: Option<nat>)
    requires start <= |buf|
    ensures r == Shift(SkipChars(buf[start..], len), start)
  {
    hide SkipChars;
    var pos, skipped := start, 0;
    while skipped < len
      invariant start <= pos <= |buf| && skipped <= len
      invariant Shift(SkipChars(buf[start..], len), start) == Shift(SkipChars(buf[pos..], len - skipped), pos)
    {
      SkipStep(buf, pos, len - skipped);
      if pos >= |buf| {
        return None;
      }
      var b := buf[pos];
      var charLen := if b < 0x80 then 1 else if b < 0xC0 then 0 else if b < 0xE0 then 2 else if b < 0xF0 then 3 else 4;
      if charLen == 0 {
        return None;
      }
      if pos + charLen > |buf| {
        return None;
      }
      pos := pos + charLen;
      skipped := skipped + 1;
    }
    assert SkipChars(buf[pos..], 0) == Some(0) by { SkipNone(buf[pos..]); }
    return Some(pos);
  }

  lemma SkipNone(b: seq<Byte>)
    ensures SkipChars(b, 0) == Some(0)
  {
  }

  lemma WalkStep(buf: seq<Byte>, pos: nat)
    requires pos <= |buf|
    ensures Shift(InstructionEnd(buf[pos..]), pos) ==
            match ElementEnd(buf[pos..])
            case None => None
            case Some(k) =>
              if pos + k == |buf| then None
              else if buf[pos + k] == SEMI then Some(pos + k + 1)
              else if buf[pos + k] == COMMA then Shift(InstructionEnd(buf[pos + k + 1..]), pos + k + 1)
              else None
  {
    hide ElementEnd;
    if ElementEnd(buf[pos..]).Some? && pos + ElementEnd(buf[pos..]).value < |buf| {
      SliceSlice(buf, pos, ElementEnd(buf[pos..]).value + 1);
    }
  }

  /** The walk over one instruction: elements up to the first one that ends in `;`. */
  method WalkInstruction(buf: seq<Byte>, start: nat) returns (r: Option<nat>)
    requires start <= |buf|
    ensures r == Shift(InstructionEnd(buf[start..]), start)
  {
    hide ElementEnd, SkipChars, InstructionEnd;
    var pos := start;
    while true
      invariant start <= pos <= |buf|
      invariant Shift(InstructionEnd(buf[start..]), start) == Shift(InstructionEnd(buf[pos..]), pos)
      decreases |buf| - pos
    {
      WalkStep(buf, pos);
      var prefix := ReadLength(buf, pos);
      if prefix == None {
        return None;
      }
      var (len, data) := prefix.value;
      var end := SkipElement(buf, data, len);
      if end == None {
        return None;
      }
      pos := end.value;
      if pos >= |buf| {
        return None;
      }
      if buf[pos] == COMMA {
        pos := pos + 1;
      } else if buf[pos] == SEMI {
        return Some(pos + 1);
      } else {
        return None;
      }
    }
  }

  /** The full scan: it stops at the first byte that cannot continue an instruction. */
  method FullScan(buf: seq<Byte>) returns (r: Option<nat>)
    ensures r == BoundaryOf(buf)
  {
    hide InstructionEnd;
    var lastEnd: Option<nat> := None;
    var pos := 0;
    assert buf[0..] == buf;
    while true
      invariant pos <= |buf| && lastEnd == if pos == 0 then None else Some(pos)
      invariant Scan(buf) == pos + Scan(buf[pos..])
      decreases |buf| - pos
    {
      var end := WalkInstruction(buf, pos);
      if end == None {
        return lastEnd;
      }
      SliceSlice(buf, pos, end.value - pos);
      pos := end.value;
      lastEnd := Some(pos);
      if pos >= |buf| {
        return lastEnd;
      }
    }
  }

  // ---------------------------------------------------------------- the fast path

  predicate AllAscii(buf: seq<Byte>) {
    forall i | 0 <= i < |buf| :: buf[i] < 0x80
  }

  /** The buffer is one or more instructions and nothing else. */
  predicate Complete(buf: seq<Byte>) {
    buf != [] && Scan(buf) == |buf|
  }

  lemma {:induction false} SkipAscii(b: seq<Byte>, n: nat)
    requires AllAscii(b)
    ensures SkipChars(b, n) == if n <= |b| then Some(n) else None
    decreases n
  {
    if n > 0 && b != [] {
      SkipAscii(b[1..], n - 1);
    }
  }

  lemma CompleteStep(b: seq<Byte>, k: nat)
    requires ElementEnd(b) == Some(k)
    ensures k == |b| ==> !Complete(b)
    ensures k < |b| && b[k] == COMMA ==> (Complete(b) <==> Complete(b[k + 1..]))
    ensures k < |b| && b[k] == SEMI ==> (Complete(b) <==> k + 1 == |b| || Complete(b[k + 1..]))
    ensures k < |b| && b[k] != COMMA && b[k] != SEMI ==> !Complete(b)
  {
    hide ElementEnd;
    if k < |b| && b[k] == COMMA {
      var rest := b[k + 1..];
      if InstructionEnd(rest).Some? {
        SliceSlice(b, k + 1, InstructionEnd(rest).value);
      }
    }
  }

  /** The structural walk: on ASCII, each element is skipped by its declared length alone. */
  method FastInstructionBoundary(buf: seq<Byte>) returns (r: Option<nat>)
    requires AllAscii(buf) && |buf| < USIZE_MODULUS
    ensures r == if Complete(buf) then Some(|buf|) else None
  {
    hide ElementEnd, InstructionEnd, SkipChars, Scan, Complete, AllAscii;
    var pos := 0;
    assert buf[0..] == buf;
    while true
      invariant pos <= |buf|
      invariant Complete(buf) <==> Complete(buf[pos..])
      decreases |buf| - pos
    {
      var prefix := ReadLength(buf, pos);
      if prefix == None {
        NoElement(buf[pos..]);
        return None;
      }
      var (len, data) := prefix.value;
      if data + len >= USIZE_MODULUS {
        FastSkip(buf, pos, data, len);
        return None;
      }
      FastSkip(buf, pos, data, len);
      ghost var b := buf[pos..];
      ghost var k := data + len - pos;
      if data + len >= |buf| {
        return None;
      }
      CompleteStep(b, k);
      SliceSlice(buf, pos, k + 1);
      pos := data + len;
      if buf[pos] == COMMA {
        pos := pos + 1;
      } else if buf[pos] == SEMI {
        pos := pos + 1;
        if pos == |buf| {
          return Some(|buf|);
        }
      } else {
        return None;
      }
    }
  }

  lemma NoElement(b: seq<Byte>)
    requires ElementEnd(b) == None
    ensures !Complete(b)
  {
    hide ElementEnd;
  }

  lemma FastSkip(buf: seq<Byte>, pos: nat, data: nat, len: nat)
    requires AllAscii(buf) && pos < data <= |buf| < USIZE_MODULUS
    requires ElementEnd(buf[pos..]) == Shift(SkipChars(buf[data..], len), data - pos)
    ensures data + len >= |buf| ==> !Complete(buf[pos..])
    ensures data + len < |buf| ==> ElementEnd(buf[pos..]) == Some(data + len - pos)
  {
    hide ElementEnd, SkipChars;
    SkipAscii(buf[data..], len);
    if data + len == |buf| {
      CompleteStep(buf[pos..], |buf| - pos);
    } else if data + len > |buf| {
      NoElement(buf[pos..]);
    }
  }

  /** The fast path never changes the answer: this is the full scan on every buffer. */
  method LastInstructionBoundary(buf: seq<Byte>) returns (r: Option<nat>)
    ensures r == BoundaryOf(buf)
  {
    if |buf| < BOUNDARY_FAST_PATH_MAX && buf != [] && buf[|buf| - 1] == SEMI && AllAscii(buf) {
      var fast := FastInstructionBoundary(buf);
      if fast.Some? {
        return Some(|buf|);
      }
    }
    r := FullScan(buf);
  }
}
