/** The streaming parser: it frames on the first `;` and holds what comes after the last one. */
module Streaming {
  import opened Prelude
  import opened Utf8
  import opened Protocol
  import opened Boundary
  import opened Decimal
  import Codec

  const MAX_PROTOCOL_BUFFER_LEN: nat := 1_048_576

  datatype Drained = Drained(results: seq<ParseResult>, held: seq<Byte>)

  function ParseFrame(frame: seq<Byte>): ParseResult {
    match Decode(frame)
    case None => Err(MalformedElement)
    case Some(text) => ParseText(text)
  }

  /** Every frame that a `;` closes, parsed in order, and the bytes that are left. */
  function Drain(b: seq<Byte>): Drained
    decreases |b|
  {
    var k := IndexOf(b, SEMI);
    if k == |b| then Drained([], b) else
      var rest := Drain(b[k + 1..]);
      Drained([ParseFrame(b[..k])] + rest.results, rest.held)
  }

  /** One call: data over the cap clears the buffer and yields nothing. */
  function Receive(held: seq<Byte>, data: string): Drained {
    var b := held + Encode(data);
    if |b| > MAX_PROTOCOL_BUFFER_LEN then Drained([], []) else Drain(b)
  }

  /** A run of calls and the results they return, in order. */
  function Feed(held: seq<Byte>, chunks: seq<string>): Drained
    decreases |chunks|
  {
    if chunks == [] then Drained([], held) else
      var first := Receive(held, chunks[0]);
      var rest := Feed(first.held, chunks[1..]);
      Drained(first.results + rest.results, rest.held)
  }

  /** No call of the run pushes the held bytes past the cap. */
  ghost predicate WithinCap(held: seq<Byte>, chunks: seq<string>)
    decreases |chunks|
  {
    chunks == [] || (
      && |held| + |Encode(chunks[0])| <= MAX_PROTOCOL_BUFFER_LEN
      && WithinCap(Receive(held, chunks[0]).held, chunks[1..]))
  }

  class InstructionParser {
    var buffer: seq<Byte>

    /** Between calls the buffer holds whole characters and no `;`. */
    ghost predicate Valid()
      reads this
    {
      SEMI !in buffer && exists text :: buffer == Encode(text)
    }

    constructor ()
      ensures Valid() && buffer == []
    {
      buffer := [];
      new;
      assert buffer == Encode([]);
    }

    method ReceiveData(data: string) returns (results: seq<ParseResult>)
      requires Valid()
      modifies this
      ensures Valid()
      ensures Drained(results, buffer) == Receive(old(buffer), data)
    {
      hide Drain, ParseFrame, Encode;
      ghost var text :| buffer == Encode(text);
      EncodeConcat(text, data);
      buffer := buffer + Encode(data);
      ghost var whole := buffer;
      HeldIsText(text + data);
      if |buffer| > MAX_PROTOCOL_BUFFER_LEN {
        buffer := [];
        assert buffer == Encode([]) by { EncodeNothing(); }
        return [];
      }
      results := [];
      while SEMI in buffer
        invariant Drain(whole) == Drained(results + Drain(buffer).results, Drain(buffer).held)
        decreases |buffer|
      {
        var semiPos := IndexOf(buffer, SEMI);
        DrainFirst(buffer, results);
        var frame := buffer[..semiPos];
        buffer := buffer[semiPos + 1..];
        var decoded := Decode(frame);
        if decoded == None {
          results := results + [Err(MalformedElement)];
        } else {
          var parsed := Codec.Parse(decoded.value);
          results := results + [parsed];
        }
        FrameCases(frame);
      }
      DrainNone(buffer);
    }
  }

  lemma FrameCases(frame: seq<Byte>)
    ensures ParseFrame(frame) == match Decode(frame) case None => Err(MalformedElement) case Some(t) => ParseText(t)
  {
  }

  lemma DrainNone(b: seq<Byte>)
    requires SEMI !in b
    ensures Drain(b) == Drained([], b)
  {
  }

  lemma DrainUnfold(b: seq<Byte>)
    requires SEMI in b
    ensures var k := IndexOf(b, SEMI);
            && k < |b|
            && Drain(b) == Drained([ParseFrame(b[..k])] + Drain(b[k + 1..]).results, Drain(b[k + 1..]).held)
  {
    hide ParseFrame, IndexOf;
  }

  lemma DrainFirst(b: seq<Byte>, before: seq<ParseResult>)
    requires SEMI in b
    ensures var k := IndexOf(b, SEMI);
            && k < |b|
            && Drain(b).held == Drain(b[k + 1..]).held
            && before + Drain(b).results == before + [ParseFrame(b[..k])] + Drain(b[k + 1..]).results
  {
    hide Drain, ParseFrame, IndexOf;
    DrainUnfold(b);
    var k := IndexOf(b, SEMI);
    Assoc(before, [ParseFrame(b[..k])], Drain(b[k + 1..]).results);
  }

  // ---------------------------------------------------------------- chunks

  lemma {:induction false} HeldHasNoSemi(b: seq<Byte>)
    ensures SEMI !in Drain(b).held
    decreases |b|
  {
    hide ParseFrame;
    var k := IndexOf(b, SEMI);
    if k < |b| {
      HeldHasNoSemi(b[k + 1..]);
    }
  }

  lemma {:induction false} DrainConcat(a: seq<Byte>, b: seq<Byte>)
    ensures Drain(a + b) == Drained(
        Drain(a).results + Drain(Drain(a).held + b).results,
        Drain(Drain(a).held + b).held)
    decreases |a|
  {
    hide Drain, ParseFrame, IndexOf;
    var k := IndexOf(a, SEMI);
    if k == |a| {
      DrainNone(a);
    } else {
      assert (a + b)[..k] == a[..k] && (a + b)[k + 1..] == a[k + 1..] + b;
      IndexOfUnique(a + b, SEMI, k);
      DrainUnfold(a);
      DrainUnfold(a + b);
      DrainConcat(a[k + 1..], b);
      Assoc([ParseFrame(a[..k])], Drain(a[k + 1..]).results, Drain(Drain(a).held + b).results);
    }
  }

  /** A run of calls that stays within the cap gives what one pass over the whole text gives. */
  lemma {:induction false} ChunkIndependent(held: seq<Byte>, chunks: seq<string>)
    requires SEMI !in held && WithinCap(held, chunks)
    ensures Feed(held, chunks) == Drain(held + Encode(Concat(chunks)))
    decreases |chunks|
  {
    hide Drain, Encode;
    if chunks == [] {
      EncodeNothing();
      assert held + Encode(Concat(chunks)) == held;
      DrainNone(held);
    } else {
      var head, tail := Encode(chunks[0]), Encode(Concat(chunks[1..]));
      var first := Receive(held, chunks[0]);
      HeldHasNoSemi(held + head);
      ChunkIndependent(first.held, chunks[1..]);
      EncodeConcat(chunks[0], Concat(chunks[1..]));
      Assoc(held, head, tail);
      DrainConcat(held + head, tail);
    }
  }

  /** Two ways of cutting the same text give the same results and hold the same tail. */
  lemma AnyTwoSplits(a: seq<string>, b: seq<string>)
    requires Concat(a) == Concat(b)
    requires WithinCap([], a) && WithinCap([], b)
    ensures Feed([], a) == Feed([], b)
  {
    ChunkIndependent([], a);
    ChunkIndependent([], b);
  }

  // ---------------------------------------------------------------- text

  datatype Framed = Framed(frames: seq<string>, tail: string)

  /** The text between semicolons. */
  function SplitSemi(text: string): Framed
    decreases |text|
  {
    var k := IndexOf(text, ';');
    if k == |text| then Framed([], text) else
      var rest := SplitSemi(text[k + 1..]);
      Framed([text[..k]] + rest.frames, rest.tail)
  }

  function ParseAll(frames: seq<string>): seq<ParseResult> {
    if frames == [] then [] else [ParseText(frames[0])] + ParseAll(frames[1..])
  }

  lemma FrameOfText(text: string)
    ensures ParseFrame(Encode(text)) == ParseText(text)
  {
    DecodeEncode(text);
  }

  lemma FirstSemi(text: string)
    requires ';' in text
    ensures var k := IndexOf(text, ';');
            && k < |text|
            && IndexOf(Encode(text), SEMI) == |Encode(text[..k])|
            && Encode(text) == Encode(text[..k]) + [SEMI] + Encode(text[k + 1..])
  {
    hide Encode;
    var k := IndexOf(text, ';');
    var front, back := text[..k], text[k + 1..];
    assert text == front + [';'] + back by { SplitAt(text, k); }
    EncodeConcat(front + [';'], back);
    EncodeConcat(front, [';']);
    EncodeOne(';');
    AsciiOctets(front, ';');
    var b := Encode(text);
    assert b[..|Encode(front)|] == Encode(front);
    IndexOfUnique(b, SEMI, |Encode(front)|);
  }

  /**
   On the bytes of a text, the frames are the texts between semicolons: no frame starts or ends
   inside a character, so the parser never meets a frame that is not UTF-8.
   */
  lemma {:induction false} DrainText(text: string)
    ensures Drain(Encode(text)) == Drained(ParseAll(SplitSemi(text).frames), Encode(SplitSemi(text).tail))
    decreases |text|
  {
    hide Encode, ParseFrame, ParseText;
    AsciiOctets(text, ';');
    if ';' in text {
      FirstSemi(text);
      var k := IndexOf(text, ';');
      var b, front := Encode(text), Encode(text[..k]);
      assert b[..|front|] == front && b[|front| + 1..] == Encode(text[k + 1..]);
      FrameOfText(text[..k]);
      DrainText(text[k + 1..]);
      var rest := SplitSemi(text[k + 1..]);
      assert ([text[..k]] + rest.frames)[1..] == rest.frames;
    } else {
      DrainNone(Encode(text));
    }
  }

  lemma HeldIsText(text: string)
    ensures SEMI !in Drain(Encode(text)).held
    ensures exists tail :: Drain(Encode(text)).held == Encode(tail)
  {
    HeldHasNoSemi(Encode(text));
    DrainText(text);
  }

  // ---------------------------------------------------------------- instructions

  /** No element of any instruction contains a `;`. */
  ghost predicate NoSemi(instructions: seq<Instruction>) {
    forall i | 0 <= i < |instructions| :: SemiFree(instructions[i].Elements())
  }

  ghost predicate SemiFree(els: seq<string>) {
    forall i | 0 <= i < |els| :: ';' !in els[i]
  }

  function AllOk(instructions: seq<Instruction>): seq<ParseResult> {
    seq(|instructions|, i requires 0 <= i < |instructions| => Ok(instructions[i]))
  }

  lemma {:induction false} SemisInElements(els: seq<string>)
    requires els != []
    ensures var text := EncodeElements(els);
            text != [] && text[|text| - 1] == ';' && (';' !in text[..|text| - 1] <==> SemiFree(els))
    decreases |els|
  {
    hide Digits;
    var text := EncodeElements(els);
    NumeralHasNoSemi(|els[0]|);
    assert ';' in EncodeElement(els[0]) <==> ';' in els[0];
    if |els| == 1 {
      assert text[..|text| - 1] == EncodeElement(els[0]);
    } else {
      SemisInElements(els[1..]);
      var rest := EncodeElements(els[1..]);
      assert text[..|text| - 1] == EncodeElement(els[0]) + "," + rest[..|rest| - 1];
      assert SemiFree(els) <==> ';' !in els[0] && SemiFree(els[1..]);
    }
  }

  lemma NumeralHasNoSemi(n: nat)
    ensures ';' !in Digits(n)
  {
    hide Value;
    var s := Digits(n);
    forall i | 0 <= i < |s| ensures s[i] != ';' {
      assert IsDigit(Codes(s)[i]);
    }
  }

  /** One semicolon-free instruction at the front of the buffer is framed and parsed whole. */
  lemma DrainWire(i: Instruction, more: seq<Byte>)
    requires i.Representable() && SemiFree(i.Elements())
    ensures Drain(Wire(i) + more) == Drained([Ok(i)] + Drain(more).results, Drain(more).held)
  {
    hide Encode, ParseText, EncodeElements;
    var text := EncodeText(i);
    SemisInElements(i.Elements());
    var body := text[..|text| - 1];
    assert text == body + [';'];
    EncodeConcat(body, [';']);
    EncodeOne(';');
    AsciiOctets(body, ';');
    var b := Wire(i) + more;
    assert b[..|Encode(body)|] == Encode(body) && b[|Encode(body)| + 1..] == more;
    IndexOfUnique(b, SEMI, |Encode(body)|);
    FrameOfText(body);
    assert ParseText(body) == ParseText(text) by { ParseIgnoresTerminator(body); }
    assert ParseText(text) == Ok(i) by {
      assert i.Last() == i.Elements()[|i.args|];
      RoundTrip(i);
    }
  }

  lemma ParseIgnoresTerminator(body: string)
    ensures ParseText(body + [';']) == ParseText(body)
  {
    hide ParseElements;
    assert (body + [';'])[..|body|] == body;
  }

  lemma {:induction false} DrainCount(b: seq<Byte>)
    ensures |Drain(b).results| == multiset(b)[SEMI]
    decreases |b|
  {
    hide ParseFrame;
    var k := IndexOf(b, SEMI);
    if k < |b| {
      SplitAt(b, k);
      DrainCount(b[k + 1..]);
      assert multiset(b) == multiset(b[..k]) + multiset{SEMI} + multiset(b[k + 1..]);
    }
  }

  lemma WireCount(i: Instruction)
    ensures multiset(Wire(i))[SEMI] >= 1
    ensures multiset(Wire(i))[SEMI] == 1 <==> SemiFree(i.Elements())
  {
    hide Encode, EncodeElements, SemiFree;
    var text := EncodeText(i);
    SemisInElements(i.Elements());
    var body := text[..|text| - 1];
    assert text == body + [';'];
    EncodeConcat(body, [';']);
    EncodeOne(';');
    AsciiOctets(body, ';');
    assert multiset(Wire(i)) == multiset(Encode(body)) + multiset{SEMI};
  }

  lemma {:induction false} WireStreamCount(instructions: seq<Instruction>)
    ensures multiset(WireStream(instructions))[SEMI] >= |instructions|
    ensures multiset(WireStream(instructions))[SEMI] == |instructions| ==> NoSemi(instructions)
  {
    hide Wire, SemiFree;
    if instructions != [] {
      var i, rest := instructions[0], instructions[1..];
      WireCount(i);
      WireStreamCount(rest);
      assert multiset(WireStream(instructions)) == multiset(Wire(i)) + multiset(WireStream(rest));
      assert forall k | 0 < k < |instructions| :: instructions[k] == rest[k - 1];
    }
  }

  lemma {:induction false} DrainWireStream(instructions: seq<Instruction>)
    requires forall j | 0 <= j < |instructions| :: instructions[j].Representable()
    requires NoSemi(instructions)
    ensures Drain(WireStream(instructions)) == Drained(AllOk(instructions), [])
  {
    hide Drain, Wire, SemiFree;
    if instructions == [] {
      DrainNone([]);
    } else {
      DrainWire(instructions[0], WireStream(instructions[1..]));
      DrainWireStream(instructions[1..]);
      assert AllOk(instructions) == [Ok(instructions[0])] + AllOk(instructions[1..]);
    }
  }

  /**
   A stream of encoded instructions comes back as those instructions exactly when no element of
   any of them contains a `;`: the streaming parser frames on the first `;` and not by length.
   */
  lemma StreamRoundTrip(instructions: seq<Instruction>)
    requires forall j | 0 <= j < |instructions| :: instructions[j].Representable()
    ensures Drain(WireStream(instructions)).results == AllOk(instructions) <==> NoSemi(instructions)
    ensures NoSemi(instructions) ==> Drain(WireStream(instructions)).held == []
  {
    hide Drain, WireStream, NoSemi;
    if NoSemi(instructions) {
      DrainWireStream(instructions);
    }
    DrainCount(WireStream(instructions));
    WireStreamCount(instructions);
  }
}
