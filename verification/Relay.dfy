/**
 The relay from guacd to the browser: each read is appended to a carry, the carry is flushed up
 to its last instruction boundary, and the rest waits for the next read.
 */
module Relay {
  import opened Prelude
  import opened Utf8
  import opened Boundary
  import opened Decimal
  import Codec

  const MAX_GUACD_CARRY: nat := 16 * 1024 * 1024

  type Bytes = seq<Byte>

  datatype Sent = Sent(messages: seq<Bytes>, carry: Bytes)

  /** One read: the messages it sends (none or one) and the new carry. */
  function Step(carry: Bytes, data: Bytes): Sent {
    var b := carry + data;
    var e := Scan(b);
    if e > 0 then Sent([b[..e]], b[e..])
    else if |b| > MAX_GUACD_CARRY then Sent([b], [])
    else Sent([], b)
  }

  /** What a read hands to the browser: only UTF-8 can be sent as text. */
  function AsText(messages: seq<Bytes>): Result<Option<string>, Bytes> {
    if messages == [] then Ok(None) else
    match Decode(messages[0])
    case None => Err(messages[0])
    case Some(text) => Ok(Some(text))
  }

  function Run(carry: Bytes, inputs: seq<Bytes>): Sent
    decreases |inputs|
  {
    if inputs == [] then Sent([], carry) else
      var first := Step(carry, inputs[0]);
      var rest := Run(first.carry, inputs[1..]);
      Sent(first.messages + rest.messages, rest.carry)
  }

  /** No read of the run finds an oversized carry without a boundary in it. */
  ghost predicate NeverForced(carry: Bytes, inputs: seq<Bytes>)
    decreases |inputs|
  {
    inputs == [] || (
      && (Scan(carry + inputs[0]) > 0 || |carry + inputs[0]| <= MAX_GUACD_CARRY)
      && NeverForced(Step(carry, inputs[0]).carry, inputs[1..]))
  }

  class GuacdRelay {
    var carry: Bytes

    constructor ()
      ensures carry == []
    {
      carry := [];
    }

    /** One turn of the loop; an `Err` ends the relay with the bytes that are not UTF-8. */
    method OnRead(data: Bytes) returns (sent: Result<Option<string>, Bytes>)
      modifies this
      ensures sent == AsText(Step(old(carry), data).messages)
      ensures carry == Step(old(carry), data).carry
      ensures match sent
              case Ok(None) => old(carry) + data == carry
              case Ok(Some(text)) => old(carry) + data == Encode(text) + carry
              case Err(bytes) => old(carry) + data == bytes + carry && Decode(bytes) == None
    {
      hide Scan, Decode;
      carry := carry + data;
      var flushed;
      var boundary := Codec.LastInstructionBoundary(carry);
      if boundary.Some? {
        flushed, carry := carry[..boundary.value], carry[boundary.value..];
      } else if |carry| > MAX_GUACD_CARRY {
        flushed, carry := carry, [];
      } else {
        return Ok(None);
      }
      var text := Decode(flushed);
      sent := if text.Some? then Ok(Some(text.value)) else Err(flushed);
    }
  }

  /** Nothing is lost, repeated or reordered, whatever guacd sends and however it is cut. */
  lemma {:induction false} RelayConserves(carry: Bytes, inputs: seq<Bytes>)
    ensures Concat(Run(carry, inputs).messages) + Run(carry, inputs).carry == carry + Concat(inputs)
    decreases |inputs|
  {
    hide Scan;
    if inputs != [] {
      var b := carry + inputs[0];
      var first := Step(carry, inputs[0]);
      assert Concat(first.messages) + first.carry == b by {
        if first.messages != [] {
          assert first.messages[1..] == [];
          assert Concat(first.messages) == first.messages[0];
        }
      }
      RelayConserves(first.carry, inputs[1..]);
      var rest := Run(first.carry, inputs[1..]);
      ConcatSplit(first.messages, rest.messages);
      Assoc(Concat(first.messages), Concat(rest.messages), rest.carry);
      Assoc(Concat(first.messages), first.carry, Concat(inputs[1..]));
      Assoc(carry, inputs[0], Concat(inputs[1..]));
    }
  }

  /** Every message of an unforced run is one or more whole instructions. */
  lemma {:induction false} MessagesAreStreams(carry: Bytes, inputs: seq<Bytes>, m: nat)
    requires NeverForced(carry, inputs) && m < |Run(carry, inputs).messages|
    ensures Run(carry, inputs).messages[m] != [] && IsStream(Run(carry, inputs).messages[m])
    decreases |inputs|
  {
    hide Scan, IsStream;
    var first := Step(carry, inputs[0]);
    if m < |first.messages| {
      ScanIsStream(carry + inputs[0]);
    } else {
      MessagesAreStreams(first.carry, inputs[1..], m - |first.messages|);
    }
  }

  lemma ScanTail(b: Bytes)
    ensures Scan(b[Scan(b)..]) == 0
  {
    hide Scan;
    ScanIncremental(b, []);
    assert b + [] == b && b[Scan(b)..] + [] == b[Scan(b)..];
  }

  /**
   An unforced run sends exactly the bytes up to the last boundary of everything read so far, as
   one scan of the whole input would find it; how the input was cut into reads does not matter.
   */
  lemma {:induction false} RelayIsWholeScan(carry: Bytes, inputs: seq<Bytes>)
    requires Scan(carry) == 0 && NeverForced(carry, inputs)
    ensures var all := carry + Concat(inputs);
            && Concat(Run(carry, inputs).messages) == all[..Scan(all)]
            && Run(carry, inputs).carry == all[Scan(all)..]
    decreases |inputs|
  {
    hide Scan;
    var all := carry + Concat(inputs);
    if inputs == [] {
      assert all == carry;
    } else {
      var b, later := carry + inputs[0], Concat(inputs[1..]);
      var first := Step(carry, inputs[0]);
      assert first.carry == b[Scan(b)..];
      ScanTail(b);
      RelayIsWholeScan(first.carry, inputs[1..]);
      Assoc(carry, inputs[0], later);
      ScanIncremental(b, later);
    }
    RelayConserves(carry, inputs);
    var sent := Run(carry, inputs);
    assert |sent.carry| == |all| - Scan(all);
    assert Concat(sent.messages) == (Concat(sent.messages) + sent.carry)[..Scan(all)];
    assert sent.carry == (Concat(sent.messages) + sent.carry)[Scan(all)..];
  }

  // ---------------------------------------------------------------- UTF-8

  /** `e` octets of the encoding of `text` are whole characters. */
  ghost predicate OnCharacter(text: string, e: nat) {
    exists j: nat :: j <= |text| && e == |Encode(text[..j])|
  }

  lemma {:induction false} EncodeLength(text: string, j: nat)
    requires j <= |text|
    ensures Encode(text) == Encode(text[..j]) + Encode(text[j..])
  {
    EncodeConcat(text[..j], text[j..]);
    assert text == text[..j] + text[j..];
  }

  lemma OnCharacterAdd(text: string, j: nat, e: nat)
    requires j <= |text| && OnCharacter(text[j..], e)
    ensures OnCharacter(text, |Encode(text[..j])| + e)
  {
    hide Encode;
    var i: nat :| i <= |text[j..]| && e == |Encode(text[j..][..i])|;
    assert text[..j + i] == text[..j] + text[j..][..i];
    EncodeConcat(text[..j], text[j..][..i]);
  }

  /** A prefix that starts with an ASCII octet is at a character, and so is what follows it. */
  lemma AsciiStep(text: string, c: nat)
    requires 0 < c <= |Encode(text)| && Encode(text)[0] < 0x80
    ensures text != [] && Encode(text[..1]) == [Encode(text)[0]]
    ensures Encode(text)[..c][1..] == Encode(text[1..])[..c - 1] && c - 1 <= |Encode(text[1..])|
  {
    EncodeLength(text, 1);
    EncodeOne(text[0]);
    assert text[..1] == [text[0]];
  }

  lemma {:induction false} DigitsOnCharacter(text: string, c: nat)
    requires c <= |Encode(text)|
    ensures var k := DigitRun(Encode(text)[..c]);
            k <= |text| && |Encode(text[..k])| == k
    decreases |text|
  {
    hide Encode;
    var b := Encode(text)[..c];
    if b != [] && IsDigit(b[0]) {
      AsciiStep(text, c);
      DigitsOnCharacter(text[1..], c - 1);
      var k := DigitRun(b) - 1;
      assert text[..k + 1] == text[..1] + text[1..][..k];
      EncodeConcat(text[..1], text[1..][..k]);
    } else {
      assert text[..0] == [];
      EncodeNothing();
    }
  }

  lemma {:induction false} SkipOnCharacter(text: string, c: nat, n: nat)
    requires c <= |Encode(text)| && SkipChars(Encode(text)[..c], n).Some?
    ensures n <= |text| && SkipChars(Encode(text)[..c], n).value == |Encode(text[..n])|
    decreases n
  {
    hide EncodeChar;
    if n > 0 {
      var e := EncodeChar(text[0]);
      var b := Encode(text)[..c];
      assert b[0] == e[0];
      assert b[|e|..] == Encode(text[1..])[..c - |e|];
      SkipOnCharacter(text[1..], c - |e|, n - 1);
      assert text[..n][1..] == text[1..][..n - 1];
    }
  }

  /** The rest of a text after its first `j` characters, cut at the same octet. */
  lemma RestOf(text: string, c: nat, j: nat)
    requires j <= |text| && |Encode(text[..j])| <= c <= |Encode(text)|
    ensures c - |Encode(text[..j])| <= |Encode(text[j..])|
    ensures Encode(text)[..c][|Encode(text[..j])|..] == Encode(text[j..])[..c - |Encode(text[..j])|]
  {
    hide Encode;
    EncodeLength(text, j);
  }

  lemma ElementOnCharacter(text: string, c: nat) returns (j: nat)
    requires c <= |Encode(text)| && ElementEnd(Encode(text)[..c]).Some?
    ensures j <= |text| && ElementEnd(Encode(text)[..c]).value == |Encode(text[..j])|
  {
    hide Encode, SkipChars, Value, DigitRun;
    var b := Encode(text)[..c];
    var k := DigitRun(b);
    DigitsOnCharacter(text, c);
    RestOf(text, c, k);
    assert b[k..][0] == DOT;
    AsciiStep(text[k..], c - k);
    assert b[k..][1..] == b[k + 1..];
    var rest := text[k..][1..];
    SkipOnCharacter(rest, c - k - 1, Value(b[..k]));
    j := k + 1 + Value(b[..k]);
    assert text[..j] == text[..k] + text[k..][..1] + rest[..Value(b[..k])];
    EncodeConcat(text[..k] + text[k..][..1], rest[..Value(b[..k])]);
    EncodeConcat(text[..k], text[k..][..1]);
  }

  lemma {:induction false} InstructionOnCharacter(text: string, c: nat) returns (j: nat)
    requires c <= |Encode(text)| && InstructionEnd(Encode(text)[..c]).Some?
    ensures j <= |text| && InstructionEnd(Encode(text)[..c]).value == |Encode(text[..j])|
    decreases |text|
  {
    hide Encode, ElementEnd;
    var b := Encode(text)[..c];
    var i := ElementOnCharacter(text, c);
    var k := ElementEnd(b).value;
    RestOf(text, c, i);
    assert b[k..][0] == b[k];
    AsciiStep(text[i..], c - k);
    assert b[k..][1..] == b[k + 1..] && text[i..][1..] == text[i + 1..];
    assert text[..i + 1] == text[..i] + text[i..][..1];
    EncodeConcat(text[..i], text[i..][..1]);
    if b[k] == SEMI {
      j := i + 1;
    } else {
      var rest := InstructionOnCharacter(text[i + 1..], c - k - 1);
      j := i + 1 + rest;
      assert text[..j] == text[..i + 1] + text[i + 1..][..rest];
      EncodeConcat(text[..i + 1], text[i + 1..][..rest]);
    }
  }

  /**
   As long as guacd sends UTF-8, what is flushed is UTF-8: the boundary of any prefix of an
   encoded text, cut even inside a character, falls between two characters.
   */
  lemma {:induction false} BoundaryOnCharacter(text: string, c: nat)
    requires c <= |Encode(text)|
    ensures OnCharacter(text, Scan(Encode(text)[..c]))
    decreases |text|
  {
    hide Encode, InstructionEnd;
    var b := Encode(text)[..c];
    if InstructionEnd(b).None? {
      assert text[..0] == [];
      EncodeNothing();
    } else {
      var j := InstructionOnCharacter(text, c);
      RestOf(text, c, j);
      assert j > 0 by { if j == 0 { assert text[..0] == []; EncodeNothing(); } }
      BoundaryOnCharacter(text[j..], c - |Encode(text[..j])|);
      OnCharacterAdd(text, j, Scan(Encode(text[j..])[..c - |Encode(text[..j])|]));
    }
  }

  /** Bytes that continue whole instructions are UTF-8 together exactly when both parts are. */
  lemma TextSplits(a: Bytes, b: Bytes)
    requires IsStream(a)
    ensures Decode(a + b).Some? <==> Decode(a).Some? && Decode(b).Some?
  {
    hide Decode, Encode, Scan, IsStream;
    if Decode(a).Some? && Decode(b).Some? {
      EncodeConcat(Decode(a).value, Decode(b).value);
      DecodeEncode(Decode(a).value + Decode(b).value);
    }
    if Decode(a + b).Some? {
      var text := Decode(a + b).value;
      assert Encode(text)[..|a|] == a && a[..|a|] == a;
      ScanIsMaximal(a, |a|);
      BoundaryOnCharacter(text, |a|);
      var j: nat :| j <= |text| && |a| == |Encode(text[..j])|;
      EncodeLength(text, j);
      assert a == Encode(text[..j]) && b == Encode(text[j..]);
      DecodeEncode(text[..j]);
      DecodeEncode(text[j..]);
    }
  }

  ghost predicate AllText(messages: seq<Bytes>) {
    forall m | 0 <= m < |messages| :: Decode(messages[m]).Some?
  }

  lemma {:induction false} AllTextConcat(messages: seq<Bytes>)
    requires forall m | 0 <= m < |messages| :: IsStream(messages[m])
    ensures AllText(messages) <==> Decode(Concat(messages)).Some?
  {
    hide Decode, IsStream;
    if messages == [] {
      DecodeNothing();
    } else {
      TextSplits(messages[0], Concat(messages[1..]));
      AllTextConcat(messages[1..]);
      assert messages == [messages[0]] + messages[1..];
    }
  }

  lemma DecodeNothing()
    ensures Decode([]).Some?
  {
  }

  /**
   Exactly when an unforced relay meets no conversion error: when the whole instructions it has
   read are UTF-8. Neither the cuts between reads nor the octets past the last boundary matter.
   */
  lemma RelayTextExact(carry: Bytes, inputs: seq<Bytes>)
    requires Scan(carry) == 0 && NeverForced(carry, inputs)
    ensures var all := carry + Concat(inputs);
            AllText(Run(carry, inputs).messages) <==> Decode(all[..Scan(all)]).Some?
  {
    hide *;
    forall m | 0 <= m < |Run(carry, inputs).messages|
      ensures IsStream(Run(carry, inputs).messages[m])
    {
      MessagesAreStreams(carry, inputs, m);
    }
    AllTextConcat(Run(carry, inputs).messages);
    RelayIsWholeScan(carry, inputs);
  }

  /**
   On other input the scan can flush bytes that are not UTF-8, because it trusts leading octets:
   here it takes a two-octet lead and a `;` for one character.
   */
  lemma BoundaryIsNotAlwaysUtf8()
    ensures var b: Bytes := [0x31, DOT, 0xC3, SEMI, SEMI];
            Scan(b) == |b| && Decode(b) == None
  {
    var b: Bytes := [0x31, DOT, 0xC3, SEMI, SEMI];
    assert DigitRun(b) == 1 by { assert b[1..][0] == DOT; }
    assert b[..1] == [0x31] && b[2..] == [0xC3, SEMI, SEMI];
    assert b[..1][..0] == [];
    assert Value(b[..1]) == 1;
    assert b[2..][2..] == [SEMI];
    assert SkipChars(b[2..], 1) == Some(2);
    assert ElementEnd(b) == Some(4);
    assert b[5..] == [];
    assert Decode(b[2..]) == None;
    assert b[1..][1..] == b[2..];
    assert Decode(b[1..]) == None;
  }
}
