/**
 Where the last complete instruction of a byte buffer ends. `Scan` is the character-counting
 walk as a function; the grammar of `IsStream` says independently what the answer must be.
 */
module Boundary {
  import opened Prelude
  import opened Utf8
  import opened Decimal
  import opened Protocol

  const DOT: Byte := '.' as int
  const COMMA: Byte := ',' as int
  const SEMI: Byte := ';' as int

  // ---------------------------------------------------------------- the walk as a function

  /** How many digits `b` starts with. */
  function DigitRun(b: seq<Byte>): (k: nat)
    ensures k <= |b|
  {
    if b == [] || !IsDigit(b[0]) then 0 else DigitRun(b[1..]) + 1
  }

  /** The octets taken by the first `n` characters, told apart by their leading octets only. */
  function SkipChars(b: seq<Byte>, n: nat): (r: Option<nat>)
    ensures r.Some? ==> r.value <= |b|
    decreases n
  {
    if n == 0 then Some(0)
    else if b == [] || Width(b[0]) == 0 || Width(b[0]) > |b| then None
    else Shift(SkipChars(b[Width(b[0])..], n - 1), Width(b[0]))
  }

  /** The end of the element that starts `b`: length prefix, dot, and that many characters. */
  function ElementEnd(b: seq<Byte>): (r: Option<nat>)
    ensures r.Some? ==> 0 < r.value <= |b|
  {
    var k := DigitRun(b);
    if k == 0 || k == |b| || b[k] != DOT || !(0 <= Value(b[..k]) < USIZE_MODULUS) then None
    else Shift(SkipChars(b[k + 1..], Value(b[..k])), k + 1)
  }

  /** The end of the instruction that starts `b`, just past its `;`. */
  function InstructionEnd(b: seq<Byte>): (r: Option<nat>)
    ensures r.Some? ==> 0 < r.value <= |b|
    decreases |b|
  {
    match ElementEnd(b)
    case None => None
    case Some(k) =>
      if k == |b| then None
      else if b[k] == SEMI then Some(k + 1)
      else if b[k] == COMMA then Shift(InstructionEnd(b[k + 1..]), k + 1)
      else None
  }

  /** How many octets of `b` complete instructions take. */
  function Scan(b: seq<Byte>): (e: nat)
    ensures e <= |b|
    decreases |b|
  {
    match InstructionEnd(b)
    case None => 0
    case Some(k) => k + Scan(b[k..])
  }

  // ---------------------------------------------------------------- the grammar

  ghost predicate IsChars(b: seq<Byte>, n: nat)
    decreases n
  {
    if n == 0 then b == []
    else b != [] && 0 < Width(b[0]) <= |b| && IsChars(b[Width(b[0])..], n - 1)
  }

  /** `k` digits, a dot, and as many characters as the digits say. */
  ghost predicate IsElementAt(b: seq<Byte>, k: nat) {
    && 0 < k < |b| && AllDigits(b[..k]) && b[k] == DOT
    && 0 <= Value(b[..k]) < USIZE_MODULUS
    && IsChars(b[k + 1..], Value(b[..k]))
  }

  ghost predicate IsElement(b: seq<Byte>) {
    exists k: nat :: IsElementAt(b, k)
  }

  /** An element of `k` octets, then the end or a comma and the other elements. */
  ghost predicate IsInstructionAt(b: seq<Byte>, k: nat)
    decreases |b|, 0
  {
    && 0 < k < |b|
    && IsElement(b[..k])
    && (if b[k] == SEMI then k + 1 == |b| else b[k] == COMMA && IsInstruction(b[k + 1..]))
  }

  ghost predicate IsInstruction(b: seq<Byte>)
    decreases |b|, 1
  {
    exists k: nat :: IsInstructionAt(b, k)
  }

  ghost predicate IsStreamAt(b: seq<Byte>, k: nat)
    decreases |b|, 0
  {
    0 < k <= |b| && IsInstruction(b[..k]) && IsStream(b[k..])
  }

  /** Zero or more instructions, one after another. */
  ghost predicate IsStream(b: seq<Byte>)
    decreases |b|, 1
  {
    b == [] || exists k: nat :: IsStreamAt(b, k)
  }

  // ---------------------------------------------------------------- walk and grammar agree

  lemma {:induction false} SkipCharsExact(b: seq<Byte>, n: nat, e: nat)
    requires e <= |b|
    ensures SkipChars(b, n) == Some(e) <==> IsChars(b[..e], n)
    decreases n
  {
    hide Width;
    if n > 0 && b != [] {
      var w := Width(b[0]);
      if 0 < w <= e {
        SkipCharsExact(b[w..], n - 1, e - w);
        assert b[..e][w..] == b[w..][..e - w];
      }
    }
  }

  lemma {:induction false} DigitRunExact(b: seq<Byte>, k: nat)
    requires k < |b| && !IsDigit(b[k])
    ensures DigitRun(b) == k <==> AllDigits(b[..k])
  {
    if k > 0 {
      DigitRunExact(b[1..], k - 1);
      AllDigitsCons(b, k);
    }
  }

  lemma AllDigitsCons(b: seq<Byte>, k: nat)
    requires 0 < k <= |b|
    ensures AllDigits(b[..k]) <==> IsDigit(b[0]) && AllDigits(b[1..][..k - 1])
  {
    var whole, tail := b[..k], b[1..][..k - 1];
    assert whole == [b[0]] + tail;
    if AllDigits(whole) {
      forall i | 0 <= i < |tail| ensures IsDigit(tail[i]) {
        assert tail[i] == whole[i + 1];
      }
      assert IsDigit(whole[0]);
    }
  }

  lemma ElementEndExact(b: seq<Byte>, e: nat)
    requires e <= |b|
    ensures ElementEnd(b) == Some(e) <==> IsElement(b[..e])
  {
    hide SkipChars, IsChars, Value, DigitRun, AllDigits;
    if ElementEnd(b) == Some(e) {
      var k := DigitRun(b);
      DigitRunExact(b, k);
      PrefixSlices(b, e, k);
      PrefixSlices(b, e, k + 1);
      SkipCharsExact(b[k + 1..], Value(b[..k]), e - k - 1);
      assert IsElementAt(b[..e], k);
    }
    if IsElement(b[..e]) {
      var k: nat :| IsElementAt(b[..e], k);
      PrefixSlices(b, e, k);
      PrefixSlices(b, e, k + 1);
      DigitRunExact(b, k);
      SkipCharsExact(b[k + 1..], Value(b[..k]), e - k - 1);
    }
  }

  lemma PrefixSlices(b: seq<Byte>, e: nat, k: nat)
    requires k <= e <= |b|
    ensures b[..e][..k] == b[..k] && b[..e][k..] == b[k..][..e - k]
  {
  }

  lemma {:induction false} InstructionEndSound(b: seq<Byte>)
    requires InstructionEnd(b).Some?
    ensures IsInstruction(b[..InstructionEnd(b).value])
    decreases |b|
  {
    hide ElementEnd, IsElement;
    var k, e := ElementEnd(b).value, InstructionEnd(b).value;
    ElementEndExact(b, k);
    PrefixSlices(b, e, k);
    if b[k] == COMMA {
      InstructionEndSound(b[k + 1..]);
      PrefixSlices(b, e, k + 1);
    }
    assert IsInstructionAt(b[..e], k);
  }

  lemma {:induction false} InstructionEndComplete(b: seq<Byte>, e: nat)
    requires e <= |b| && IsInstruction(b[..e])
    ensures InstructionEnd(b) == Some(e)
    decreases |b|
  {
    hide ElementEnd, IsElement;
    var k: nat :| IsInstructionAt(b[..e], k);
    PrefixSlices(b, e, k);
    ElementEndExact(b, k);
    if b[k] == COMMA {
      PrefixSlices(b, e, k + 1);
      InstructionEndComplete(b[k + 1..], e - k - 1);
    }
  }

  lemma {:induction false} ScanIsStream(b: seq<Byte>)
    ensures IsStream(b[..Scan(b)])
    decreases |b|
  {
    hide InstructionEnd, IsInstruction;
    if InstructionEnd(b).Some? {
      var k, e := InstructionEnd(b).value, Scan(b);
      InstructionEndSound(b);
      ScanIsStream(b[k..]);
      PrefixSlices(b, e, k);
      assert IsStreamAt(b[..e], k);
    } else {
      assert b[..0] == [];
    }
  }

  lemma {:induction false} ScanIsMaximal(b: seq<Byte>, e: nat)
    requires e <= |b| && IsStream(b[..e])
    ensures e <= Scan(b)
    decreases |b|
  {
    hide InstructionEnd, IsInstruction;
    if e > 0 {
      var k: nat :| IsStreamAt(b[..e], k);
      PrefixSlices(b, e, k);
      InstructionEndComplete(b, k);
      ScanIsMaximal(b[k..], e - k);
    }
  }

  /** The boundary is the length of the longest prefix that is a stream of instructions. */
  lemma ScanExact(b: seq<Byte>)
    ensures IsStream(b[..Scan(b)])
    ensures forall e | Scan(b) < e <= |b| :: !IsStream(b[..e])
  {
    ScanIsStream(b);
    forall e | Scan(b) < e <= |b| ensures !IsStream(b[..e]) {
      if IsStream(b[..e]) {
        ScanIsMaximal(b, e);
      }
    }
  }

  // ---------------------------------------------------------------- more input

  lemma {:induction false} SkipCharsExtends(b: seq<Byte>, n: nat, more: seq<Byte>)
    requires SkipChars(b, n).Some?
    ensures SkipChars(b + more, n) == SkipChars(b, n)
    decreases n
  {
    hide Width;
    if n > 0 {
      var w := Width(b[0]);
      assert (b + more)[w..] == b[w..] + more;
      SkipCharsExtends(b[w..], n - 1, more);
    }
  }

  lemma ElementEndExtends(b: seq<Byte>, more: seq<Byte>)
    requires ElementEnd(b).Some?
    ensures ElementEnd(b + more) == ElementEnd(b)
  {
    hide SkipChars, Value, DigitRun, AllDigits;
    var k := DigitRun(b);
    assert (b + more)[..k] == b[..k] && (b + more)[k + 1..] == b[k + 1..] + more;
    DigitRunExact(b, k);
    DigitRunExact(b + more, k);
    SkipCharsExtends(b[k + 1..], Value(b[..k]), more);
  }

  lemma {:induction false} InstructionEndExtends(b: seq<Byte>, more: seq<Byte>)
    requires InstructionEnd(b).Some?
    ensures InstructionEnd(b + more) == InstructionEnd(b)
    decreases |b|
  {
    hide ElementEnd;
    var k := ElementEnd(b).value;
    ElementEndExtends(b, more);
    if b[k] == COMMA {
      assert (b + more)[k + 1..] == b[k + 1..] + more;
      InstructionEndExtends(b[k + 1..], more);
    }
  }

  /**
   Flushing at the boundary and carrying the tail loses nothing: whatever arrives next, the
   boundary of the whole buffer is the old one plus the boundary of the tail with the new data.
   */
  lemma {:induction false} ScanIncremental(b: seq<Byte>, more: seq<Byte>)
    ensures Scan(b + more) == Scan(b) + Scan(b[Scan(b)..] + more)
    decreases |b|
  {
    hide InstructionEnd;
    if InstructionEnd(b).Some? {
      var k, e := InstructionEnd(b).value, Scan(b);
      InstructionEndExtends(b, more);
      assert (b + more)[k..] == b[k..] + more;
      ScanIncremental(b[k..], more);
      assert b[k..][e - k..] == b[e..];
    } else {
      assert b[0..] == b;
    }
  }

  // ---------------------------------------------------------------- encoded instructions

  lemma {:induction false} SkipEncoded(s: string, more: seq<Byte>)
    ensures SkipChars(Encode(s) + more, |s|) == Some(|Encode(s)|)
  {
    hide EncodeChar, Width;
    if s != [] {
      var e := EncodeChar(s[0]);
      assert (Encode(s) + more)[|e|..] == Encode(s[1..]) + more;
      SkipEncoded(s[1..], more);
    }
  }

  lemma ElementEndEncoded(s: string, more: seq<Byte>)
    requires |s| < USIZE_MODULUS
    ensures ElementEnd(Encode(EncodeElement(s)) + more) == Some(|Encode(EncodeElement(s))|)
  {
    hide EncodeChar, Encode, SkipChars, Value, DigitRun;
    var num, data := Codes(Digits(|s|)), Encode(s);
    assert Encode(EncodeElement(s)) == num + [DOT] + data by {
      EncodeConcat(Digits(|s|) + ".", s);
      EncodeConcat(Digits(|s|), ".");
      EncodeAscii(Digits(|s|));
      EncodeOne('.');
    }
    var b := Encode(EncodeElement(s)) + more;
    assert b[..|num|] == num && b[|num| + 1..] == data + more;
    DigitRunExact(b, |num|);
    SkipEncoded(s, more);
  }

  lemma {:induction false} InstructionEndEncoded(els: seq<string>, more: seq<Byte>)
    requires els != [] && forall k | 0 <= k < |els| :: |els[k]| < USIZE_MODULUS
    ensures InstructionEnd(Encode(EncodeElements(els)) + more) == Some(|Encode(EncodeElements(els))|)
    decreases |els|
  {
    hide EncodeElement, ElementEnd, EncodeChar, Encode;
    var head := Encode(EncodeElement(els[0]));
    if |els| == 1 {
      EncodeConcat(EncodeElement(els[0]), ";");
      EncodeOne(';');
      assert Encode(EncodeElements(els)) + more == head + ([SEMI] + more);
      ElementEndEncoded(els[0], [SEMI] + more);
    } else {
      var tail := EncodeElements(els[1..]);
      EncodeConcat(EncodeElement(els[0]), "," + tail);
      EncodeConcat(",", tail);
      EncodeOne(',');
      var rest := Encode(tail) + more;
      assert Encode(EncodeElements(els)) + more == head + ([COMMA] + rest);
      ElementEndEncoded(els[0], [COMMA] + rest);
      assert (head + ([COMMA] + rest))[|head| + 1..] == rest;
      InstructionEndEncoded(els[1..], more);
    }
  }

  function Wire(i: Instruction): seq<Byte> {
    Encode(EncodeText(i))
  }

  function WireStream(instructions: seq<Instruction>): seq<Byte> {
    if instructions == [] then [] else Wire(instructions[0]) + WireStream(instructions[1..])
  }

  lemma InstructionEndWire(i: Instruction, more: seq<Byte>)
    requires i.Representable()
    ensures InstructionEnd(Wire(i) + more) == Some(|Wire(i)|)
  {
    hide InstructionEnd, Encode;
    InstructionEndEncoded(i.Elements(), more);
  }

  /** No proper prefix of an encoded instruction contains a complete one. */
  lemma CutInstruction(i: Instruction, cut: nat)
    requires i.Representable() && cut < |Wire(i)|
    ensures InstructionEnd(Wire(i)[..cut]) == None
  {
    hide InstructionEnd, Wire;
    var w := Wire(i);
    InstructionEndWire(i, []);
    assert w + [] == w && w[..cut] + w[cut..] == w;
    if InstructionEnd(w[..cut]).Some? {
      InstructionEndExtends(w[..cut], w[cut..]);
    }
  }

  /**
   A buffer cut anywhere inside the `k`-th instruction of an encoded stream has its boundary at
   the end of the one before; a whole stream has it at its full length. Element data may hold
   any character, `;` included.
   */
  lemma {:induction false} BoundaryOfEncoded(instructions: seq<Instruction>, k: nat, cut: nat)
    requires forall j | 0 <= j < |instructions| :: instructions[j].Representable()
    requires k <= |instructions|
    requires |WireStream(instructions[..k])| <= cut <= |WireStream(instructions)|
    requires k < |instructions| ==> cut < |WireStream(instructions[..k + 1])|
    ensures Scan(WireStream(instructions)[..cut]) == |WireStream(instructions[..k])|
    decreases k
  {
    hide InstructionEnd, Wire;
    if instructions == [] {
    } else {
      var i, rest := instructions[0], instructions[1..];
      var w := Wire(i);
      var b := WireStream(instructions)[..cut];
      if k == 0 {
        assert instructions[..1] == [i] && [i][1..] == [];
        assert b == w[..cut];
        CutInstruction(i, cut);
      } else {
        assert instructions[..k][1..] == rest[..k - 1];
        assert k < |instructions| ==> instructions[..k + 1][1..] == rest[..k];
        assert b == w + WireStream(rest)[..cut - |w|];
        InstructionEndWire(i, WireStream(rest)[..cut - |w|]);
        assert b[|w|..] == WireStream(rest)[..cut - |w|];
        BoundaryOfEncoded(rest, k - 1, cut - |w|);
      }
    }
  }
}
