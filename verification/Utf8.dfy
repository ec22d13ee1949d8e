/**
 UTF-8 as defined by section 3 of RFC 3629. A `char` is a Unicode scalar value, a `Byte` an octet.
 `Decode` accepts exactly the octet sequences that `Encode` produces, which is what
 `std::str::from_utf8` promises.
 */
module Utf8 {
  import opened Prelude

  type Byte = b: int | 0 <= b < 256

  predicate IsContinuation(b: Byte) {
    0x80 <= b < 0xC0
  }

  /** The number of octets a leading octet announces; 0 for a continuation octet. */
  function Width(lead: Byte): nat {
    if lead < 0x80 then 1
    else if lead < 0xC0 then 0
    else if lead < 0xE0 then 2
    else if lead < 0xF0 then 3
    else 4
  }

  function EncodeChar(c: char): (b: seq<Byte>)
    ensures 1 <= |b| <= 4 && Width(b[0]) == |b|
    ensures forall i | 0 < i < |b| :: IsContinuation(b[i])
    ensures c < 128 as char ==> b == [c as int]
    ensures c >= 128 as char ==> b[0] >= 0xC0
  {
    var v := c as int;
    if v < 0x80 then [v]
    else if v < 0x800 then [0xC0 + v / 64, 0x80 + v % 64]
    else if v < 0x10000 then [0xE0 + v / 4096, 0x80 + v / 64 % 64, 0x80 + v % 64]
    else [0xF0 + v / 262144, 0x80 + v / 4096 % 64, 0x80 + v / 64 % 64, 0x80 + v % 64]
  }

  /** The bits of a character, as section 3 of RFC 3629 distributes them over its octets. */
  lemma EncodeCharBits(c: char)
    ensures var b: seq<int>, v := EncodeChar(c), c as int;
            && (|b| == 1 <==> v < 0x80) && (|b| == 2 <==> 0x80 <= v < 0x800)
            && (|b| == 3 <==> 0x800 <= v < 0x1_0000) && (|b| == 4 <==> 0x1_0000 <= v)
            && (|b| == 1 ==> v == b[0])
            && (|b| == 2 ==> v == (b[0] - 0xC0) * 0x40 + (b[1] - 0x80))
            && (|b| == 3 ==> v == (b[0] - 0xE0) * 0x1000 + (b[1] - 0x80) * 0x40 + (b[2] - 0x80))
            && (|b| == 4 ==>
                  v == (b[0] - 0xF0) * 0x4_0000 + (b[1] - 0x80) * 0x1000 + (b[2] - 0x80) * 0x40 + (b[3] - 0x80))
  {
    var v := c as int;
    assert v / 64 / 64 == v / 4096 && v / 4096 / 64 == v / 262144;
  }

  function Encode(s: string): seq<Byte> {
    if s == [] then [] else EncodeChar(s[0]) + Encode(s[1..])
  }

  lemma EncodeNothing()
    ensures Encode([]) == []
  {
  }

  lemma {:induction false} EncodeConcat(s: string, t: string)
    ensures Encode(s + t) == Encode(s) + Encode(t)
  {
    hide EncodeChar;
    if s == [] {
      assert s + t == t;
    } else {
      assert (s + t)[1..] == s[1..] + t;
      EncodeConcat(s[1..], t);
    }
  }

  lemma EncodeOne(c: char)
    ensures Encode([c]) == EncodeChar(c)
  {
    assert [c][1..] == [];
  }

  predicate IsScalar(v: int) {
    0 <= v < 0xD800 || 0xE000 <= v <= 0x10FFFF
  }

  /** The scalar value whose last six bits are `low` and whose other bits are `high`. */
  function Join(high: int, low: Byte): int {
    high * 64 + (low - 0x80)
  }

  lemma JoinSplit(high: int, low: Byte)
    requires IsContinuation(low)
    ensures Join(high, low) / 64 == high && Join(high, low) % 64 == low - 0x80
  {
  }

  lemma JoinBack(v: nat)
    ensures Join(v / 64, 0x80 + v % 64) == v
  {
  }

  /** The character at the front of `b` and the octets it takes, when they are well formed. */
  function DecodeChar(b: seq<Byte>): (r: Option<(char, nat)>)
    ensures r.Some? ==> 1 <= r.value.1 <= |b| && EncodeChar(r.value.0) == b[..r.value.1]
  {
    if b == [] then None
    else if b[0] < 0x80 then Some((b[0] as char, 1))
    else if |b| >= 2 && 0xC2 <= b[0] < 0xE0 && IsContinuation(b[1]) then
      JoinSplit(b[0] - 0xC0, b[1]);
      Some((Join(b[0] - 0xC0, b[1]) as char, 2))
    else if |b| >= 3 && 0xE0 <= b[0] < 0xF0 && IsContinuation(b[1]) && IsContinuation(b[2]) then
      DecodeThree(b[0], b[1], b[2]);
      var v := Join(Join(b[0] - 0xE0, b[1]), b[2]);
      if v >= 0x800 && IsScalar(v) then Some((v as char, 3)) else None
    else if |b| >= 4 && 0xF0 <= b[0] && IsContinuation(b[1]) && IsContinuation(b[2]) && IsContinuation(b[3]) then
      DecodeFour(b[0], b[1], b[2], b[3]);
      var v := Join(Join(Join(b[0] - 0xF0, b[1]), b[2]), b[3]);
      if v >= 0x10000 && IsScalar(v) then Some((v as char, 4)) else None
    else None
  }

  lemma DecodeThree(b0: Byte, b1: Byte, b2: Byte)
    requires 0xE0 <= b0 < 0xF0 && IsContinuation(b1) && IsContinuation(b2)
    ensures var v := Join(Join(b0 - 0xE0, b1), b2);
            v < 0x10000 && (v >= 0x800 && IsScalar(v) ==> EncodeChar(v as char) == [b0, b1, b2])
  {
    var u := Join(b0 - 0xE0, b1);
    var v := Join(u, b2);
    JoinSplit(b0 - 0xE0, b1);
    JoinSplit(u, b2);
    assert v / 4096 == u / 64;
  }

  lemma DecodeFour(b0: Byte, b1: Byte, b2: Byte, b3: Byte)
    requires 0xF0 <= b0 && IsContinuation(b1) && IsContinuation(b2) && IsContinuation(b3)
    ensures var v := Join(Join(Join(b0 - 0xF0, b1), b2), b3);
            v >= 0x10000 && IsScalar(v) ==> EncodeChar(v as char) == [b0, b1, b2, b3]
  {
    var t := Join(b0 - 0xF0, b1);
    var u := Join(t, b2);
    var v := Join(u, b3);
    JoinSplit(b0 - 0xF0, b1);
    JoinSplit(t, b2);
    JoinSplit(u, b3);
    assert v / 4096 == t;
    assert v / 262144 == t / 64;
  }

  function Decode(b: seq<Byte>): (r: Option<string>)
    ensures r.Some? ==> Encode(r.value) == b
  {
    if b == [] then Some([]) else
    match DecodeChar(b)
    case None => None
    case Some((c, w)) =>
      match Decode(b[w..])
      case None => None
      case Some(rest) =>
        assert ([c] + rest)[1..] == rest;
        Some([c] + rest)
  }

  lemma DecodeEncodeChar(c: char, rest: seq<Byte>)
    ensures DecodeChar(EncodeChar(c) + rest) == Some((c, |EncodeChar(c)|))
  {
    hide Join;
    var v, b := c as int, EncodeChar(c) + rest;
    assert b[..|EncodeChar(c)|] == EncodeChar(c);
    JoinBack(v);
    if v >= 0x800 {
      JoinBack(v / 64);
      assert v / 64 / 64 == v / 4096;
    }
    if v >= 0x10000 {
      JoinBack(v / 4096);
      assert v / 4096 / 64 == v / 262144;
    }
  }

  lemma {:induction false} DecodeEncode(s: string)
    ensures Decode(Encode(s)) == Some(s)
  {
    hide EncodeChar, DecodeChar;
    if s != [] {
      var e := EncodeChar(s[0]);
      DecodeEncodeChar(s[0], Encode(s[1..]));
      assert Encode(s)[|e|..] == Encode(s[1..]);
      DecodeEncode(s[1..]);
      assert s == [s[0]] + s[1..];
    }
  }

  predicate IsAscii(s: string) {
    forall c | c in s :: c < 128 as char
  }

  function Codes(s: string): seq<int> {
    seq(|s|, i requires 0 <= i < |s| => s[i] as int)
  }

  lemma {:induction false} EncodeAscii(s: string)
    requires IsAscii(s)
    ensures Encode(s) == Codes(s)
  {
    hide EncodeChar;
    if s != [] {
      assert IsAscii(s[1..]) by {
        forall c | c in s[1..] ensures c < 128 as char { assert c in s; }
      }
      EncodeAscii(s[1..]);
      assert s[0] in s;
      assert Codes(s) == [s[0] as int] + Codes(s[1..]);
    }
  }

  /** An ASCII octet occurs in an encoding only where its character does. */
  lemma {:induction false} AsciiOctets(s: string, c: char)
    requires c < 128 as char
    ensures c as int in Encode(s) <==> c in s
  {
    hide EncodeChar;
    if s != [] {
      var e := EncodeChar(s[0]);
      AsciiOctets(s[1..], c);
      assert c in s <==> c == s[0] || c in s[1..];
      assert c as int in e <==> c == s[0] by {
        if s[0] < 128 as char {
          assert e == [s[0] as int];
          if c as int == s[0] as int {
            assert c as int as char == s[0];
          }
        } else {
          forall i | 0 <= i < |e| ensures e[i] >= 0x80 {}
        }
      }
    }
  }
}
