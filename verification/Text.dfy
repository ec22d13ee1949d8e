/** Text helpers of the standard library that the importers and the config writer rely on. */
module Text {

  /** The characters with the Unicode White_Space property, as `char::is_whitespace` has them. */
  predicate IsWhitespace(c: char) {
    var v := c as int;
    || 0x09 <= v <= 0x0D || v == 0x20 || v == 0x85 || v == 0xA0 || v == 0x1680
    || 0x2000 <= v <= 0x200A || v == 0x2028 || v == 0x2029 || v == 0x202F || v == 0x205F || v == 0x3000
  }

  function TrimStart(s: string): (r: string)
    ensures |r| <= |s| && (r == [] || !IsWhitespace(r[0]))
  {
    if s != [] && IsWhitespace(s[0]) then TrimStart(s[1..]) else s
  }

  function TrimEnd(s: string): (r: string)
    ensures |r| <= |s| && (r == [] || !IsWhitespace(r[|r| - 1]))
  {
    if s != [] && IsWhitespace(s[|s| - 1]) then TrimEnd(s[..|s| - 1]) else s
  }

  function Trim(s: string): string {
    TrimStart(TrimEnd(s))
  }

  /** There is no white space at either end. */
  predicate CleanEdges(s: string) {
    s == [] || (!IsWhitespace(s[0]) && !IsWhitespace(s[|s| - 1]))
  }

  predicate AllWhitespace(s: string) {
    forall c | c in s :: IsWhitespace(c)
  }

  /** Trimming takes the white space off both ends and nothing else. */
  lemma TrimExact(a: string, s: string, b: string)
    requires AllWhitespace(a) && AllWhitespace(b) && CleanEdges(s)
    ensures Trim(a + s + b) == s
  {
    hide IsWhitespace;
    TrimEndOff(a + s, b);
    if s == [] {
      assert a + s == a;
      TrimEndOff([], a);
      assert [] + a == a;
    } else {
      assert TrimEnd(a + s) == a + s;
      TrimStartOff(a, s);
    }
  }

  lemma {:induction false} TrimEndOff(s: string, b: string)
    requires AllWhitespace(b)
    ensures TrimEnd(s + b) == TrimEnd(s)
    decreases |b|
  {
    hide IsWhitespace;
    if b == [] {
      assert s + b == s;
    } else {
      assert (s + b)[|s + b| - 1] in b;
      assert (s + b)[..|s + b| - 1] == s + b[..|b| - 1];
      TrimEndOff(s, b[..|b| - 1]);
    }
  }

  lemma {:induction false} TrimStartOff(a: string, s: string)
    requires AllWhitespace(a) && (s == [] || !IsWhitespace(s[0]))
    ensures TrimStart(a + s) == s
  {
    hide IsWhitespace;
    if a == [] {
      assert a + s == s;
    } else {
      assert a[0] in a && (a + s)[1..] == a[1..] + s;
      TrimStartOff(a[1..], s);
    }
  }

  /** A text that ends in something else than white space keeps its end when it is trimmed. */
  lemma {:induction false} TrimBefore(a: string, b: string)
    requires b != [] && CleanEdges(b)
    ensures Trim(a + b) == TrimStart(a) + b
  {
    assert TrimEnd(a + b) == a + b;
    TrimStartBefore(a, b);
  }

  lemma {:induction false} TrimStartBefore(a: string, b: string)
    requires b != [] && !IsWhitespace(b[0])
    ensures TrimStart(a + b) == TrimStart(a) + b
  {
    if a == [] {
      assert a + b == b;
    } else if IsWhitespace(a[0]) {
      assert (a + b)[1..] == a[1..] + b;
      TrimStartBefore(a[1..], b);
    }
  }
}
