/**
 The Guacamole wire format as mathematics: what an encoded instruction is, what the
 single-instruction parser accepts, and how the two undo each other.

 An instruction is written `LENGTH.ELEMENT,LENGTH.ELEMENT,...;` and lengths count characters.
 */
module Protocol {
  import opened Prelude
  import opened Decimal

  datatype Instruction = Instruction(opcode: string, args: seq<string>) {
    function Elements(): seq<string> {
      [opcode] + args
    }

    /** The element written last: the last argument, or the opcode when there are none. */
    function Last(): string {
      if args == [] then opcode else args[|args| - 1]
    }

    /** Every element's length fits a `usize`, as it does for any string in memory. */
    ghost predicate Representable() {
      forall i | 0 <= i < |Elements()| :: |Elements()[i]| < USIZE_MODULUS
    }
  }

  datatype ParseError = Empty | MalformedElement | InvalidLength | Truncated | UnexpectedChar

  type ParseResult = Result<Instruction, ParseError>

  // ---------------------------------------------------------------- printing

  function EncodeElement(s: string): string {
    Digits(|s|) + "." + s
  }

  /** The elements from one on, each preceded by its length, with the closing `;`. */
  function EncodeElements(els: seq<string>): string
    requires els != []
  {
    EncodeElement(els[0]) + if |els| == 1 then ";" else "," + EncodeElements(els[1..])
  }

  function EncodeText(i: Instruction): string {
    EncodeElements(i.Elements())
  }

  /** The text of a concrete instruction, character by character. */
  lemma SelectSsh()
    ensures EncodeText(Instruction("select", ["ssh"])) == "6.select,3.ssh;"
    ensures EncodeText(Instruction("nop", [])) == "3.nop;"
  {
    var i := Instruction("select", ["ssh"]);
    assert Digits(6) == "6" && Digits(3) == "3";
    assert i.Elements() == ["select", "ssh"] && ["select", "ssh"][1..] == ["ssh"];
    assert Instruction("nop", []).Elements() == ["nop"];
  }

  // ---------------------------------------------------------------- parsing

  function TrimEndSemi(s: string): string {
    if s != [] && s[|s| - 1] == ';' then TrimEndSemi(s[..|s| - 1]) else s
  }

  function ParseElements(s: string): (r: Result<seq<string>, ParseError>)
    ensures r.Ok? ==> r.value != []
    decreases |s|
  {
    var dot := IndexOf(s, '.');
    if dot == |s| then Err(MalformedElement) else
    match ParseUsize(s[..dot])
    case None => Err(InvalidLength)
    case Some(n) =>
      var rest := s[dot + 1..];
      if n > |rest| then Err(Truncated)
      else if n == |rest| then Ok([rest])
      else if rest[n] != ',' then Err(UnexpectedChar)
      else
        match ParseElements(rest[n + 1..])
        case Err(e) => Err(e)
        case Ok(els) => Ok([rest[..n]] + els)
  }

  function ParseText(data: string): ParseResult {
    var body := TrimEndSemi(data);
    if body == [] then Err(Empty) else
    match ParseElements(body)
    case Err(e) => Err(e)
    case Ok(els) => Ok(Instruction(els[0], els[1..]))
  }

  // ---------------------------------------------------------------- what the parser accepts

  /** A length prefix the parser reads as the length of `el`; it need not be in normal form. */
  predicate ValidPrefix(prefix: string, el: string) {
    ParseUsize(prefix) == Some(|el|)
  }

  ghost predicate ValidPrefixes(prefixes: seq<string>, els: seq<string>) {
    && |prefixes| == |els|
    && forall k | 0 <= k < |els| :: ValidPrefix(prefixes[k], els[k])
  }

  /** Everything before the data of the last element; it ends in a `.`. */
  function RenderFront(prefixes: seq<string>, els: seq<string>): (s: string)
    requires |prefixes| == |els| > 0
    ensures s != [] && s[|s| - 1] == '.'
    decreases |els|
  {
    if |els| == 1 then prefixes[0] + "."
    else prefixes[0] + "." + (els[0] + "," + RenderFront(prefixes[1..], els[1..]))
  }

  function Render(prefixes: seq<string>, els: seq<string>): string
    requires |prefixes| == |els| > 0
  {
    RenderFront(prefixes, els) + els[|els| - 1]
  }

  lemma FirstDot(prefix: string, rest: string)
    requires ParseUsize(prefix).Some?
    ensures var s := prefix + "." + rest;
            IndexOf(s, '.') == |prefix| && s[..|prefix|] == prefix && s[|prefix| + 1..] == rest
  {
    var s := prefix + "." + rest;
    NumeralHasNoDot(prefix);
    assert s[..|prefix|] == prefix;
    IndexOfUnique(s, '.', |prefix|);
  }

  /** The last element of a text, present or cut short. */
  lemma ParseLast(prefix: string, n: nat, x: string)
    requires ParseUsize(prefix) == Some(n) && |x| <= n
    ensures ParseElements(prefix + "." + x) == if |x| == n then Ok([x]) else Err(Truncated)
  {
    FirstDot(prefix, x);
  }

  /** An element that is followed by another one. */
  lemma ParseNext(prefix: string, el: string, tail: string)
    requires ValidPrefix(prefix, el)
    ensures ParseElements(prefix + "." + (el + "," + tail)) ==
            match ParseElements(tail)
            case Err(e) => Err(e)
            case Ok(els) => Ok([el] + els)
  {
    var rest := el + "," + tail;
    FirstDot(prefix, rest);
    assert rest[|el|] == ',' && rest[|el| + 1..] == tail && rest[..|el|] == el;
  }

  lemma FrontCons(prefix: string, el: string, prefixes: seq<string>, els: seq<string>, x: string)
    requires |prefixes| == |els| > 0
    ensures RenderFront([prefix] + prefixes, [el] + els) + x ==
            prefix + "." + (el + "," + (RenderFront(prefixes, els) + x))
  {
    assert ([prefix] + prefixes)[1..] == prefixes && ([el] + els)[1..] == els;
    var front := RenderFront(prefixes, els);
    Assoc(prefix + ".", el + "," + front, x);
    Assoc(el + ",", front, x);
  }

  lemma ValidCons(prefix: string, el: string, prefixes: seq<string>, els: seq<string>)
    ensures ValidPrefixes([prefix] + prefixes, [el] + els) <==>
            ValidPrefix(prefix, el) && ValidPrefixes(prefixes, els)
  {
    var p, e := [prefix] + prefixes, [el] + els;
    if ValidPrefixes(p, e) {
      forall k | 0 <= k < |els| ensures ValidPrefix(prefixes[k], els[k]) {
        assert ValidPrefix(p[k + 1], e[k + 1]);
      }
      assert ValidPrefix(p[0], e[0]);
    }
  }

  /**
   The parser on a rendering whose last element is replaced by `x`: it returns the elements
   when `x` is the last element, and reports truncation when `x` is shorter than declared.
   */
  lemma {:induction false} ParseRendered(prefixes: seq<string>, els: seq<string>, x: string)
    requires |els| > 0 && ValidPrefixes(prefixes, els)
    requires x == els[|els| - 1] || |x| < |els[|els| - 1]|
    ensures ParseElements(RenderFront(prefixes, els) + x) ==
            if x == els[|els| - 1] then Ok(els) else Err(Truncated)
    decreases |els|
  {
    var prefix, el, ps, es := prefixes[0], els[0], prefixes[1..], els[1..];
    assert prefixes == [prefix] + ps && els == [el] + es;
    ValidCons(prefix, el, ps, es);
    if es == [] {
      ParseLast(prefix, |el|, x);
      assert els == [el];
    } else {
      ParseRendered(ps, es, x);
      FrontCons(prefix, el, ps, es, x);
      ParseNext(prefix, el, RenderFront(ps, es) + x);
    }
  }

  /** Whatever the element parser accepts is a rendering of what it returns. */
  lemma {:induction false} ParseRecovers(s: string) returns (prefixes: seq<string>)
    requires ParseElements(s).Ok?
    ensures ValidPrefixes(prefixes, ParseElements(s).value)
    ensures Render(prefixes, ParseElements(s).value) == s
    decreases |s|
  {
    var dot := IndexOf(s, '.');
    var n, rest := ParseUsize(s[..dot]).value, s[dot + 1..];
    SplitAt(s, dot);
    if n == |rest| {
      prefixes := [s[..dot]];
    } else {
      var tail := rest[n + 1..];
      SplitAt(rest, n);
      var sub := ParseRecovers(tail);
      var els := ParseElements(tail).value;
      prefixes := [s[..dot]] + sub;
      ValidCons(s[..dot], rest[..n], sub, els);
      FrontCons(s[..dot], rest[..n], sub, els, els[|els| - 1]);
    }
  }

  /**
   Exactly which texts parse: those that, once the trailing `;` are cut off, write each
   element after a prefix that reads as its length. The elements are then the result.
   */
  lemma ParseAccepts(data: string, i: Instruction)
    ensures ParseText(data) == Ok(i) <==>
            exists prefixes :: ValidPrefixes(prefixes, i.Elements())
                            && TrimEndSemi(data) == Render(prefixes, i.Elements())
  {
    var body := TrimEndSemi(data);
    if ParseText(data) == Ok(i) {
      assert ParseElements(body).value == i.Elements();
      var prefixes := ParseRecovers(body);
      assert ValidPrefixes(prefixes, i.Elements()) && body == Render(prefixes, i.Elements());
    }
    forall prefixes | ValidPrefixes(prefixes, i.Elements()) && body == Render(prefixes, i.Elements())
      ensures ParseText(data) == Ok(i)
    {
      ParseRendered(prefixes, i.Elements(), i.Elements()[|i.args|]);
      assert i.Elements()[1..] == i.args;
    }
  }

  // ---------------------------------------------------------------- round trip

  function Numerals(els: seq<string>): seq<string> {
    seq(|els|, k requires 0 <= k < |els| => Digits(|els[k]|))
  }

  lemma NumeralsValid(i: Instruction)
    requires i.Representable()
    ensures ValidPrefixes(Numerals(i.Elements()), i.Elements())
  {
    var els := i.Elements();
    forall k | 0 <= k < |els| ensures ValidPrefix(Numerals(els)[k], els[k]) {
      ParseDigits(|els[k]|, USIZE_MODULUS);
    }
  }

  lemma {:induction false} EncodeRenders(els: seq<string>)
    requires els != []
    ensures EncodeElements(els) == Render(Numerals(els), els) + ";"
    decreases |els|
  {
    hide Digits;
    if |els| > 1 {
      EncodeRenders(els[1..]);
      assert Numerals(els)[1..] == Numerals(els[1..]);
    }
  }

  lemma {:induction false} TrimAfter(front: string, x: string)
    requires front != [] && front[|front| - 1] != ';'
    ensures TrimEndSemi(front + x) == front + TrimEndSemi(x)
    ensures |TrimEndSemi(x)| <= |x|
    ensures x == [] || x[|x| - 1] != ';' ==> TrimEndSemi(x) == x
    ensures x != [] && x[|x| - 1] == ';' ==> TrimEndSemi(x) == TrimEndSemi(x[..|x| - 1])
    decreases |x|
  {
    if x == [] {
      assert front + x == front;
    } else if x[|x| - 1] == ';' {
      assert (front + x)[..|front + x| - 1] == front + x[..|x| - 1];
      TrimAfter(front, x[..|x| - 1]);
    }
  }

  /**
   Printing then parsing gives the instruction back exactly when its last element does not
   end in `;`. Otherwise the parser has cut data off together with the terminator and says so.
   */
  lemma RoundTrip(i: Instruction)
    requires i.Representable()
    ensures ParseText(EncodeText(i)) ==
            if i.Last() == [] || i.Last()[|i.Last()| - 1] != ';' then Ok(i) else Err(Truncated)
  {
    var els := i.Elements();
    var numerals := Numerals(els);
    var front, last := RenderFront(numerals, els), els[|els| - 1];
    assert last == i.Last();
    NumeralsValid(i);
    EncodeRenders(els);
    assert EncodeText(i) == front + (last + ";");
    TrimAfter(front, last + ";");
    assert (last + ";")[..|last|] == last;
    TrimAfter(front, last);
    var x := TrimEndSemi(last);
    if last != [] && last[|last| - 1] == ';' {
      TrimAfter(front, last[..|last| - 1]);
    }
    ParseRendered(numerals, els, x);
    assert els[1..] == i.args;
  }

  /** Two instructions with the same text are the same instruction. */
  lemma EncodeInjective(i: Instruction, j: Instruction)
    requires i.Representable() && j.Representable()
    requires EncodeText(i) == EncodeText(j)
    ensures i == j
  {
    NumeralsValid(i);
    NumeralsValid(j);
    EncodeRenders(i.Elements());
    EncodeRenders(j.Elements());
    var s := Render(Numerals(i.Elements()), i.Elements());
    assert EncodeText(i)[..|EncodeText(i)| - 1] == s;
    assert EncodeText(j)[..|EncodeText(j)| - 1] == Render(Numerals(j.Elements()), j.Elements());
    ParseRendered(Numerals(i.Elements()), i.Elements(), i.Elements()[|i.args|]);
    ParseRendered(Numerals(j.Elements()), j.Elements(), j.Elements()[|j.args|]);
    assert i.Elements() == j.Elements();
    assert i.Elements()[1..] == i.args && j.Elements()[1..] == j.args;
  }
}
