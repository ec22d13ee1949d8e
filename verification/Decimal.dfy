/** Decimal numerals as the wire format prints them and as `str::parse::<usize>` reads them. */
module Decimal {
  import opened Prelude
  import opened Utf8

  /** One more than the largest `usize` of a 64-bit target. */
  const USIZE_MODULUS: nat := 0x1_0000_0000_0000_0000

  predicate IsDigit(b: int) {
    '0' as int <= b <= '9' as int
  }

  predicate AllDigits(s: seq<int>) {
    forall i | 0 <= i < |s| :: IsDigit(s[i])
  }

  /** The number a sequence of digit codes writes; meant for digits only. */
  function Value(s: seq<int>): int {
    if s == [] then 0 else Value(s[..|s| - 1]) * 10 + (s[|s| - 1] - '0' as int)
  }

  /** The numeral of `n`, without leading zeros. */
  function Digits(n: nat): (s: string)
    ensures s != [] && IsAscii(s)
    ensures AllDigits(Codes(s)) && Value(Codes(s)) == n
  {
    var last := ('0' as int + n % 10) as char;
    if n < 10 then
      assert Codes([last])[..0] == [];
      [last]
    else
      var front := Digits(n / 10);
      var s := front + [last];
      assert Codes(s)[..|s| - 1] == Codes(front);
      s
  }

  // ---------------------------------------------------------------- what numerals mean

  function Pow10(k: nat): (p: nat)
    ensures p > 0
  {
    if k == 0 then 1 else 10 * Pow10(k - 1)
  }

  lemma MulLess(d: nat, a: nat, b: nat)
    requires a < b
    ensures d * a + d <= d * b
  {
    assert d * b == d * a + d * (b - a);
    assert d * (b - a) == d + d * (b - a - 1);
  }

  lemma QuotientIs(n: nat, d: nat, q: nat, r: nat)
    requires d > 0 && n == d * q + r && r < d
    ensures n / d == q
  {
    var m, k := n / d, n % d;
    DivMod(n, d);
    assert d * m + k == d * q + r;
    if m < q {
      MulLess(d, m, q);
    } else if q < m {
      MulLess(d, q, m);
    }
  }

  lemma DivMod(n: nat, d: nat)
    requires d > 0
    ensures n == d * (n / d) + n % d && 0 <= n % d < d
  {
  }

  lemma Distribute(a: nat, q: nat, s: nat, r: nat)
    ensures 10 * (a * q + s) + r == 10 * a * q + (10 * s + r)
  {
  }

  lemma DivTwice(n: nat, a: nat)
    requires a > 0
    ensures n / 10 / a == n / (10 * a)
  {
    var m := n / 10;
    var q, s, r := m / a, m % a, n % 10;
    DivMod(m, a);
    Distribute(a, q, s, r);
    QuotientIs(n, 10 * a, q, 10 * s + r);
  }

  /**
   The numeral of a number is its decimal expansion: the digit `k` places from the end is the one
   of weight ten to the `k`, there are enough places, and the first digit is zero only for zero.
   */
  lemma {:induction false} DigitsExact(n: nat, k: nat)
    ensures var s := Digits(n);
            && (k < |s| ==> s[|s| - 1 - k] as int == '0' as int + n / Pow10(k) % 10)
            && n < Pow10(|s|)
            && (s == "0" || s[0] != '0')
    decreases n
  {
    if n >= 10 {
      DigitsExact(n / 10, if k == 0 then 0 else k - 1);
      DigitsUnfold(n);
      if k > 0 {
        DivTwice(n, Pow10(k - 1));
      }
      assert Pow10(0) == 1;
    }
  }

  lemma DigitsUnfold(n: nat)
    requires n >= 10
    ensures Digits(n) == Digits(n / 10) + [('0' as int + n % 10) as char] && Digits(n / 10) != "0"
  {
  }

  /** The digits from place `i` on, each by the weight of its place. */
  function PlaceSum(s: seq<int>, i: nat): int
    requires i <= |s|
    decreases |s| - i
  {
    if i == |s| then 0 else (s[i] - '0' as int) * Pow10(|s| - 1 - i) + PlaceSum(s, i + 1)
  }

  lemma {:induction false} ValuePlaces(s: seq<int>, i: nat)
    requires i <= |s|
    ensures Value(s) == Value(s[..i]) * Pow10(|s| - i) + PlaceSum(s, i)
    decreases |s| - i
  {
    if i == |s| {
      assert s[..i] == s;
    } else {
      ValuePlaces(s, i + 1);
      assert s[..i + 1][..i] == s[..i];
      Shifted(Value(s[..i]), s[i] - '0' as int, Pow10(|s| - 1 - i));
    }
  }

  lemma Shifted(v: int, d: int, p: nat)
    ensures (v * 10 + d) * p == v * (10 * p) + d * p
  {
  }

  /** A sequence of digits reads as the sum of its digits by the weights of their places. */
  lemma ValueIsSum(s: seq<int>)
    ensures Value(s) == PlaceSum(s, 0)
  {
    ValuePlaces(s, 0);
    assert s[..0] == [];
  }

  lemma {:induction false} ValueNonNegative(s: seq<int>)
    requires AllDigits(s)
    ensures Value(s) >= 0
  {
    if s != [] {
      ValueNonNegative(s[..|s| - 1]);
    }
  }

  /**
   `str::parse` for an unsigned type: an optional `+`, then one or more digits. The empty text,
   a lone sign, any other character and a number that does not fit give an error.
   */
  function ParseUnsigned(s: string, modulus: nat): (r: Option<nat>)
    ensures r.Some? ==> r.value < modulus
  {
    var body := if |s| > 1 && s[0] == '+' then s[1..] else s;
    if body != [] && AllDigits(Codes(body)) && Value(Codes(body)) < modulus
    then ValueNonNegative(Codes(body)); Some(Value(Codes(body))) else None
  }

  function ParseUsize(s: string): Option<nat> {
    ParseUnsigned(s, USIZE_MODULUS)
  }

  lemma ParseDigits(n: nat, modulus: nat)
    requires n < modulus
    ensures ParseUnsigned(Digits(n), modulus) == Some(n)
  {
    var s := Digits(n);
    assert IsDigit(Codes(s)[0]);
  }

  lemma NumeralHasNoDot(s: string)
    requires ParseUsize(s).Some?
    ensures '.' !in s
  {
    var body := if |s| > 1 && s[0] == '+' then s[1..] else s;
    assert s == body || s == ['+'] + body;
    forall i | 0 <= i < |body| ensures body[i] != '.' {
      assert IsDigit(Codes(body)[i]);
    }
  }
}
