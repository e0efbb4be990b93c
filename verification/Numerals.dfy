/** Decimal integers: FastItoa, IsIntToken and the value `sscanf("%d")` gives. */
module Numerals {
  import opened CStrings

  const INT_LIMIT := 0x8000_0000
  const UINT_RANGE := 0x1_0000_0000

  type int32 = x: int | -INT_LIMIT <= x < INT_LIMIT

  predicate IsDigit(c: char) {
    '0' <= c <= '9'
  }

  function DigitChar(d: nat): char
    requires d < 10
  {
    '0' + d as char
  }

  function DigitValue(c: char): (d: nat)
    requires IsDigit(c)
    ensures d < 10
  {
    c as int - '0' as int
  }

  predicate AllDigits(s: string) {
    forall k :: 0 <= k < |s| ==> IsDigit(s[k])
  }

  /** The decimal digits of n, without leading zeros. */
  function Digits(n: nat): (s: string)
    ensures s != "" && AllDigits(s)
  {
    (if n < 10 then "" else Digits(n / 10)) + [DigitChar(n % 10)]
  }

  function Decimal(i: int): string {
    if i < 0 then "-" + Digits(-i) else Digits(i)
  }

  function DigitsValue(s: string): nat
    requires AllDigits(s)
  {
    if s == "" then 0 else DigitsValue(s[..|s| - 1]) * 10 + DigitValue(s[|s| - 1])
  }

  function Unsigned(token: string): string {
    if Peek(token) == '-' then token[1..] else token
  }

  /** An optional minus sign and one to ten digits. */
  predicate IntToken(token: string) {
    var digits := Unsigned(token);
    1 <= |digits| <= 10 && AllDigits(digits)
  }

  lemma IntTokenExactly(token: string)
    ensures IntToken(token) <==>
      exists digits: string :: 1 <= |digits| <= 10 && (token == digits || token == "-" + digits)
                               && forall k :: 0 <= k < |digits| ==> '0' <= digits[k] <= '9'
  {
    if IntToken(token) {
      assert token == Unsigned(token) || token == "-" + Unsigned(token);
    }
    if digits: string :| 1 <= |digits| <= 10 && (token == digits || token == "-" + digits)
                         && forall k :: 0 <= k < |digits| ==> '0' <= digits[k] <= '9' {
      assert Unsigned(token) == digits;
    }
  }

  /** The number an integer token denotes. */
  function TokenValue(token: string): int
    requires IntToken(token)
  {
    var digits: int := DigitsValue(Unsigned(token));
    if Peek(token) == '-' then -digits else digits
  }

  function Pow10(k: nat): (p: nat)
    ensures p > 0
  {
    if k == 0 then 1 else 10 * Pow10(k - 1)
  }

  lemma {:induction false} DigitsRoundTrip(n: nat)
    ensures DigitsValue(Digits(n)) == n
  {
    var s := Digits(n);
    if n >= 10 {
      DigitsRoundTrip(n / 10);
      assert s[..|s| - 1] == Digits(n / 10);
    }
  }

  /** The k-th digit from the right counts the tens, hundreds, ... of n. */
  lemma {:induction false} PlaceValues(n: nat, k: nat)
    requires k < |Digits(n)|
    ensures Digits(n)[|Digits(n)| - 1 - k] as int - '0' as int == n / Pow10(k) % 10
  {
    if k > 0 {
      PlaceValues(n / 10, k - 1);
      TenthOf(n, Pow10(k - 1));
    }
  }

  lemma TenthOf(n: nat, p: nat)
    requires p > 0
    ensures n / 10 / p == n / (10 * p)
  {
    var q, r := n / 10, n % 10;
    var u, v := q / p, q % p;
    assert n == 10 * (u * p + v) + r == (10 * p) * u + (10 * v + r);
    assert 10 * v + r < 10 * p;
    Quotient(n, 10 * p, u, 10 * v + r);
  }

  lemma Quotient(n: nat, d: nat, q: nat, r: nat)
    requires r < d && n == d * q + r
    ensures n / d == q
  {
    var m := n / d;
    assert d * m + n % d == n;
    Multiples(d, m, q);
  }

  lemma Multiples(d: nat, m: nat, q: nat)
    ensures m < q ==> d * m <= d * q - d
    ensures m > q ==> d * m >= d * q + d
  {
    if m < q {
      assert d * q - d == d * (q - 1);
    } else if m > q {
      assert d * q + d == d * (q + 1);
    }
  }

  lemma {:induction false} DigitsLength(n: nat, k: nat)
    requires 0 < k && n < Pow10(k)
    ensures |Digits(n)| <= k
  {
    if n >= 10 { DigitsLength(n / 10, k - 1); }
  }

  /** What is printed for an int is taken for an integer token and reads back
      as the same int, the most negative one included. */
  lemma DecimalRoundTrip(i: int32)
    ensures IntToken(Decimal(i)) && TokenValue(Decimal(i)) == i
    ensures |Decimal(i)| <= 11
  {
    var n: int := if i < 0 then 0 - i else i;
    assert Pow10(10) == 10_000_000_000 by { assert Pow10(5) == 100_000; }
    DigitsLength(n, 10);
    DigitsRoundTrip(n);
    assert Unsigned(Decimal(i)) == Digits(n);
  }

  /** The digits of n still to be written, in front of those already there. */
  ghost function DigitsBefore(n: nat, after: string): string {
    (if n == 0 then "" else Digits(n)) + after
  }

  lemma DigitsStep(n: nat, k: nat, after: string)
    requires 0 < k && n < Pow10(k)
    ensures n / 10 < Pow10(k - 1)
    ensures DigitsBefore(n / 10, [DigitChar(n % 10)] + after) == Digits(n) + after
  {
  }

  /** Writes the digits of n backwards, ending at the end of the buffer. */
  method WriteDigits(local: array<char>, number: nat) returns (p: nat)
    requires local.Length == 11 && number < Pow10(10)
    modifies local
    ensures 1 <= p <= 10 && local[p..] == Digits(number)
  {
    hide Digits;
    var n := number;
    p := local.Length - 1;
    local[p] := DigitChar(n % 10);
    DigitsStep(n, 10, "");
    assert local[p..] == [DigitChar(n % 10)] + "";
    n := n / 10;
    while n > 0
      invariant 1 <= p <= 10 && 0 <= n < Pow10(p - 1)
      invariant DigitsBefore(n, local[p..]) == Digits(number)
    {
      DigitsStep(n, p - 1, local[p..]);
      ghost var after := local[p..];
      p := p - 1;
      local[p] := DigitChar(n % 10);
      assert local[p..] == [DigitChar(n % 10)] + after;
      n := n / 10;
    }
  }

  lemma MagnitudeFits(i: int32)
    ensures 0 <= i ==> i % UINT_RANGE == i < Pow10(10)
    ensures i < 0 ==> (0 - i) % UINT_RANGE == 0 - i < Pow10(10)
  {
    assert Pow10(10) == 10_000_000_000 by { assert Pow10(5) == 100_000; }
  }

  /** Formats an int in an eleven character buffer; the magnitude is computed
      in unsigned arithmetic. */
  method FastItoa(i: int32) returns (s: string)
    ensures s == Decimal(i)
  {
    var local := new char[11];
    var n: int := i % UINT_RANGE;
    if i < 0 {
      n := (0 - i) % UINT_RANGE;
    }
    MagnitudeFits(i);
    var p := WriteDigits(local, n);
    if i < 0 {
      ghost var digits := local[p..];
      p := p - 1;
      local[p] := '-';
      assert local[p..] == "-" + digits;
    }
    s := local[p..];
  }

  method IsIntToken(src: cstring) returns (r: bool)
    ensures r == IntToken(src)
  {
    var p := 0;
    if Peek(src) == '-' {
      p := 1;
    }
    ghost var digits := Unsigned(src);
    assert digits == src[p..];
    ghost var start := p;
    var i := 0;
    while p < |src| && i < 10
      invariant start <= p <= |src| && i == p - start && i <= 10
      invariant forall k :: start <= k < p ==> IsDigit(src[k])
    {
      i := i + 1;
      if !IsDigit(src[p]) {
        assert digits[p - start] == src[p];
        return false;
      }
      p := p + 1;
    }
    return p == |src| && i > 0;
  }
}
