/** Integer arithmetic as C performs it on `long`, and decimal text as
    `strtol(s, NULL, 10)` reads it and `printf("%ld")` writes it. */
module Numbers {

  function Abs(n: int): nat {
    if n < 0 then -n else n
  }

  /** C's `/`: the quotient truncated toward zero (Dafny's own `/` is Euclidean). */
  function TruncDiv(a: int, b: int): int
    requires b != 0
  {
    if (a < 0) == (b < 0) then Abs(a) / Abs(b) else -(Abs(a) / Abs(b))
  }

  /** C's `%`: the remainder that goes with the truncated quotient. */
  function TruncMod(a: int, b: int): int
    requires b != 0
  {
    a - b * TruncDiv(a, b)
  }

  /** The characterisation of C's `/` and `%` (section 6.5.5 of ISO C99): the
      quotient is truncated toward zero, `(a/b)*b + a%b == a`, and the
      remainder is smaller than the divisor and takes the sign of the dividend. */
  lemma TruncDivMod(a: int, b: int)
    requires b != 0
    ensures b * TruncDiv(a, b) + TruncMod(a, b) == a
    ensures Abs(TruncMod(a, b)) < Abs(b)
    ensures TruncMod(a, b) == 0 || (TruncMod(a, b) < 0 <==> a < 0)
    ensures Abs(b) * Abs(TruncDiv(a, b)) <= Abs(a)
    ensures (TruncDiv(a, b) < 0 ==> (a < 0) != (b < 0)) && (TruncDiv(a, b) > 0 ==> (a < 0) == (b < 0))
  {
    var q, m := Abs(a) / Abs(b), Abs(a) % Abs(b);
    EuclidOnNaturals(Abs(a), Abs(b));
    var t := Abs(b) * q;
    if (a < 0) == (b < 0) {
      assert TruncDiv(a, b) == q;
      assert b * q == if b < 0 then -t else t;
    } else {
      assert TruncDiv(a, b) == -q;
      assert b * -q == if b < 0 then t else -t;
    }
    assert TruncMod(a, b) == if a < 0 then -m else m;
  }

  /** Dafny's `/` and `%` on naturals: quotient and remainder. */
  lemma EuclidOnNaturals(n: nat, d: nat)
    requires d > 0
    ensures n == d * (n / d) + n % d && 0 <= n % d < d && n / d >= 0
  {
  }

  predicate IsDigit(c: char) {
    '0' <= c <= '9'
  }

  /** A non-empty run of decimal digits. */
  predicate IsDigits(s: string) {
    |s| > 0 && forall i :: 0 <= i < |s| ==> IsDigit(s[i])
  }

  /** The number token of the grammar, `/-?[0-9]+/`. */
  predicate IsNumberToken(s: string) {
    IsDigits(s) || (|s| > 1 && s[0] == '-' && IsDigits(s[1..]))
  }

  /** The value of a run of digits, read left to right as strtol does. */
  function DigitsValue(s: string): nat
    requires forall i :: 0 <= i < |s| ==> IsDigit(s[i])
  {
    if s == [] then 0
    else
      assert IsDigit(s[|s| - 1]);
      DigitsValue(s[..|s| - 1]) * 10 + (s[|s| - 1] as int - '0' as int)
  }

  /** The mathematical value of a number token, before any range check. */
  function TokenValue(s: string): int
    requires IsNumberToken(s)
  {
    if s[0] == '-' then -(DigitsValue(s[1..]) as int) else DigitsValue(s)
  }

  function DigitChar(d: nat): (c: char)
    requires d < 10
    ensures IsDigit(c) && c as int - '0' as int == d
  {
    ('0' as int + d) as char
  }

  /** The decimal digits of a natural number, without leading zeros. */
  function Digits(n: nat): (s: string)
    decreases n
  {
    if n < 10 then [DigitChar(n)] else Digits(n / 10) + [DigitChar(n % 10)]
  }

  /** `printf("%ld", n)`: a minus sign for negative numbers, then the digits. */
  function DecimalText(n: int): string {
    if n < 0 then "-" + Digits(-n) else Digits(n)
  }

  lemma {:induction false} DigitsRoundTrip(n: nat)
    ensures IsDigits(Digits(n)) && DigitsValue(Digits(n)) == n
    decreases n
  {
    if n >= 10 {
      DigitsRoundTrip(n / 10);
      var s := Digits(n);
      assert s[..|s| - 1] == Digits(n / 10);
    }
  }

  /** A run of digits as `printf` writes it: no leading zero unless it is the
      single digit `0`. */
  predicate Canonical(s: string) {
    IsDigits(s) && (s[0] == '0' ==> |s| == 1)
  }

  /** The digits of a number are canonical. */
  lemma {:induction false} DigitsCanonical(n: nat)
    ensures Canonical(Digits(n))
    decreases n
  {
    if n >= 10 {
      var m := n / 10;
      DigitsCanonical(m);
      DigitsRoundTrip(m);
      if m >= 10 {
        assert |Digits(m)| > 1;
      }
      assert Digits(m)[0] != '0';
      assert Digits(n)[0] == Digits(m)[0];
    }
  }

  /** A run of digits whose first digit is not zero has a positive value. */
  lemma {:induction false} LeadingDigitPositive(s: string)
    requires IsDigits(s) && s[0] != '0'
    ensures DigitsValue(s) > 0
    decreases |s|
  {
    if |s| > 1 {
      var init := s[..|s| - 1];
      assert init[0] == s[0];
      LeadingDigitPositive(init);
    }
  }

  /** Canonical digits are exactly what `printf` writes for their value. */
  lemma {:induction false} CanonicalRoundTrip(s: string)
    requires Canonical(s)
    ensures Digits(DigitsValue(s)) == s
    decreases |s|
  {
    var init, d := s[..|s| - 1], s[|s| - 1] as int - '0' as int;
    assert IsDigit(s[|s| - 1]);
    if |s| > 1 {
      assert init[0] == s[0];
      LeadingDigitPositive(init);
      CanonicalRoundTrip(init);
      var n := DigitsValue(s);
      assert n == DigitsValue(init) * 10 + d && 0 <= d < 10;
      assert n / 10 == DigitsValue(init) && n % 10 == d;
      assert s == init + [s[|s| - 1]];
    }
  }

  /** A leading zero does not change the value strtol reads. */
  lemma {:induction false} LeadingZeroValue(s: string)
    requires forall i :: 0 <= i < |s| ==> IsDigit(s[i])
    ensures DigitsValue("0" + s) == DigitsValue(s)
    decreases |s|
  {
    if s != [] {
      var init := s[..|s| - 1];
      LeadingZeroValue(init);
      assert ("0" + s)[..|s|] == "0" + init;
    }
  }

  /** A run of digits with its leading zeros removed, keeping one digit. */
  function StripZeros(s: string): (r: string)
    requires IsDigits(s)
    ensures Canonical(r) && DigitsValue(r) == DigitsValue(s)
    decreases |s|
  {
    if |s| > 1 && s[0] == '0' then
      LeadingZeroValue(s[1..]);
      assert s == "0" + s[1..];
      StripZeros(s[1..])
    else s
  }

  /** The text of a number token without its leading zeros, and without the
      sign of a negative zero. */
  function CanonicalToken(s: string): string
    requires IsNumberToken(s)
  {
    if s[0] == '-' then
      var m := StripZeros(s[1..]);
      if m == "0" then "0" else "-" + m
    else StripZeros(s)
  }

  /** Reading a number token and writing its value back with `printf("%ld")`
      gives the token without leading zeros: the token `007` reads as 7 and
      `-0` as 0. */
  lemma TokenRoundTrip(s: string)
    requires IsNumberToken(s)
    ensures DecimalText(TokenValue(s)) == CanonicalToken(s)
  {
    var digits := if s[0] == '-' then s[1..] else s;
    var m := StripZeros(digits);
    CanonicalRoundTrip(m);
    if s[0] == '-' && m != "0" {
      LeadingDigitPositive(m);
    }
  }

  /** What `printf("%ld")` writes is a number token that reads back as the
      same number. */
  lemma DecimalTextRoundTrip(n: int)
    ensures IsNumberToken(DecimalText(n)) && TokenValue(DecimalText(n)) == n
  {
    if n < 0 {
      DigitsRoundTrip(-n);
      assert DecimalText(n)[1..] == Digits(-n);
    } else {
      DigitsRoundTrip(n);
    }
  }
}
