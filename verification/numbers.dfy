/**
 * Decimal digits: `Integer.parseInt`, fixed-width zero-padded fields as the date
 * formats use them, and the plain decimal rendering of a natural number.
 */
module Numbers {
  import opened Results

  /** Bounds of Java's 32-bit `int`. */
  const IntMin: int := -0x8000_0000
  const IntMax: int := 0x7fff_ffff

  predicate IsDigit(c: char)
  {
    '0' <= c <= '9'
  }

  predicate AllDigits(s: string)
  {
    forall i :: 0 <= i < |s| ==> IsDigit(s[i])
  }

  function DigitChar(n: nat): (c: char)
    requires n < 10
    ensures IsDigit(c)
  {
    ('0' as int + n) as char
  }

  function DigitValue(c: char): (n: nat)
    requires IsDigit(c)
    ensures n < 10 && DigitChar(n) == c
  {
    c as int - '0' as int
  }

  /** The value of a string of decimal digits, most significant first. */
  function DigitsValue(s: string): nat
    requires AllDigits(s)
    decreases |s|
  {
    if |s| == 0 then 0 else DigitsValue(s[..|s| - 1]) * 10 + DigitValue(s[|s| - 1])
  }

  function Pow10(n: nat): (r: nat)
    ensures r >= 1
  {
    if n == 0 then 1 else 10 * Pow10(n - 1)
  }

  /** The last `width` decimal digits of `n`, zero-padded on the left. */
  function Pad(n: nat, width: nat): (r: string)
    ensures |r| == width && AllDigits(r)
    decreases width
  {
    if width == 0 then "" else Pad(n / 10, width - 1) + [DigitChar(n % 10)]
  }

  /** `n` written in decimal without leading zeros. */
  function Decimal(n: nat): (r: string)
    ensures |r| >= 1 && AllDigits(r)
    decreases n
  {
    if n < 10 then [DigitChar(n)] else Decimal(n / 10) + [DigitChar(n % 10)]
  }

  lemma DigitsValueSnoc(s: string, c: char)
    requires AllDigits(s) && IsDigit(c)
    ensures AllDigits(s + [c])
    ensures DigitsValue(s + [c]) == DigitsValue(s) * 10 + DigitValue(c)
  {
    assert (s + [c])[..|s|] == s;
  }

  /** Padding to enough digits keeps the value. */
  lemma {:induction false} PadValue(n: nat, width: nat)
    requires n < Pow10(width)
    ensures DigitsValue(Pad(n, width)) == n
    decreases width
  {
    if width > 0 {
      PadValue(n / 10, width - 1);
      DigitsValueSnoc(Pad(n / 10, width - 1), DigitChar(n % 10));
    }
  }

  /** Fixed-width digit strings are exactly the padded renderings of their values. */
  lemma {:induction false} PadOfDigits(s: string)
    requires AllDigits(s)
    ensures Pad(DigitsValue(s), |s|) == s
    decreases |s|
  {
    if |s| > 0 {
      var init := s[..|s| - 1];
      var c := s[|s| - 1];
      var v, d := DigitsValue(init), DigitValue(c);
      assert DigitsValue(s) == v * 10 + d;
      DivModDigit(v, d);
      PadOfDigits(init);
      assert Pad(DigitsValue(s), |s|) == Pad(v, |init|) + [DigitChar(d)];
      assert s == init + [c];
    }
  }

  /** Appending a digit `d` to `v` is undone by `/ 10` and `% 10`. */
  lemma DivModDigit(v: nat, d: nat)
    requires d < 10
    ensures (v * 10 + d) / 10 == v && (v * 10 + d) % 10 == d
  {
  }

  lemma {:induction false} DecimalValue(n: nat)
    ensures DigitsValue(Decimal(n)) == n
    decreases n
  {
    if n >= 10 {
      DecimalValue(n / 10);
      DigitsValueSnoc(Decimal(n / 10), DigitChar(n % 10));
    }
  }

  /** Java `int` arithmetic: the result of an operation reduced into the 32-bit range, wrapping around. */
  function Wrap32(x: int): (r: int)
    ensures IntMin <= r <= IntMax
    ensures IntMin <= x <= IntMax ==> r == x
    ensures x == IntMin - 1 ==> r == IntMax
  {
    (x - IntMin) % 0x1_0000_0000 + IntMin
  }

  /** An optional sign followed by at least one decimal digit, and nothing else. */
  predicate IntText(s: string)
  {
    && |s| >= 1
    && (IsDigit(s[0]) || s[0] == '-' || s[0] == '+')
    && AllDigits(s[1..])
    && IsDigit(s[|s| - 1])
  }

  /**
   * `Integer.parseInt`: an optional `+` or `-`, then at least one decimal digit,
   * and a value inside the 32-bit range; anything else is a `NumberFormatException`.
   */
  function ParseInt(s: string): (r: Option<int>)
    ensures r.Some? ==> IntMin <= r.value <= IntMax
    ensures r.Some? ==> |s| >= 1
  {
    if |s| == 0 then None
    else
      var signed := s[0] == '-' || s[0] == '+';
      var digits := if signed then s[1..] else s;
      if |digits| == 0 || !AllDigits(digits) then None
      else
        var magnitude: int := DigitsValue(digits);
        var v: int := if s[0] == '-' then -magnitude else magnitude;
        if IntMin <= v <= IntMax then Some(v) else None
  }

  /**
   * What parses is an optional sign and then digits only, and a negative value
   * comes only from a leading '-'.
   */
  lemma ParseIntText(s: string)
    requires ParseInt(s).Some?
    ensures IntText(s)
    ensures ParseInt(s).value < 0 ==> s[0] == '-'
  {
    var digits := if s[0] == '-' || s[0] == '+' then s[1..] else s;
    assert AllDigits(digits) && |digits| > 0;
    assert s[|s| - 1] == digits[|digits| - 1];
  }

  /** Every non-negative `int` written in decimal parses back to itself. */
  lemma ParseIntDecimal(n: nat)
    requires n <= IntMax
    ensures ParseInt(Decimal(n)) == Some(n)
  {
    DecimalValue(n);
  }

  /** A string that holds a character other than a digit or a sign never parses. */
  lemma ParseIntRejects(s: string, i: nat)
    requires i < |s| && !IsDigit(s[i]) && s[i] != '-' && s[i] != '+'
    ensures ParseInt(s) == None
  {
    if i > 0 && (s[0] == '-' || s[0] == '+') {
      assert s[1..][i - 1] == s[i];
    }
  }
}
