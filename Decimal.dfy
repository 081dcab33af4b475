/** Decimal numerals as Rust's standard library writes and reads them for
    unsigned integers: `Display` with a zero-padded minimum width (`{:02}`,
    `{:06}`) and `u32::from_str`. */
module Decimal {
  import opened RustInt
  import opened Wrappers

  function Pow10(k: nat): (p: nat)
    ensures p >= 1
  {
    if k == 0 then 1 else 10 * Pow10(k - 1)
  }

  predicate IsDigit(c: char) {
    '0' <= c <= '9'
  }

  predicate AllDigits(s: string) {
    forall i :: 0 <= i < |s| ==> IsDigit(s[i])
  }

  function DigitChar(d: nat): (c: char)
    requires d < 10
    ensures IsDigit(c)
  {
    ('0' as int + d) as char
  }

  function DigitValue(c: char): (d: nat)
    requires IsDigit(c)
    ensures d < 10 && DigitChar(d) == c
  {
    c as int - '0' as int
  }

  /** The number a string of decimal digits denotes, most significant digit first. */
  function Value(s: string): (n: nat)
    requires AllDigits(s)
    ensures n < Pow10(|s|)
  {
    if s == [] then 0 else Value(s[..|s| - 1]) * 10 + DigitValue(s[|s| - 1])
  }

  /** The shortest numeral for `n`: Rust's `Display` for an unsigned integer. */
  function Digits(n: nat): (s: string)
    ensures 1 <= |s| && AllDigits(s) && Value(s) == n
    ensures s[0] == '0' ==> s == "0"
    ensures |s| > 1 ==> Pow10(|s| - 1) <= n
  {
    if n < 10 then [DigitChar(n)]
    else
      var prefix := Digits(n / 10);
      var s := prefix + [DigitChar(n % 10)];
      assert s[..|s| - 1] == prefix;
      s
  }

  /** `n` written with `{:0w}`: the shortest numeral, filled with leading
      zeros up to `width` characters; a longer numeral is not cut. */
  function ZeroPadded(n: nat, width: nat): (s: string)
    ensures AllDigits(s) && Value(s) == n
    ensures |s| >= 1 && |s| >= width
    ensures n < Pow10(width) ==> |s| == width || (width == 0 && s == "0")
    ensures |s| > width ==> s == Digits(n)
    decreases width
  {
    NumeralLength(n, width);
    if |Digits(n)| >= width then Digits(n)
    else
      var rest := ZeroPadded(n, width - 1);
      NumeralLength(n, width - 1);
      LeadingZeros("0", rest);
      "0" + rest
  }

  /** `s.parse::<u32>()`: an optional `+` sign followed by at least one
      decimal digit, denoting a value below 2^32. A `-` sign, any other
      character, the empty string and a lone `+` are rejected. */
  function ParseU32(s: string): (r: Option<u32>)
    ensures s == [] ==> r == None
    ensures r.Some? ==> |s| >= 1 && (IsDigit(s[0]) || s[0] == '+') && AllDigits(s[1..])
    ensures AllDigits(s) && s != [] && Value(s) < U32_LIMIT ==> r == Some(Value(s))
    ensures r.Some? ==> '.' !in s && ':' !in s && '-' !in s
    ensures r.Some? <==> (s != [] &&
      var d := if s[0] == '+' then s[1..] else s; d != [] && AllDigits(d) && Value(d) < U32_LIMIT)
    ensures r.Some? ==> r.value == Value(if s[0] == '+' then s[1..] else s)
  {
    if s == [] then None
    else
      var digits := if s[0] == '+' then s[1..] else s;
      if digits == [] || !AllDigits(digits) then None
      else if Value(digits) >= U32_LIMIT then None
      else
        assert s[0] != '+' ==> s[1..] == digits[1..];
        Some(Value(digits))
  }

  /** A numeral holds no character other than digits. */
  lemma NonDigitAbsent(s: string, c: char)
    requires AllDigits(s) && !IsDigit(c)
    ensures c !in s && multiset(s)[c] == 0
  {
  }

  /** Appending digits scales what comes before them by ten per digit. */
  lemma {:induction false} ValueAppend(a: string, b: string)
    requires AllDigits(a) && AllDigits(b)
    ensures AllDigits(a + b) && Value(a + b) == Value(a) * Pow10(|b|) + Value(b)
  {
    if b == [] {
      assert a + b == a;
    } else {
      var b' := b[..|b| - 1];
      var ab := a + b;
      assert ab[..|ab| - 1] == a + b';
      assert ab[|ab| - 1] == b[|b| - 1];
      ValueAppend(a, b');
      ShiftDigit(Value(a), Pow10(|b'|), Value(b'), DigitValue(b[|b| - 1]));
    }
  }

  lemma ShiftDigit(x: int, p: int, y: int, d: int)
    ensures (x * p + y) * 10 + d == x * (p * 10) + (y * 10 + d)
  {
  }

  lemma {:induction false} ValueOfZeros(z: string)
    requires forall i :: 0 <= i < |z| ==> z[i] == '0'
    ensures AllDigits(z) && Value(z) == 0
  {
    if z != [] {
      ValueOfZeros(z[..|z| - 1]);
    }
  }

  /** Leading zeros do not change the value of a numeral. */
  lemma LeadingZeros(z: string, s: string)
    requires forall i :: 0 <= i < |z| ==> z[i] == '0'
    requires AllDigits(s)
    ensures AllDigits(z + s) && Value(z + s) == Value(s)
  {
    ValueOfZeros(z);
    ValueAppend(z, s);
  }

  lemma {:induction false} Pow10Monotone(i: nat, j: nat)
    requires i <= j
    ensures Pow10(i) <= Pow10(j)
  {
    if i < j {
      Pow10Monotone(i, j - 1);
    }
  }

  /** The shortest numeral of a number below 10^k has at most k digits. */
  lemma NumeralLength(n: nat, k: nat)
    ensures n < Pow10(k) ==> |Digits(n)| <= k || (k == 0 && Digits(n) == "0")
    ensures Pow10(k) <= n ==> |Digits(n)| > k
  {
    var s := Digits(n);
    if n < Pow10(k) && |s| > k && |s| > 1 {
      Pow10Monotone(k, |s| - 1);
    }
    if Pow10(k) <= n && |s| <= k {
      Pow10Monotone(|s|, k);
    }
  }

  /** The last `width` decimal digits of `n`, most significant first. */
  function Fixed(n: nat, width: nat): string {
    if width == 0 then [] else Fixed(n / 10, width - 1) + [DigitChar(n % 10)]
  }

  /** A numeral is determined by its length and its value. */
  lemma {:induction false} NumeralUnique(s: string)
    requires AllDigits(s)
    ensures s == Fixed(Value(s), |s|)
  {
    if s != [] {
      var prefix := s[..|s| - 1];
      NumeralUnique(prefix);
      assert s == prefix + [s[|s| - 1]];
    }
  }

  /** Padding a number that fits the width gives exactly its last `width`
      digits. */
  lemma ZeroPaddedFixed(n: nat, width: nat)
    requires 1 <= width && n < Pow10(width)
    ensures ZeroPadded(n, width) == Fixed(n, width)
  {
    NumeralUnique(ZeroPadded(n, width));
  }

  /** A zero-padded numeral parses back to the number it was written from. */
  lemma ParseZeroPadded(n: u32, width: nat)
    ensures ParseU32(ZeroPadded(n, width)) == Some(n)
  {
    var s := ZeroPadded(n, width);
    assert s != [];
  }
}
