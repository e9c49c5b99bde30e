/** Integers written as text, the way Python's `%d`, `%x` and `%032x` write them, and read back. */
module Numerals {
  import opened Errors

  /** The digit for `d`, lower-case for 10 to 15. */
  function DigitChar(d: nat): (c: char)
    requires d < 16
    ensures DigitValue(c) == d
  {
    if d < 10 then ('0' as int + d) as char else ('a' as int + d - 10) as char
  }

  /** The value of a digit character, 16 for any character that is not one. */
  function DigitValue(c: char): nat {
    if '0' <= c <= '9' then c as int - '0' as int
    else if 'a' <= c <= 'f' then c as int - 'a' as int + 10
    else 16
  }

  predicate IsDigitIn(c: char, base: nat) {
    DigitValue(c) < base
  }

  predicate AllDigits(s: string, base: nat) {
    forall i :: 0 <= i < |s| ==> IsDigitIn(s[i], base)
  }

  /** The number a string of digits denotes, most significant digit first. */
  function Value(s: string, base: nat): nat
    requires AllDigits(s, base)
    decreases |s|
  {
    if s == [] then 0 else Value(s[..|s| - 1], base) * base + DigitValue(s[|s| - 1])
  }

  /** `n` written in `base` ("0" for zero): what `%d` and `%x` print for `n >= 0`. Reading the
      digits back gives `n`. */
  function Numeral(n: nat, base: nat): (s: string)
    requires 2 <= base <= 16
    ensures |s| >= 1 && AllDigits(s, base)
    ensures Value(s, base) == n
    decreases n
  {
    if n < base then [DigitChar(n)]
    else
      DivMod(n, base);
      var front := Numeral(n / base, base);
      LastDigit(front, n, base);
      front + [DigitChar(n % base)]
  }

  lemma DivMod(n: nat, base: nat)
    requires 2 <= base <= n
    ensures (n / base) * base + n % base == n && n % base < base && 1 <= n / base < n
  {
  }

  /** The digits of `n / base` followed by the digit of `n % base` denote `n`. */
  lemma LastDigit(front: string, n: nat, base: nat)
    requires 2 <= base <= 16 && base <= n
    requires AllDigits(front, base) && Value(front, base) == n / base
    ensures AllDigits(front + [DigitChar(n % base)], base)
    ensures Value(front + [DigitChar(n % base)], base) == n
  {
    DivMod(n, base);
    AppendDigit(front, n % base, base);
  }

  lemma AppendDigit(front: string, d: nat, base: nat)
    requires AllDigits(front, base) && d < base <= 16
    ensures AllDigits(front + [DigitChar(d)], base)
    ensures Value(front + [DigitChar(d)], base) == Value(front, base) * base + d
  {
    var s := front + [DigitChar(d)];
    assert s[..|s| - 1] == front;
  }

  lemma DivBelow(n: nat, base: nat, p: nat)
    requires 1 <= base && n < base * p
    ensures n / base < p
  {
  }

  function Pow(base: nat, k: nat): nat
    decreases k
  {
    if k == 0 then 1 else base * Pow(base, k - 1)
  }

  /** A number below `base^k` needs at most `k` digits. */
  lemma {:induction false} NumeralLength(n: nat, base: nat, k: nat)
    requires 2 <= base <= 16 && 1 <= k && n < Pow(base, k)
    ensures |Numeral(n, base)| <= k
    decreases k
  {
    assert Pow(base, 1) == base;
    if n >= base {
      DivBelow(n, base, Pow(base, k - 1));
      NumeralLength(n / base, base, k - 1);
    }
  }

  function Zeros(k: nat): (z: string)
    ensures |z| == k && forall i :: 0 <= i < k ==> z[i] == '0'
  {
    seq(k, _ => '0')
  }

  /** Left-padding with zeros to at least `width` characters, as the `0<width>` flag of `%` does. */
  function ZeroPad(s: string, width: nat): (r: string)
    ensures |r| == if |s| < width then width else |s|
    ensures IsSuffixOf(s, r)
  {
    if |s| < width then Zeros(width - |s|) + s else s
  }

  predicate IsSuffixOf(s: string, r: string) {
    |s| <= |r| && r[|r| - |s|..] == s
  }

  /** Leading zeros do not change the value of a numeral. */
  lemma {:induction false} LeadingZeros(k: nat, s: string, base: nat)
    requires 2 <= base && AllDigits(s, base)
    ensures AllDigits(Zeros(k) + s, base)
    ensures Value(Zeros(k) + s, base) == Value(s, base)
    decreases |s|
  {
    var z := Zeros(k);
    if s == [] {
      assert z + s == z;
      ZerosValue(k, base);
    } else {
      var init := s[..|s| - 1];
      LeadingZeros(k, init, base);
      assert (z + s)[..|z + s| - 1] == z + init;
    }
  }

  lemma {:induction false} ZerosValue(k: nat, base: nat)
    requires 2 <= base
    ensures AllDigits(Zeros(k), base) && Value(Zeros(k), base) == 0
    decreases k
  {
    if k > 0 {
      ZerosValue(k - 1, base);
      assert Zeros(k)[..k - 1] == Zeros(k - 1);
    }
  }

  /** `'%x' % n`. */
  function Hex(n: nat): string {
    Numeral(n, 16)
  }

  /** `'%0<width>x' % n`: at least `width` lower-case hex digits, reading back as `n`. */
  function PaddedHex(n: nat, width: nat): (s: string)
    ensures AllDigits(s, 16) && Value(s, 16) == n
    ensures |s| >= width
  {
    var s := ZeroPad(Hex(n), width);
    LeadingZeros(if |Hex(n)| < width then width - |Hex(n)| else 0, Hex(n), 16);
    assert |Hex(n)| >= width ==> s == Zeros(0) + Hex(n);
    s
  }

  /** `%032x` of a number below 2^128 is exactly 32 digits. */
  lemma PaddedHexWidth(n: nat, width: nat)
    requires 1 <= width && n < Pow(16, width)
    ensures |PaddedHex(n, width)| == width
  {
    NumeralLength(n, 16, width);
  }

  /** `'%d' % n`. */
  function Decimal(n: int): string {
    if n < 0 then "-" + Numeral(-n, 10) else Numeral(n, 10)
  }

  /** Reads an optionally negative decimal integer, the inverse of `Decimal`. */
  function ParseDecimal(s: string): Result<int> {
    if |s| > 0 && s[0] == '-' then
      (if |s| > 1 && AllDigits(s[1..], 10) then Ok(0 - Value(s[1..], 10)) else Err("not a number"))
    else if |s| > 0 && AllDigits(s, 10) then Ok(Value(s, 10))
    else Err("not a number")
  }

  lemma DecimalRoundTrip(n: int)
    ensures ParseDecimal(Decimal(n)) == Ok(n)
  {
    if n < 0 {
      assert Decimal(n)[1..] == Numeral(-n, 10);
    } else {
      assert DigitValue(Decimal(n)[0]) < 10;
    }
  }
}
