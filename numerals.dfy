/** Numbers written out in decimal (`{}`) and lowercase hexadecimal (`{:x}`). */
module Numerals {
  import opened Chars

  /** The lowercase digit for a value below 16. */
  function DigitChar(d: nat): (c: char)
    requires d < 16
    ensures IsLowerHex(c)
    ensures d < 10 <==> IsDigit(c)
  {
    if d < 10 then ('0' as int + d) as char else ('a' as int + d - 10) as char
  }

  /** The value of a lowercase hex digit. */
  function CharValue(c: char): (d: nat)
    requires IsLowerHex(c)
    ensures d < 16
    ensures IsDigit(c) <==> d < 10
  {
    if IsDigit(c) then c as int - '0' as int else c as int - 'a' as int + 10
  }

  lemma DigitRoundTrip(d: nat)
    requires d < 16
    ensures CharValue(DigitChar(d)) == d
  {
  }

  predicate DigitsBelow(s: string, base: nat) {
    forall i :: 0 <= i < |s| ==> IsLowerHex(s[i]) && CharValue(s[i]) < base
  }

  /** `n` in base 10 or 16, most significant digit first, with no leading zeros. */
  function Format(n: nat, base: nat): (s: string)
    requires Radix(base)
    ensures |s| >= 1 && DigitsBelow(s, base)
    decreases n
  {
    if n < base then [DigitChar(n)]
    else
      DivMod(n, base);
      AppendDigit(Format(n / base, base), n % base, base)
  }

  /** The two bases the code prints in. */
  predicate Radix(base: nat) { base == 10 || base == 16 }

  /** Euclidean division by the base, one constant base at a time. */
  lemma DivMod(n: nat, base: nat)
    requires Radix(base) && n >= base
    ensures 0 < n / base < n && n % base < base
    ensures n == (n / base) * base + n % base
  {
    if base == 10 {
    } else {
    }
  }

  /** One more digit at the end. */
  function AppendDigit(s: string, d: nat, base: nat): (r: string)
    requires d < base <= 16 && DigitsBelow(s, base)
    ensures r == s + [DigitChar(d)] && DigitsBelow(r, base)
  {
    DigitRoundTrip(d);
    s + [DigitChar(d)]
  }

  /** The number a string of digits stands for, most significant first. */
  function Value(s: string, base: nat): nat
    requires DigitsBelow(s, base)
  {
    if s == [] then 0 else Value(s[..|s| - 1], base) * base + CharValue(s[|s| - 1])
  }

  /** Reading a formatted number gives the number back. */
  lemma {:induction false} ValueOfFormat(n: nat, base: nat)
    requires Radix(base)
    ensures Value(Format(n, base), base) == n
    decreases n
  {
    var s := Format(n, base);
    if n < base {
      DigitRoundTrip(n);
      assert s[..0] == [];
    } else {
      DivMod(n, base);
      DigitRoundTrip(n % base);
      ValueOfFormat(n / base, base);
      assert s[..|s| - 1] == Format(n / base, base);
    }
  }

  /** Different numbers are written differently. */
  lemma FormatInjective(a: nat, b: nat, base: nat)
    requires Radix(base)
    ensures Format(a, base) == Format(b, base) ==> a == b
  {
    ValueOfFormat(a, base);
    ValueOfFormat(b, base);
  }

  /** Decimal numerals hold only the digits 0-9. */
  lemma DecimalDigits(n: nat)
    ensures forall i :: 0 <= i < |Format(n, 10)| ==> IsDigit(Format(n, 10)[i])
  {
  }
}
