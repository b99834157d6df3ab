/**
 * Base-16 numerals: the decoding done by `u32::from_str_radix(_, 16)` and the
 * encoding done by the `{:x}` format specifier, over unbounded naturals with
 * the 32-bit bound made explicit.
 */
module Hex {
  import opened Wrappers

  /** Largest value of Rust's `u32`. */
  const U32_MAX: nat := 0xFFFF_FFFF

  type uint32 = x: nat | x <= U32_MAX

  /** A digit of the regular-expression class `[0-9A-F]`. */
  predicate IsUpperHexDigit(c: char) {
    '0' <= c <= '9' || 'A' <= c <= 'F'
  }

  /** A digit that `{:x}` may print: `[0-9a-f]`. */
  predicate IsLowerHexDigit(c: char) {
    '0' <= c <= '9' || 'a' <= c <= 'f'
  }

  /** A digit that base-16 parsing accepts, in either case. */
  predicate IsHexDigit(c: char) {
    IsUpperHexDigit(c) || IsLowerHexDigit(c)
  }

  /** A non-empty run of `[0-9A-F]`, as the regex group `([0-9A-F]+)` captures. */
  predicate IsUpperHexRun(s: string) {
    |s| > 0 && forall i :: 0 <= i < |s| ==> IsUpperHexDigit(s[i])
  }

  /** A non-empty string of hex digits of either case. */
  predicate IsHexString(s: string) {
    |s| > 0 && forall i :: 0 <= i < |s| ==> IsHexDigit(s[i])
  }

  /** The text `{:x}` produces: lower-case digits, no prefix, no leading zero except for "0" itself. */
  predicate IsCanonicalHex(s: string) {
    |s| > 0 && (forall i :: 0 <= i < |s| ==> IsLowerHexDigit(s[i])) && (s[0] == '0' ==> |s| == 1)
  }

  function DigitValue(c: char): (d: nat)
    requires IsHexDigit(c)
    ensures d < 16
  {
    if '0' <= c <= '9' then c as int - '0' as int
    else if 'a' <= c <= 'f' then c as int - 'a' as int + 10
    else c as int - 'A' as int + 10
  }

  function DigitChar(d: nat): (c: char)
    requires d < 16
    ensures IsLowerHexDigit(c) && DigitValue(c) == d
    ensures c == '0' <==> d == 0
  {
    if d < 10 then ('0' as int + d) as char else ('a' as int + d - 10) as char
  }

  /** Positional base-16 value of a digit string, most significant digit first. */
  function HexValue(s: string): nat
    requires forall i :: 0 <= i < |s| ==> IsHexDigit(s[i])
  {
    if s == [] then 0 else HexValue(s[..|s| - 1]) * 16 + DigitValue(s[|s| - 1])
  }

  /**
   * `u32::from_str_radix(s, 16).ok()` on the strings the caller passes it:
   * empty or non-digit input fails, and so does a value that does not fit in 32 bits.
   * Leading zeros are allowed, whatever their number.
   */
  function FromHexU32(s: string): Option<uint32> {
    if IsHexString(s) && HexValue(s) <= U32_MAX then Some(HexValue(s)) else None
  }

  /** `format!("{:x}", n)`: the shortest lower-case base-16 numeral of `n`. */
  function ToHex(n: nat): (s: string)
    ensures IsCanonicalHex(s)
    ensures HexValue(s) == n
  {
    if n < 16 then [DigitChar(n)]
    else
      var init := ToHex(n / 16);
      var s := init + [DigitChar(n % 16)];
      assert s[..|s| - 1] == init;
      s
  }

  /** A string whose first digit is not zero has a positive value. */
  lemma {:induction false} HexValuePositive(s: string)
    requires IsHexString(s) && DigitValue(s[0]) != 0
    ensures HexValue(s) > 0
  {
    if |s| > 1 {
      var init := s[..|s| - 1];
      assert init[0] == s[0];
      HexValuePositive(init);
    }
  }

  /** Encoding inverts decoding on canonical numerals: `{:x}` gives back exactly the text it read. */
  lemma {:induction false} ToHexOfHexValue(s: string)
    requires IsCanonicalHex(s)
    ensures ToHex(HexValue(s)) == s
  {
    var last := s[|s| - 1];
    if |s| == 1 {
      assert HexValue(s) == DigitValue(last);
      assert DigitChar(DigitValue(last)) == last;
    } else {
      var init := s[..|s| - 1];
      assert init[0] == s[0];
      assert IsCanonicalHex(init);
      assert DigitValue(init[0]) != 0;
      HexValuePositive(init);
      ToHexOfHexValue(init);
      var n := HexValue(s);
      assert n / 16 == HexValue(init) && n % 16 == DigitValue(last);
      assert DigitChar(DigitValue(last)) == last;
      assert s == init + [last];
    }
  }

  /** Round trip through the parser: the `{:x}` text of any `u32` parses back to it. */
  lemma FromHexU32OfToHex(n: uint32)
    ensures FromHexU32(ToHex(n)) == Some(n)
  {
  }

  /** Two numerals read the same exactly when they print the same, so `ToHex` is injective. */
  lemma ToHexInjective(m: nat, n: nat)
    ensures ToHex(m) == ToHex(n) <==> m == n
  {
  }
}
