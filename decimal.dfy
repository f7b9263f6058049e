/** Decimal numerals: how the gallery (`${index}` in JavaScript) and the
    renaming tools (f"{n}" and int(...) in Python) write and read a
    non-negative integer. */
module Decimal {
  import opened Basics

  predicate IsDigit(c: char) {
    '0' <= c <= '9'
  }

  predicate AllDigits(s: string) {
    forall i :: 0 <= i < |s| ==> IsDigit(s[i])
  }

  function DigitChar(d: nat): (c: char)
    requires d < 10
    ensures IsDigit(c) && c as int - '0' as int == d
  {
    ('0' as int + d) as char
  }

  function DigitValue(c: char): (d: nat)
    requires IsDigit(c)
    ensures d < 10
  {
    c as int - '0' as int
  }

  /** The shortest decimal numeral of n: no sign, no leading zero except for 0 itself. */
  function NatToString(n: nat): (s: string)
    ensures |s| > 0 && AllDigits(s)
    ensures s[0] == '0' ==> n == 0 && s == "0"
  {
    if n < 10 then [DigitChar(n)]
    else NatToString(n / 10) + [DigitChar(n % 10)]
  }

  /** The value of a string of decimal digits, leading zeros allowed. */
  function DigitsValue(s: string): nat
    requires AllDigits(s)
  {
    if s == [] then 0
    else DigitsValue(s[..|s| - 1]) * 10 + DigitValue(s[|s| - 1])
  }

  /** Reading back what NatToString writes gives the same number. */
  lemma {:induction false} DigitsValueOfNatToString(n: nat)
    ensures DigitsValue(NatToString(n)) == n
  {
    if n >= 10 {
      DigitsValueOfNatToString(n / 10);
      var s := NatToString(n);
      assert s[..|s| - 1] == NatToString(n / 10);
    }
  }

  /** Different numbers have different numerals. */
  lemma NatToStringInjective(m: nat, n: nat)
    ensures NatToString(m) == NatToString(n) ==> m == n
  {
    DigitsValueOfNatToString(m);
    DigitsValueOfNatToString(n);
  }

  /** A numeral framed by a fixed prefix and suffix (a file name such as
      "12.webp" or "_temp_number_3.jpg") still determines its number. */
  lemma FramedNumeralInjective(prefix: string, suffix: string, m: nat, n: nat)
    ensures prefix + NatToString(m) + suffix == prefix + NatToString(n) + suffix ==> m == n
  {
    var a, b := NatToString(m), NatToString(n);
    if prefix + a + suffix == prefix + b + suffix {
      var x, y := prefix + a + suffix, prefix + b + suffix;
      assert |a| == |b|;
      assert a == x[|prefix|..|prefix| + |a|];
      assert b == y[|prefix|..|prefix| + |b|];
      NatToStringInjective(m, n);
    }
  }

  // ----- Python's \d and int() on Unicode text -----

  /** The first code point of each run of ten Unicode decimal digits (general
      category Nd, Unicode 15.0): each run holds the digits 0 to 9 in order,
      and the runs do not overlap. The first run is the ASCII digits. */
  const DecimalZeros: seq<int> :=
    [0x30, 0x660, 0x6F0, 0x7C0, 0x966, 0x9E6, 0xA66, 0xAE6, 0xB66, 0xBE6]
    + [0xC66, 0xCE6, 0xD66, 0xDE6, 0xE50, 0xED0, 0xF20, 0x1040, 0x1090, 0x17E0]
    + [0x1810, 0x1946, 0x19D0, 0x1A80, 0x1A90, 0x1B50, 0x1BB0, 0x1C40, 0x1C50, 0xA620]
    + [0xA8D0, 0xA900, 0xA9D0, 0xA9F0, 0xAA50, 0xABF0, 0xFF10, 0x104A0, 0x10D30, 0x11066]
    + [0x110F0, 0x11136, 0x111D0, 0x112F0, 0x11450, 0x114D0, 0x11650, 0x116C0, 0x11730, 0x118E0]
    + [0x11950, 0x11C50, 0x11D50, 0x11DA0, 0x11F50, 0x16A60, 0x16AC0, 0x16B50, 0x1D7CE, 0x1D7D8]
    + [0x1D7E2, 0x1D7EC, 0x1D7F6, 0x1E140, 0x1E2F0, 0x1E4F0, 0x1E950, 0x1FBF0]

  /** The zero of the run of decimal digits that holds c, searched from entry i on. */
  function ZeroOf(c: char, i: nat): (r: Option<int>)
    ensures r.Some? ==> r.value <= c as int < r.value + 10
    decreases |DecimalZeros| - i
  {
    if i >= |DecimalZeros| then None
    else if DecimalZeros[i] <= c as int < DecimalZeros[i] + 10 then Some(DecimalZeros[i])
    else ZeroOf(c, i + 1)
  }

  /** A character matched by \d in a Python str pattern: a Unicode decimal digit. */
  predicate IsDecimal(c: char) {
    ZeroOf(c, 0).Some?
  }

  /** The digit a Unicode decimal digit stands for, as int() reads it. */
  function DecimalValue(c: char): (d: nat)
    requires IsDecimal(c)
    ensures d < 10
  {
    c as int - ZeroOf(c, 0).value
  }

  predicate AllDecimal(s: string) {
    forall i :: 0 <= i < |s| ==> IsDecimal(s[i])
  }

  /** int(s) for a string of Unicode decimal digits, leading zeros allowed. */
  function DecimalsValue(s: string): nat
    requires AllDecimal(s)
  {
    if s == [] then 0
    else DecimalsValue(s[..|s| - 1]) * 10 + DecimalValue(s[|s| - 1])
  }

  /** An ASCII digit is a decimal digit with its usual value. */
  lemma AsciiDigitIsDecimal(c: char)
    requires IsDigit(c)
    ensures IsDecimal(c) && DecimalValue(c) == DigitValue(c)
  {
    assert DecimalZeros[0] == '0' as int;
  }

  /** On ASCII digits, int() reads what DigitsValue reads. */
  lemma {:induction false} AsciiDecimalsValue(s: string)
    requires AllDigits(s)
    ensures AllDecimal(s) && DecimalsValue(s) == DigitsValue(s)
  {
    forall i | 0 <= i < |s| ensures IsDecimal(s[i]) {
      AsciiDigitIsDecimal(s[i]);
    }
    if s != [] {
      AsciiDecimalsValue(s[..|s| - 1]);
      AsciiDigitIsDecimal(s[|s| - 1]);
    }
  }

  /** The Arabic-Indic digit three is a decimal digit worth 3. */
  lemma ArabicIndicThree()
    ensures IsDecimal('\U{0663}') && DecimalValue('\U{0663}') == 3
  {
    assert DecimalZeros[1] == 0x660;
  }

  /** A line break is no decimal digit. */
  lemma NewlineIsNotDecimal()
    ensures !IsDecimal('\n')
  {
    assert forall k :: 0 <= k < |DecimalZeros| ==> '0' as int <= DecimalZeros[k];
    BelowEveryZero('\n', 0);
  }

  /** A character below every zero from entry i on is in none of those runs. */
  lemma {:induction false} BelowEveryZero(c: char, i: nat)
    requires forall k :: i <= k < |DecimalZeros| ==> c as int < DecimalZeros[k]
    ensures ZeroOf(c, i).None?
    decreases |DecimalZeros| - i
  {
    if i < |DecimalZeros| {
      BelowEveryZero(c, i + 1);
    }
  }
}
