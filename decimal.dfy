/**
 Decimal text of an integer element of a list-valued option.

 Encoding writes an element with JUCE's `String (int)` / `String::operator<< (int)`:
 an optional minus sign followed by the canonical decimal digits. Decoding reads a
 token back with `static_cast<int> (var (token))`, which is `String::getIntValue`:
 an optional leading minus sign, then the longest run of decimal digits, and 0 when
 there are none (it never fails).
 */
module Decimal {

  predicate IsDigit(c: char) {
    '0' <= c <= '9'
  }

  function DigitValue(c: char): (d: nat)
    requires IsDigit(c)
    ensures d < 10
  {
    (c as int) - ('0' as int)
  }

  function DigitChar(d: nat): (c: char)
    requires d < 10
    ensures IsDigit(c) && DigitValue(c) == d
  {
    (('0' as int) + d) as char
  }

  /** Canonical decimal digits of a natural number: non-empty, digits only, no leading zero. */
  function NatToText(n: nat): (s: string)
    ensures |s| > 0
    ensures forall k :: 0 <= k < |s| ==> IsDigit(s[k])
    ensures s[0] == '0' ==> s == "0" && n == 0
  {
    if n < 10 then [DigitChar(n)] else NatToText(n / 10) + [DigitChar(n % 10)]
  }

  /** The text `String (i)` produces for an integer: a '-' exactly when negative, then digits. */
  function IntToText(i: int): (s: string)
    ensures |s| > 0
    ensures (s[0] == '-') <==> (i < 0)
    ensures forall k :: 0 <= k < |s| ==> IsDigit(s[k]) || (k == 0 && s[k] == '-')
    ensures ',' !in s
    ensures i < 0 ==> |s| > 1 && s[1] != '0'
    ensures i >= 0 && s[0] == '0' ==> s == "0"
  {
    if i < 0 then "-" + NatToText(-i) else NatToText(i)
  }

  /** The value of a run of digits, read from left to right (v := v * 10 + digit). */
  function DigitsValue(ds: string): nat
    requires forall k :: 0 <= k < |ds| ==> IsDigit(ds[k])
  {
    if ds == [] then 0 else DigitsValue(ds[..|ds| - 1]) * 10 + DigitValue(ds[|ds| - 1])
  }

  /** Length of the longest prefix of `s` made of digits: where getIntValue stops reading. */
  function LeadingDigits(s: string): (k: nat)
    ensures k <= |s|
    ensures forall j :: 0 <= j < k ==> IsDigit(s[j])
    ensures k < |s| ==> !IsDigit(s[k])
  {
    if s == [] || !IsDigit(s[0]) then 0 else 1 + LeadingDigits(s[1..])
  }

  function ParseNat(s: string): nat {
    DigitsValue(s[..LeadingDigits(s)])
  }

  /**
   `String::getIntValue` on a token (leading whitespace and 32-bit wrap-around aside):
   never fails, is non-positive after a leading '-', and is 0 when no digit follows
   the optional sign.
   */
  function ParseInt(s: string): (r: int)
    ensures |s| > 0 && s[0] == '-' ==> r <= 0 && (LeadingDigits(s[1..]) == 0 ==> r == 0)
    ensures !(|s| > 0 && s[0] == '-') ==> r >= 0 && (LeadingDigits(s) == 0 ==> r == 0)
  {
    if |s| > 0 && s[0] == '-' then -(ParseNat(s[1..]) as int) else ParseNat(s)
  }

  lemma {:induction false} DigitsValueOfNatToText(n: nat)
    ensures DigitsValue(NatToText(n)) == n
  {
    var s := NatToText(n);
    if n < 10 {
      assert s[..|s| - 1] == [];
    } else {
      var prefix := NatToText(n / 10);
      assert s[..|s| - 1] == prefix;
      DigitsValueOfNatToText(n / 10);
    }
  }

  /** Reading back what `String (i)` wrote gives `i` again. */
  lemma ParseIntOfIntToText(i: int)
    ensures ParseInt(IntToText(i)) == i
  {
    var s := IntToText(i);
    if i < 0 {
      var t := NatToText(-i);
      assert s[1..] == t;
      assert LeadingDigits(t) == |t|;
      assert t[..|t|] == t;
      DigitsValueOfNatToText(-i);
    } else {
      var t := NatToText(i);
      assert LeadingDigits(t) == |t|;
      assert t[..|t|] == t;
      DigitsValueOfNatToText(i);
    }
  }

  /** Different integers are written as different texts. */
  lemma IntToTextInjective(i: int, j: int)
    ensures IntToText(i) == IntToText(j) <==> i == j
  {
    if IntToText(i) == IntToText(j) {
      ParseIntOfIntToText(i);
      ParseIntOfIntToText(j);
    }
  }
}
