/** Decimal digit strings: reading them (`int`) and writing them (`str`, `zfill`). */
module Decimal {
  predicate IsDigit(ch: char)
  {
    '0' <= ch <= '9'
  }

  predicate AllDigits(t: string)
  {
    forall k :: 0 <= k < |t| ==> IsDigit(t[k])
  }

  /** The value of a string of decimal digits, most significant first. */
  function DigitsValue(t: string): nat
    requires AllDigits(t)
  {
    if t == [] then 0 else DigitsValue(t[..|t| - 1]) * 10 + ((t[|t| - 1] as int) - ('0' as int))
  }

  /** Decimal digits of n, without leading zeros. */
  function ShowNat(n: nat): (t: string)
    ensures t != [] && AllDigits(t)
    decreases n
  {
    if n < 10 then [('0' as int + n) as char]
    else ShowNat(n / 10) + [('0' as int + n % 10) as char]
  }

  /** n written with at least two digits, as in `HH`. */
  function Pad2(n: nat): (t: string)
    ensures t != [] && AllDigits(t)
  {
    if n < 10 then "0" + ShowNat(n) else ShowNat(n)
  }

  lemma {:induction false} ShowNatValue(n: nat)
    ensures DigitsValue(ShowNat(n)) == n
    decreases n
  {
    if n >= 10 {
      ShowNatValue(n / 10);
      var t := ShowNat(n);
      assert t[..|t| - 1] == ShowNat(n / 10);
    }
  }

  lemma {:induction false} LeadingZero(t: string)
    requires AllDigits(t)
    ensures AllDigits("0" + t) && DigitsValue("0" + t) == DigitsValue(t)
  {
    if t != [] {
      LeadingZero(t[..|t| - 1]);
      assert ("0" + t)[..|"0" + t| - 1] == "0" + t[..|t| - 1];
    }
  }

  lemma {:induction false} Pad2Value(n: nat)
    ensures DigitsValue(Pad2(n)) == n
  {
    ShowNatValue(n);
    if n < 10 {
      LeadingZero(ShowNat(n));
    }
  }

  /** `str(n).zfill(6)`: left-padded with zeros to at least six digits. */
  function ZFill6(n: nat): (t: string)
    ensures |t| == (if |ShowNat(n)| >= 6 then |ShowNat(n)| else 6) && AllDigits(t)
    ensures t[|t| - |ShowNat(n)|..] == ShowNat(n) && forall k :: 0 <= k < |t| - |ShowNat(n)| ==> t[k] == '0'
    ensures DigitsValue(t) == n
  {
    ShowNatValue(n);
    PadZeros(ShowNat(n), 6)
  }

  function Pow10(k: nat): (r: nat)
    ensures r >= 1
  {
    if k == 0 then 1 else 10 * Pow10(k - 1)
  }

  /** `str(n)` has at most k digits exactly when n is below 10^k. */
  lemma {:induction false} ShowNatWidth(n: nat, k: nat)
    requires k >= 1
    ensures |ShowNat(n)| <= k <==> n < Pow10(k)
    decreases n
  {
    if k >= 2 {
      assert Pow10(k) == 10 * Pow10(k - 1) && Pow10(k - 1) >= 10 * Pow10(k - 2);
    }
    if n >= 10 {
      assert n == 10 * (n / 10) + n % 10;
      if k >= 2 {
        ShowNatWidth(n / 10, k - 1);
      }
    }
  }

  /** Indices below a million give exactly six characters, larger ones their own digits. */
  lemma ZFill6Width(n: nat)
    ensures n < 1000000 <==> |ZFill6(n)| == 6
    ensures n >= 1000000 ==> ZFill6(n) == ShowNat(n)
  {
    ShowNatWidth(n, 6);
    assert Pow10(6) == 1000000;
  }

  lemma ZFill6Example()
    ensures ZFill6(5) == "000005"
    ensures ZFill6(123456) == "123456"
  {
    assert ShowNat(5) == "5";
    assert ShowNat(12) == "12";
    assert ShowNat(1234) == ShowNat(123) + "4";
    assert ShowNat(123456) == "123456";
  }

  function PadZeros(t: string, width: nat): (r: string)
    requires AllDigits(t)
    ensures |r| == (if |t| >= width then |t| else width) && AllDigits(r) && DigitsValue(r) == DigitsValue(t)
    ensures r[|r| - |t|..] == t && forall k :: 0 <= k < |r| - |t| ==> r[k] == '0'
    decreases width - |t|
  {
    if |t| >= width then t
    else
      LeadingZero(t);
      PadZeros("0" + t, width)
  }
}
