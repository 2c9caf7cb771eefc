/**
 * Decimal text for integers: Go's `strconv.Itoa`, `math.Pow10` on the
 * integer exponents used here, and left padding with `'0'`.
 */
module Decimal {

  /** 10^n, exact. */
  function Pow10(n: nat): (r: nat)
    ensures r >= 1
  {
    if n == 0 then 1 else 10 * Pow10(n - 1)
  }

  predicate IsDigit(c: char) {
    '0' <= c <= '9'
  }

  predicate AllDigits(s: string) {
    forall i :: 0 <= i < |s| ==> IsDigit(s[i])
  }

  function DigitChar(d: nat): (c: char)
    requires d < 10
    ensures IsDigit(c) && DigitValue(c) == d
  {
    (d + '0' as int) as char
  }

  function DigitValue(c: char): (d: nat)
    requires IsDigit(c)
    ensures d < 10
  {
    c as int - '0' as int
  }

  /** The value of a string of decimal digits, most significant first; "" reads as 0. */
  function DecimalValue(s: string): (v: nat)
    requires AllDigits(s)
    ensures v < Pow10(|s|)
  {
    if s == [] then 0
    else
      var high := DecimalValue(s[..|s| - 1]);
      assert high * 10 + DigitValue(s[|s| - 1]) < Pow10(|s| - 1) * 10 by {
        assert (high + 1) * 10 <= Pow10(|s| - 1) * 10;
      }
      high * 10 + DigitValue(s[|s| - 1])
  }

  /** `strconv.Itoa` on a non-negative value: shortest decimal text, no sign. */
  function Itoa(n: nat): (s: string)
    ensures 1 <= |s| && AllDigits(s)
    ensures n < 10 <==> |s| == 1
  {
    if n < 10 then [DigitChar(n)] else Itoa(n / 10) + [DigitChar(n % 10)]
  }

  /** Reading the text back gives the number. */
  lemma {:induction false} ItoaValue(n: nat)
    ensures DecimalValue(Itoa(n)) == n
  {
    if n >= 10 {
      var s := Itoa(n);
      assert s[..|s| - 1] == Itoa(n / 10);
      ItoaValue(n / 10);
    }
  }

  /** The text is canonical: it starts with '0' only when it is "0". */
  lemma {:induction false} ItoaCanonical(n: nat)
    ensures Itoa(n)[0] == '0' <==> n == 0
  {
    if n >= 10 {
      ItoaCanonical(n / 10);
    }
  }

  /** The text of `n` fits in `k >= 1` characters exactly when `n < 10^k`. */
  lemma {:induction false} ItoaFits(n: nat, k: nat)
    requires k >= 1
    ensures |Itoa(n)| <= k <==> n < Pow10(k)
  {
    if n >= 10 {
      if k == 1 {
        assert Pow10(1) == 10;
      } else {
        ItoaFits(n / 10, k - 1);
        DivBound(n, Pow10(k - 1));
      }
    } else {
      assert Pow10(k) >= 10 by { PowTenAtLeastTen(k); }
    }
  }

  lemma PowTenAtLeastTen(k: nat)
    requires k >= 1
    ensures Pow10(k) >= 10
  {
  }

  lemma DivBound(n: nat, p: nat)
    requires p >= 1
    ensures n / 10 < p <==> n < 10 * p
  {
  }

  /** `strconv.Itoa` on any integer: a '-' followed by the magnitude when negative. */
  function FormatInt(x: int): (s: string)
    ensures 1 <= |s|
    ensures x < 0 <==> s[0] == '-'
  {
    if x < 0 then "-" + Itoa(-x) else Itoa(x)
  }

  /** Shape of the text `FormatInt` produces: an optional '-' and at least one digit. */
  predicate IsIntText(s: string) {
    if |s| > 0 && s[0] == '-' then 1 < |s| && AllDigits(s[1..]) else 0 < |s| && AllDigits(s)
  }

  /** Reads back the text of an integer. */
  function ParseInt(s: string): (x: int)
    requires IsIntText(s)
  {
    if s[0] == '-' then -(DecimalValue(s[1..]) as int) else DecimalValue(s)
  }

  /** `FormatInt` is injective: parsing its text gives the number back. */
  lemma ParseFormatInt(x: int)
    ensures IsIntText(FormatInt(x)) && ParseInt(FormatInt(x)) == x
  {
    var s := FormatInt(x);
    if x < 0 {
      var digits := Itoa(-x);
      assert s == "-" + digits;
      assert s[1..] == digits;
      ItoaValue(-x);
      assert ParseInt(s) == -(DecimalValue(digits) as int);
    } else {
      assert s == Itoa(x);
      assert IsDigit(s[0]);
      ItoaValue(x);
    }
  }

  /** `n` copies of '0': `strings.Repeat("0", n)`. */
  function Zeros(n: nat): (z: string)
    ensures |z| == n
    ensures forall i :: 0 <= i < n ==> z[i] == '0'
  {
    if n == 0 then "" else Zeros(n - 1) + "0"
  }

  /**
   * Left padding as a code formatter does it: prepend '0's while the text is
   * shorter than `width`; text at least `width` long is returned unchanged.
   */
  function PadLeft(s: string, width: int): (r: string)
    ensures |r| == if |s| < width then width else |s|
    ensures r[|r| - |s|..] == s
    ensures forall i :: 0 <= i < |r| - |s| ==> r[i] == '0'
  {
    if |s| < width then Zeros(width - |s|) + s else s
  }

  /**
   * A number below 10^width, printed and padded to `width`, is exactly
   * `width` digits (one when `width` is 0) and reads back as the number.
   */
  lemma PaddedItoa(n: nat, width: int)
    requires 0 <= width && n < Pow10(width)
    ensures var s := PadLeft(Itoa(n), width);
      && AllDigits(s)
      && |s| == (if width == 0 then 1 else width)
      && DecimalValue(s) == n
  {
    var text := Itoa(n);
    ItoaValue(n);
    if width > 0 {
      ItoaFits(n, width);
    } else {
      assert Pow10(0) == 1;
    }
    var padded := PadLeft(text, width);
    if |text| < width {
      assert padded == Zeros(width - |text|) + text;
      LeadingZerosValue(width - |text|, text);
      assert DecimalValue(padded) == DecimalValue(text);
    } else {
      assert padded == text;
    }
  }

  /** Leading zeros do not change the value of a digit string. */
  lemma {:induction false} LeadingZerosValue(n: nat, s: string)
    requires AllDigits(s)
    ensures AllDigits(Zeros(n) + s) && DecimalValue(Zeros(n) + s) == DecimalValue(s)
    decreases |s|
  {
    var t := Zeros(n) + s;
    if s == [] {
      assert t == Zeros(n);
      ZerosValue(n);
    } else {
      assert t[..|t| - 1] == Zeros(n) + s[..|s| - 1];
      LeadingZerosValue(n, s[..|s| - 1]);
    }
  }

  lemma {:induction false} ZerosValue(n: nat)
    ensures AllDigits(Zeros(n)) && DecimalValue(Zeros(n)) == 0
  {
    if n > 0 {
      assert Zeros(n)[..n - 1] == Zeros(n - 1);
      ZerosValue(n - 1);
    }
  }

  /** Two digit strings of the same length with the same value are the same string. */
  lemma {:induction false} DecimalValueInjective(s: string, t: string)
    requires AllDigits(s) && AllDigits(t) && |s| == |t|
    requires DecimalValue(s) == DecimalValue(t)
    ensures s == t
  {
    if s != [] {
      var n := |s|;
      var hs, ht := DecimalValue(s[..n - 1]), DecimalValue(t[..n - 1]);
      var ds, dt := DigitValue(s[n - 1]), DigitValue(t[n - 1]);
      assert hs * 10 + ds == ht * 10 + dt;
      DigitSplit(hs, ds, ht, dt);
      DecimalValueInjective(s[..n - 1], t[..n - 1]);
      assert s[n - 1] == t[n - 1];
      assert s == s[..n - 1] + [s[n - 1]];
      assert t == t[..n - 1] + [t[n - 1]];
    }
  }

  lemma DigitSplit(a: nat, x: nat, b: nat, y: nat)
    requires x < 10 && y < 10
    requires a * 10 + x == b * 10 + y
    ensures a == b && x == y
  {
  }
}
