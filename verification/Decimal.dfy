/** Decimal text of integers: printing, padding with zeros, and reading back. */
module Decimal {

  function Digit(d: int): (c: char)
    requires 0 <= d < 10
    ensures IsDigit(c) && DigitValue(c) == d
  {
    (48 + d) as char
  }

  predicate IsDigit(c: char) { '0' <= c <= '9' }

  function DigitValue(c: char): int
    requires IsDigit(c)
  {
    c as int - 48
  }

  predicate AllDigits(s: string) { forall i :: 0 <= i < |s| ==> IsDigit(s[i]) }

  function ToDecimal(n: nat): (s: string)
    ensures |s| >= 1 && AllDigits(s)
  {
    if n < 10 then [Digit(n)] else ToDecimal(n / 10) + [Digit(n % 10)]
  }

  /** `String(n)` for an integer. */
  function IntText(n: int): string {
    if n < 0 then "-" + ToDecimal(-n) else ToDecimal(n)
  }

  function Zeros(k: nat): string { seq(k, _ => '0') }

  /** `padStart(width, "0")`. */
  function PadStart(s: string, width: nat): string {
    if |s| >= width then s else Zeros(width - |s|) + s
  }

  /** `n` in at least `width` digits. */
  function Pad(n: nat, width: nat): string { PadStart(ToDecimal(n), width) }

  function ValueOf(s: string): nat
    requires AllDigits(s)
  {
    if s == [] then 0 else 10 * ValueOf(s[..|s| - 1]) + DigitValue(s[|s| - 1])
  }

  function Pow10(k: nat): (p: int)
    ensures p >= 1
  {
    if k == 0 then 1 else 10 * Pow10(k - 1)
  }

  lemma {:induction false} PrintThenRead(n: nat)
    ensures ValueOf(ToDecimal(n)) == n
  {
    if n >= 10 {
      PrintThenRead(n / 10);
      var s := ToDecimal(n);
      assert s[..|s| - 1] == ToDecimal(n / 10);
    } else {
      assert ToDecimal(n)[..0] == [];
    }
  }

  lemma {:induction false} LeadingZeros(k: nat, s: string)
    requires AllDigits(s)
    ensures AllDigits(Zeros(k) + s) && ValueOf(Zeros(k) + s) == ValueOf(s)
    decreases k + |s|
  {
    var z := Zeros(k) + s;
    if s != [] {
      assert z[..|z| - 1] == Zeros(k) + s[..|s| - 1];
      LeadingZeros(k, s[..|s| - 1]);
    } else if k > 0 {
      assert z[..|z| - 1] == Zeros(k - 1) + s;
      LeadingZeros(k - 1, s);
    }
  }

  lemma PadThenRead(n: nat, width: nat)
    ensures AllDigits(Pad(n, width)) && ValueOf(Pad(n, width)) == n
  {
    PrintThenRead(n);
    if |ToDecimal(n)| < width {
      LeadingZeros(width - |ToDecimal(n)|, ToDecimal(n));
    }
  }

  /** A number has at most `k` digits exactly when it is below the `k`-th power of ten. */
  lemma {:induction false} DigitCount(n: nat, k: nat)
    requires k >= 1
    ensures |ToDecimal(n)| <= k <==> n < Pow10(k)
    decreases k
  {
    if k == 1 {
      assert Pow10(1) == 10 * Pow10(0);
    } else {
      DigitCount(n / 10, k - 1);
    }
  }

  lemma PadWidth(n: nat, width: nat)
    requires width >= 1
    ensures n < Pow10(width) ==> |Pad(n, width)| == width
    ensures n >= Pow10(width) ==> |Pad(n, width)| > width && Pad(n, width) == ToDecimal(n)
  {
    DigitCount(n, width);
  }

  lemma {:induction false} BelowPower(s: string)
    requires AllDigits(s)
    ensures ValueOf(s) < Pow10(|s|)
    decreases |s|
  {
    if s != [] { BelowPower(s[..|s| - 1]); }
  }

  /** Digit strings of one length are told apart by their values. */
  lemma {:induction false} SameValueSameText(s: string, t: string)
    requires AllDigits(s) && AllDigits(t) && |s| == |t| && ValueOf(s) == ValueOf(t)
    ensures s == t
    decreases |s|
  {
    if s != [] {
      var n := |s| - 1;
      SameValueSameText(s[..n], t[..n]);
      assert s == s[..n] + [s[n]] && t == t[..n] + [t[n]];
    }
  }

  /** Reading a digit string and printing it at its own width gives it back. */
  lemma ReadThenPad(s: string)
    requires AllDigits(s) && s != []
    ensures Pad(ValueOf(s), |s|) == s
  {
    BelowPower(s);
    PadWidth(ValueOf(s), |s|);
    PadThenRead(ValueOf(s), |s|);
    SameValueSameText(Pad(ValueOf(s), |s|), s);
  }

  lemma {:induction false} NoLeadingZero(n: nat)
    ensures ToDecimal(n)[0] == '0' <==> n == 0
  {
    if n >= 10 { NoLeadingZero(n / 10); }
  }

  lemma PowersOfTen()
    ensures Pow10(1) == 10 && Pow10(2) == 100 && Pow10(3) == 1_000 && Pow10(4) == 10_000 && Pow10(6) == 1_000_000
  {
    assert Pow10(3) == 10 * Pow10(2) && Pow10(4) == 10 * Pow10(3) && Pow10(5) == 10 * Pow10(4);
  }
}
