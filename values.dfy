/**
 * The values a parsed payload holds and Python's `str()` of each: text as is,
 * integers in decimal, `True`/`False` for booleans and `None` for a JSON null.
 */
module Values {
  import opened Patterns

  datatype Value = Str(text: string) | Int(num: int) | Bool(truth: bool) | Null

  /** `str(v)`. */
  function ToStr(v: Value): string {
    match v
    case Str(t) => t
    case Int(n) => IntToStr(n)
    case Bool(b) => if b then "True" else "False"
    case Null => "None"
  }

  function DigitChar(d: nat): (c: char)
    requires d < 10
    ensures IsDigit(c)
  {
    ('0' as int + d) as char
  }

  /** Decimal digits of `n`, most significant first, without leading zeros. */
  function NatToStr(n: nat): (r: string)
    ensures r != [] && AllDigits(r)
    ensures |r| > 1 ==> r[0] != '0'
  {
    if n < 10 then [DigitChar(n)] else NatToStr(n / 10) + [DigitChar(n % 10)]
  }

  /** The number a string of decimal digits denotes, most significant first. */
  function DigitsValue(s: string): nat
    requires AllDigits(s)
  {
    if s == [] then 0 else 10 * DigitsValue(s[..|s| - 1]) + (s[|s| - 1] as int - '0' as int)
  }

  /** The digits of `str(n)` denote `n`: with no leading zero, this fixes the
      decimal string exactly. */
  lemma {:induction false} NatToStrValue(n: nat)
    ensures DigitsValue(NatToStr(n)) == n
    decreases n
  {
    var r := NatToStr(n);
    if n >= 10 {
      var q := NatToStr(n / 10);
      NatToStrValue(n / 10);
      assert r[..|r| - 1] == q;
      assert r[|r| - 1] == DigitChar(n % 10);
    } else {
      assert r[..|r| - 1] == [];
    }
  }

  /** `str(i)` for an integer: a minus sign before the digits of a negative one. */
  function IntToStr(i: int): string {
    if i < 0 then "-" + NatToStr(-i) else NatToStr(i)
  }

  function Pow10(k: nat): nat {
    if k == 0 then 1 else 10 * Pow10(k - 1)
  }

  lemma {:induction false} Pow10Monotone(a: nat, b: nat)
    requires a <= b
    ensures Pow10(a) <= Pow10(b)
    decreases b
  {
    if a < b {
      Pow10Monotone(a, b - 1);
    }
  }

  /** A number with `m` digits lies in [10^(m-1), 10^m), and is below 10 when `m` is 1. */
  lemma {:induction false} NatToStrMagnitude(n: nat)
    ensures n < Pow10(|NatToStr(n)|)
    ensures n >= 10 ==> Pow10(|NatToStr(n) | - 1) <= n
    decreases n
  {
    if n >= 10 {
      var q := n / 10;
      var m := |NatToStr(q)|;
      NatToStrMagnitude(q);
      assert |NatToStr(n)| == m + 1;
      assert n < 10 * Pow10(m);
      if q >= 10 {
        assert Pow10(m) == 10 * Pow10(m - 1);
        assert Pow10(m) <= 10 * q;
      }
    }
  }

  /** The decimal string has exactly `k >= 2` digits iff 10^(k-1) <= n < 10^k. */
  lemma NatToStrLength(n: nat, k: nat)
    requires k >= 2
    ensures |NatToStr(n)| == k <==> Pow10(k - 1) <= n < Pow10(k)
  {
    var m := |NatToStr(n)|;
    NatToStrMagnitude(n);
    assert Pow10(1) == 10;
    if Pow10(k - 1) <= n < Pow10(k) {
      Pow10Monotone(1, k - 1);
      if m < k {
        Pow10Monotone(m, k - 1);
      } else if m > k {
        Pow10Monotone(k, m - 1);
      }
    }
  }

  /** An integer's `str()` is ten digits exactly for 1000000000 <= i <= 9999999999. */
  lemma IntIsPhoneNumber(i: int)
    ensures IsPhoneNumber(IntToStr(i)) <==> 1_000_000_000 <= i < 10_000_000_000
  {
    if i >= 0 {
      NatToStrLength(i, 10);
      assert Pow10(9) == 1_000_000_000 && Pow10(10) == 10_000_000_000;
    } else {
      assert !IsDigit(IntToStr(i)[0]);
    }
  }

  /** An integer's `str()` is twelve digits exactly for 10^11 <= i < 10^12. */
  lemma IntIsAadharNumber(i: int)
    ensures IsAadharNumber(IntToStr(i)) <==> 100_000_000_000 <= i < 1_000_000_000_000
  {
    if i >= 0 {
      NatToStrLength(i, 12);
      assert Pow10(11) == 100_000_000_000 && Pow10(12) == 1_000_000_000_000;
    } else {
      assert !IsDigit(IntToStr(i)[0]);
    }
  }

  /** Integers, booleans and null never look like a passport number, a UPI id or
      an e-mail address; booleans and null never look like a phone or Aadhaar
      number either. */
  lemma NonTextPatterns(v: Value)
    requires !v.Str?
    ensures var s := ToStr(v);
      !IsPassportNumber(s) && !IsUpiId(s) && !IsEmailAddress(s)
      && (!v.Int? ==> !IsPhoneNumber(s) && !IsAadharNumber(s))
  {
    var s := ToStr(v);
    if IsUpiId(s) {
      var local, domain := UpiIdParts(s);
      assert '@' in s by { assert s[|local|] == '@'; }
      NoAtInNumber(v);
    }
    if IsEmailAddress(s) {
      var local, host, tld := EmailAddressParts(s);
      assert '@' in s by { assert s[|local|] == '@'; }
      NoAtInNumber(v);
    }
    if !v.Int? {
      assert !IsDigit(s[0]);
    }
  }

  lemma NoAtInNumber(v: Value)
    requires !v.Str?
    ensures '@' !in ToStr(v)
  {
    var s := ToStr(v);
    if v.Int? {
      var d := NatToStr(if v.num < 0 then -v.num else v.num);
      assert forall k :: 0 <= k < |d| ==> d[k] != '@' by {
        forall k | 0 <= k < |d| ensures d[k] != '@' { assert IsDigit(d[k]); }
      }
      if v.num < 0 { assert s == "-" + d; }
    }
  }
}
