/** Decimal numerals, as `std::to_string` prints and `strto*` reads them. */
module Decimals {
  import opened Basics

  function Digits(n: nat): (s: Bytes)
    ensures |s| > 0 && s[0] != 45
  {
    if n < 10 then [48 + n] else Digits(n / 10) + [48 + n % 10]
  }

  /** `std::to_string` of a 64-bit integer. */
  function Decimal(n: int): Bytes {
    if n < 0 then [45] + Digits(-n) else Digits(n)
  }

  predicate IsDigit(b: byte) { 48 <= b <= 57 }

  /** The longest run of leading digits. */
  function DigitRun(s: Bytes): (k: nat)
    ensures k <= |s|
  {
    if s != [] && IsDigit(s[0]) then 1 + DigitRun(s[1..]) else 0
  }

  function DigitValue(s: Bytes): nat
    requires forall i :: 0 <= i < |s| ==> IsDigit(s[i])
  {
    if s == [] then 0
    else
      assert IsDigit(s[|s| - 1]);
      DigitValue(s[..|s| - 1]) * 10 + (s[|s| - 1] as int - 48)
  }

  lemma {:induction false} DigitRunDigits(s: Bytes)
    ensures forall i :: 0 <= i < DigitRun(s) ==> IsDigit(s[i])
    ensures (forall i :: 0 <= i < |s| ==> IsDigit(s[i])) ==> DigitRun(s) == |s|
  {
    if s != [] && IsDigit(s[0]) {
      DigitRunDigits(s[1..]);
      assert forall i :: 0 < i < |s| ==> s[i] == s[1..][i - 1];
      assert forall i :: 0 <= i < |s[1..]| ==> s[1..][i] == s[i + 1];
    }
  }

  /** `strtoll` and `strtoull` on what the protocol stores: an optional minus
      and leading digits. */
  function ParseDecimal(s: Bytes): int {
    if s != [] && s[0] == 45 then -(LeadingValue(s[1..]) as int) else LeadingValue(s)
  }

  function LeadingValue(s: Bytes): nat {
    DigitRunDigits(s);
    DigitValue(s[..DigitRun(s)])
  }

  lemma {:induction false} DigitsValue(n: nat)
    ensures forall i :: 0 <= i < |Digits(n)| ==> IsDigit(Digits(n)[i])
    ensures DigitValue(Digits(n)) == n
  {
    var s := Digits(n);
    if n < 10 {
      assert s[..0] == [];
    } else {
      DigitsValue(n / 10);
      assert s[..|s| - 1] == Digits(n / 10);
    }
  }

  /** A stored number reads back as itself. */
  lemma ParseOfDecimal(n: int)
    ensures ParseDecimal(Decimal(n)) == n
  {
    var m := if n < 0 then -n else n;
    DigitsValue(m);
    DigitRunDigits(Digits(m));
    assert Digits(m)[..|Digits(m)|] == Digits(m);
    if n < 0 { assert Decimal(n)[1..] == Digits(m); }
  }

  lemma DecimalInjective(m: int, n: int)
    requires Decimal(m) == Decimal(n)
    ensures m == n
  {
    ParseOfDecimal(m);
    ParseOfDecimal(n);
  }
}
