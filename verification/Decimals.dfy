/** Printing and scanning decimal numbers. */
module Decimals {

  predicate IsDigit(c: int) {
    48 <= c <= 57
  }

  /** %d and %u of a number that is not negative. */
  function Decimal(n: nat): (s: seq<int>)
    ensures s != [] && forall i :: 0 <= i < |s| ==> IsDigit(s[i])
  {
    if n < 10 then [48 + n] else Decimal(n / 10) + [48 + n % 10]
  }

  /** How many digits stand at the start. */
  function DigitRun(s: seq<int>): (n: nat)
    ensures n <= |s|
    ensures forall i :: 0 <= i < n ==> IsDigit(s[i])
    ensures n < |s| ==> !IsDigit(s[n])
  {
    if s == [] || !IsDigit(s[0]) then 0 else 1 + DigitRun(s[1..])
  }

  /** The number a run of digits stands for. */
  function Value(digits: seq<int>): int {
    if digits == [] then 0 else 10 * Value(digits[..|digits| - 1]) + digits[|digits| - 1] - 48
  }

  lemma {:induction false} ValueOfDecimal(n: nat)
    ensures Value(Decimal(n)) == n
  {
    if n >= 10 {
      ValueOfDecimal(n / 10);
      assert Decimal(n)[..|Decimal(n)| - 1] == Decimal(n / 10);
    } else {
      assert Decimal(n)[..0] == [];
    }
  }

  /** A printed number followed by no digit is scanned back. */
  lemma DecimalScansBack(n: nat, rest: seq<int>)
    requires rest == [] || !IsDigit(rest[0])
    ensures DigitRun(Decimal(n) + rest) == |Decimal(n)|
    ensures Value((Decimal(n) + rest)[..|Decimal(n)|]) == n
  {
    var s := Decimal(n) + rest;
    assert s[..|Decimal(n)|] == Decimal(n);
    ValueOfDecimal(n);
    assert forall i :: 0 <= i < |Decimal(n)| ==> IsDigit(s[i]);
  }

  lemma ThreeDigits(n: nat)
    requires 100 <= n <= 999
    ensures Decimal(n) == [48 + n / 100, 48 + n / 10 % 10, 48 + n % 10]
  {
    assert n / 10 / 10 == n / 100;
    assert Decimal(n / 100) == [48 + n / 100];
    assert Decimal(n / 10) == Decimal(n / 100) + [48 + n / 10 % 10];
  }

  lemma {:induction false} DecimalLength(n: nat, bound: nat, digits: nat)
    requires n < bound && digits > 0 && bound == Power10(digits)
    ensures |Decimal(n)| <= digits
    decreases digits
  {
    if n >= 10 {
      assert digits > 1;
      DecimalLength(n / 10, bound / 10, digits - 1);
    }
  }

  function Power10(k: nat): nat {
    if k == 0 then 1 else 10 * Power10(k - 1)
  }
}
