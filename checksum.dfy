/**
 * The SIRUTA check-digit rule: the rightmost digit of a code of at most six
 * characters must equal `(11 - s mod 10) mod 10`, where `s` adds up the digit
 * sums of the next five digits (from the right) times the weights 1, 2, 3, 5, 7.
 */
module Checksum {
  import opened Decimal

  const Weights: seq<nat> := [1, 2, 3, 5, 7]

  /** Sum of the digit characters of a decimal text. */
  function SumOfDigits(s: string): nat
    requires AllDigits(s)
  {
    if s == [] then 0 else SumOfDigits(s[..|s| - 1]) + DigitValue(s[|s| - 1])
  }

  /** `sum(map(int, str(n)))`: the sum of the decimal digits of `n`. */
  function DigitSum(n: nat): (r: nat)
    ensures n < 10 ==> r == n
  {
    var s := NatToString(n);
    assert n < 10 ==> s[..|s| - 1] == [] && SumOfDigits([]) == 0;
    SumOfDigits(s)
  }

  /** The `i`-th digit from the right of `p` (0-based), as `int(p / 10**i) % 10`. */
  function Digit(p: int, i: nat): (d: nat)
    ensures d < 10
  {
    TruncDiv(p, Pow10(i)) % 10
  }

  /** Digit sums of the first `k` weighted digits of `p`, from the right. */
  function WeightedSum(p: int, k: nat): nat
    requires k <= |Weights|
  {
    if k == 0 then 0 else WeightedSum(p, k - 1) + DigitSum(Digit(p, k - 1) * Weights[k - 1])
  }

  /** The check digit that a code whose other digits are `p` must end in. */
  function CheckDigitFor(p: int): (d: nat)
    ensures d < 10
  {
    (11 - WeightedSum(p, 5) % 10) % 10
  }

  /**
   * A code is valid when its text has at most six characters and its last
   * digit (Python `n % 10`) is the check digit of the digits before it
   * (Python `int(n / 10)`).
   */
  predicate IsValidCode(n: int)
    ensures IsValidCode(n) ==> -99999 <= n <= 999999
  {
    TextLengthAboveSix(n);
    |IntToString(n)| <= 6 && n % 10 == CheckDigitFor(TruncDiv(n, 10))
  }

  /** `siruta_is_valid`: strip digits one at a time and accumulate the checksum. */
  method SirutaIsValid(siruta: int) returns (valid: bool)
    ensures valid == IsValidCode(siruta)
  {
    if |IntToString(siruta)| > 6 {
      return false;
    }
    var checksum := 0;
    var checkdigit := siruta % 10;
    var index := 0;
    var rest := siruta;
    ghost var body := TruncDiv(siruta, 10);
    while index < 5
      invariant 0 <= index <= 5
      invariant TruncDiv(rest, 10) == TruncDiv(body, Pow10(index))
      invariant checksum == WeightedSum(body, index)
    {
      LoopStep(body, rest, index, checksum);
      rest := TruncDiv(rest, 10);
      var left := (rest % 10) * Weights[index];
      checksum := checksum + DigitSum(left);
      index := index + 1;
    }
    ClosingSteps(siruta, checksum);
    checksum := checksum % 10;
    checksum := 11 - checksum;
    checksum := checksum % 10;
    valid := checksum == checkdigit;
  }

  /** The statements after the loop compare the check digit of the body with the last digit. */
  lemma ClosingSteps(siruta: int, checksum: int)
    requires |IntToString(siruta)| <= 6 && checksum == WeightedSum(TruncDiv(siruta, 10), 5)
    ensures ((11 - checksum % 10) % 10 == siruta % 10) == IsValidCode(siruta)
  {
  }

  /** One pass of the loop in `SirutaIsValid` keeps its two invariants. */
  lemma LoopStep(p: int, rest: int, i: nat, checksum: int)
    requires i < 5 && TruncDiv(rest, 10) == TruncDiv(p, Pow10(i)) && checksum == WeightedSum(p, i)
    ensures TruncDiv(TruncDiv(rest, 10), 10) == TruncDiv(p, Pow10(i + 1))
    ensures checksum + DigitSum((TruncDiv(rest, 10) % 10) * Weights[i]) == WeightedSum(p, i + 1)
  {
    NextDigit(p, rest, i);
  }

  /** One more step of the loop in `SirutaIsValid` exposes the next digit of `p`. */
  lemma NextDigit(p: int, rest: int, i: nat)
    requires TruncDiv(rest, 10) == TruncDiv(p, Pow10(i))
    ensures TruncDiv(rest, 10) % 10 == Digit(p, i)
    ensures TruncDiv(TruncDiv(rest, 10), 10) == TruncDiv(p, Pow10(i + 1))
  {
    TruncDivTwice(p, Pow10(i), 10);
    assert Pow10(i) * 10 == Pow10(i + 1);
  }

  /** Codes whose decimal text is longer than six characters are rejected. */
  lemma LongCodesInvalid(n: int)
    requires n >= 1000000 || n <= -100000
    ensures !IsValidCode(n)
  {
    TextLengthAboveSix(n);
  }

  /**
   * For any five-digit body `p`, exactly one last digit makes `10 * p + d` a
   * valid code, namely `CheckDigitFor(p)`.
   */
  lemma CheckDigitDecides(p: nat, d: nat)
    requires p < 100000 && d < 10
    ensures IsValidCode(10 * p + d) <==> d == CheckDigitFor(p)
  {
    var n := 10 * p + d;
    DivUnique(n, 10, p, d);
    TextLengthAboveSix(n);
  }

  /** Two non-negative valid codes that agree on all but the last digit are equal. */
  lemma ValidCodeDeterminedByBody(n: nat, m: nat)
    requires IsValidCode(n) && IsValidCode(m)
    requires n / 10 == m / 10
    ensures n == m
  {
    assert n % 10 == CheckDigitFor(n / 10);
    assert m % 10 == CheckDigitFor(m / 10);
  }

  /** The digit sum of a number below 100 is its tens digit plus its units digit. */
  lemma DigitSumBelow100(n: nat)
    requires n < 100
    ensures DigitSum(n) == n / 10 + n % 10
  {
    if n >= 10 {
      var s := NatToString(n);
      assert n / 10 < 10;
      assert NatToString(n / 10) == [DigitChar(n / 10)];
      assert s == [DigitChar(n / 10)] + [DigitChar(n % 10)];
      assert s[..1] == [DigitChar(n / 10)];
      assert s[..1][..0] == [];
    } else {
      var s := NatToString(n);
      assert s == [DigitChar(n)];
      assert s[..0] == [];
      assert SumOfDigits(s) == SumOfDigits([]) + DigitValue(DigitChar(n));
    }
  }

  /** The weighted sum of a body, written out digit by digit. */
  lemma WeightedSumUnfolded(p: int)
    ensures WeightedSum(p, 5) ==
      DigitSum(Digit(p, 0)) + DigitSum(Digit(p, 1) * 2) + DigitSum(Digit(p, 2) * 3)
      + DigitSum(Digit(p, 3) * 5) + DigitSum(Digit(p, 4) * 7)
  {
    assert Weights[0] == 1 && Weights[1] == 2 && Weights[2] == 3;
    assert Weights[3] == 5 && Weights[4] == 7;
    assert WeightedSum(p, 1) == DigitSum(Digit(p, 0) * 1);
    assert WeightedSum(p, 2) == WeightedSum(p, 1) + DigitSum(Digit(p, 1) * 2);
    assert WeightedSum(p, 3) == WeightedSum(p, 2) + DigitSum(Digit(p, 2) * 3);
    assert WeightedSum(p, 4) == WeightedSum(p, 3) + DigitSum(Digit(p, 3) * 5);
    assert WeightedSum(p, 5) == WeightedSum(p, 4) + DigitSum(Digit(p, 4) * 7);
  }

  /** The digit sum of a digit times a weight. */
  lemma WeightedDigit(d: nat, w: nat)
    requires d < 10 && w <= 7
    ensures DigitSum(d * w) == d * w / 10 + d * w % 10
  {
    MulMonotone(w, d, 9);
    assert d * w <= 63;
    DigitSumBelow100(d * w);
  }

  /** The checksum of a body from its five digits, each weighted product below 100. */
  lemma CheckDigitOfDigits(p: int, d0: nat, d1: nat, d2: nat, d3: nat, d4: nat)
    requires d0 == Digit(p, 0) && d1 == Digit(p, 1) && d2 == Digit(p, 2)
    requires d3 == Digit(p, 3) && d4 == Digit(p, 4)
    ensures CheckDigitFor(p) == (11 - ((d0 * 1 / 10 + d0 * 1 % 10) + (d1 * 2 / 10 + d1 * 2 % 10)
      + (d2 * 3 / 10 + d2 * 3 % 10) + (d3 * 5 / 10 + d3 * 5 % 10) + (d4 * 7 / 10 + d4 * 7 % 10)) % 10) % 10
  {
    var w := WeightedSum(p, 5);
    assert w == DigitSum(d0 * 1) + DigitSum(d1 * 2) + DigitSum(d2 * 3) + DigitSum(d3 * 5) + DigitSum(d4 * 7) by {
      WeightedSumUnfolded(p);
      assert d0 * 1 == d0;
    }
    WeightedDigit(d0, 1);
    WeightedDigit(d1, 2);
    WeightedDigit(d2, 3);
    WeightedDigit(d3, 5);
    WeightedDigit(d4, 7);
    assert CheckDigitFor(p) == (11 - w % 10) % 10;
  }

  lemma Pow10Values()
    ensures Pow10(0) == 1 && Pow10(1) == 10 && Pow10(2) == 100
    ensures Pow10(3) == 1000 && Pow10(4) == 10000
  {
  }

  /** The digits of a non-negative body, given as the body's value. */
  lemma DigitsOf(p: nat, d0: nat, d1: nat, d2: nat, d3: nat, d4: nat)
    requires d0 < 10 && d1 < 10 && d2 < 10 && d3 < 10 && d4 < 10
    requires p == d0 + 10 * d1 + 100 * d2 + 1000 * d3 + 10000 * d4
    ensures d0 == Digit(p, 0) && d1 == Digit(p, 1) && d2 == Digit(p, 2)
    ensures d3 == Digit(p, 3) && d4 == Digit(p, 4)
  {
    Pow10Values();
    var r1 := d1 + 10 * d2 + 100 * d3 + 1000 * d4;
    var r2 := d2 + 10 * d3 + 100 * d4;
    var r3 := d3 + 10 * d4;
    DivUnique(p, 1, p, 0);
    DivUnique(p, 10, r1, d0);
    DivUnique(p, 100, r2, d0 + 10 * d1);
    DivUnique(p, 1000, r3, d0 + 10 * d1 + 100 * d2);
    DivUnique(p, 10000, d4, d0 + 10 * d1 + 100 * d2 + 1000 * d3);
    DivUnique(p, 10, r1, d0);
    DivUnique(r1, 10, r2, d1);
    DivUnique(r2, 10, r3, d2);
    DivUnique(r3, 10, d4, d3);
    DivUnique(d4, 10, 0, d4);
  }

  /** 179132 passes the checksum. */
  lemma ValidCode179132()
    ensures IsValidCode(179132)
  {
    TextLengthAboveSix(179132);
    DivUnique(179132, 10, 17913, 2);
    DigitsOf(17913, 3, 1, 9, 7, 1);
    CheckDigitOfDigits(17913, 3, 1, 9, 7, 1);
  }

  /** 29 passes the checksum: the missing digits count as zero. */
  lemma ValidCode29()
    ensures IsValidCode(29)
  {
    TextLengthAboveSix(29);
    DivUnique(29, 10, 2, 9);
    DigitsOf(2, 2, 0, 0, 0, 0);
    CheckDigitOfDigits(2, 2, 0, 0, 0, 0);
  }

  /** 500 passes the checksum, although no entity has that code. */
  lemma ValidCode500()
    ensures IsValidCode(500)
  {
    TextLengthAboveSix(500);
    DivUnique(500, 10, 50, 0);
    DigitsOf(50, 0, 5, 0, 0, 0);
    CheckDigitOfDigits(50, 0, 5, 0, 0, 0);
  }

  /** 86453, a code of a real commune, fails the checksum. */
  lemma InvalidCode86453()
    ensures !IsValidCode(86453)
  {
    DivUnique(86453, 10, 8645, 3);
    DigitsOf(8645, 5, 4, 6, 8, 0);
    CheckDigitOfDigits(8645, 5, 4, 6, 8, 0);
  }

  /** 179197 fails the checksum. */
  lemma InvalidCode179197()
    ensures !IsValidCode(179197)
  {
    DivUnique(179197, 10, 17919, 7);
    DigitsOf(17919, 9, 1, 9, 7, 1);
    CheckDigitOfDigits(17919, 9, 1, 9, 7, 1);
  }

  /** 1234567 is rejected for its length alone. */
  lemma InvalidCode1234567()
    ensures !IsValidCode(1234567)
  {
    LongCodesInvalid(1234567);
  }
}
