/** The checksum validator of the CPF package: the two mod-11 verifier
    digits, the all-digits-equal rule and the string and integer entry
    points built on them. */
module Validate {
  import opened Format

  /** Go's % on int, which truncates toward zero: the remainder takes the sign of a. */
  function GoRem(a: int, b: int): (r: int)
    requires b > 0
    ensures a >= 0 ==> r == a % b
    ensures a < 0 ==> -b < r <= 0
    ensures (a - r) % b == 0
  {
    if a >= 0 then
      DivModUnique(a - a % b, b, a / b, 0);
      a % b
    else
      var q, t := (-a) / b, (-a) % b;
      assert a + t == b * (-q);
      DivModUnique(a + t, b, -q, 0);
      -t
  }

  /** The verifier digit for a weighted sum: it brings the sum to a multiple
      of 11 when that takes a single digit 2..9 away from 11, and is 0 otherwise. */
  function CalculateVerifier(sum: int): (v: int)
    ensures 0 <= v <= 9
    ensures sum >= 0 && sum % 11 >= 2 ==> (sum + v) % 11 == 0
    ensures sum < 0 || sum % 11 < 2 ==> v == 0
  {
    var rem := GoRem(sum, 11);
    if rem < 2 then 0 else 11 - rem
  }

  /** Sum of s[i] * (w - i): the weights fall by one from w. */
  function WeightedSum(s: seq<int>, w: int): int
  {
    if s == [] then 0 else s[0] * w + WeightedSum(s[1..], w - 1)
  }

  /** The tenth digit is the verifier of the first nine under weights 10..2. */
  predicate ValidateFirstVerifier(digits: seq<int>): (ok: bool)
    requires |digits| == Width
    ensures ok <==> digits[9] == CalculateVerifier(WeightedSum(digits[..9], 10))
  {
    FirstSumWeighted(digits);
    var sum := digits[0] * 10 + digits[1] * 9 + digits[2] * 8 + digits[3] * 7 +
               digits[4] * 6 + digits[5] * 5 + digits[6] * 4 + digits[7] * 3 + digits[8] * 2;
    CalculateVerifier(sum) == digits[9]
  }

  /** The eleventh digit is the verifier of the first ten under weights 11..2. */
  predicate ValidateSecondVerifier(digits: seq<int>): (ok: bool)
    requires |digits| == Width
    ensures ok <==> digits[10] == CalculateVerifier(WeightedSum(digits[..10], 11))
  {
    SecondSumWeighted(digits);
    var sum := digits[0] * 11 + digits[1] * 10 + digits[2] * 9 + digits[3] * 8 +
               digits[4] * 7 + digits[5] * 6 + digits[6] * 5 + digits[7] * 4 +
               digits[8] * 3 + digits[9] * 2;
    CalculateVerifier(sum) == digits[10]
  }

  predicate AllEqual(d: seq<int>)
  {
    forall i :: 0 <= i < |d| ==> d[i] == d[0]
  }

  /** An 11-digit buffer that is a CPF: not one repeated digit, both verifiers right. */
  predicate ValidDigits(d: seq<int>)
  {
    |d| == Width && !AllEqual(d) && ValidateFirstVerifier(d) && ValidateSecondVerifier(d)
  }

  /** What isValidString decides. */
  predicate ValidString(s: string)
  {
    |DigitValues(s)| == Width && ValidDigits(DigitValues(s))
  }

  /** What isValidInt decides. */
  predicate ValidInt(n: int)
  {
    n > 0 && ValidDigits(DigitsOf(n, Width))
  }

  /** The nine base digits followed by their two verifiers: an 11-digit
      buffer that starts with the base and passes both checks. */
  function Complete(base: seq<int>): (c: seq<int>)
    requires |base| == 9
    ensures |c| == Width && c[..9] == base
    ensures ValidateFirstVerifier(c) && ValidateSecondVerifier(c)
  {
    var v1 := CalculateVerifier(WeightedSum(base, 10));
    var withFirst := base + [v1];
    var c := withFirst + [CalculateVerifier(WeightedSum(withFirst, 11))];
    assert c[..9] == base;
    assert c[..10] == withFirst;
    c
  }

  // ---------------------------------------------------------------------
  // Lemmas

  lemma WeightedSumStep(d: seq<int>, i: nat, j: nat, w: int)
    requires i < j <= |d|
    ensures WeightedSum(d[i..j], w) == d[i] * w + WeightedSum(d[i + 1..j], w - 1)
  {
    assert d[i..j][1..] == d[i + 1..j];
  }

  /** The sum written out in the first check is the weighted sum of the
      first nine digits under weights 10..2. */
  lemma FirstSumWeighted(d: seq<int>)
    requires |d| == Width
    ensures WeightedSum(d[..9], 10) == d[0] * 10 + d[1] * 9 + d[2] * 8 + d[3] * 7 +
                                      d[4] * 6 + d[5] * 5 + d[6] * 4 + d[7] * 3 + d[8] * 2
  {
    assert d[..9] == d[0..9];
    WeightedSumStep(d, 0, 9, 10);
    WeightedSumStep(d, 1, 9, 9);
    WeightedSumStep(d, 2, 9, 8);
    WeightedSumStep(d, 3, 9, 7);
    WeightedSumStep(d, 4, 9, 6);
    WeightedSumStep(d, 5, 9, 5);
    WeightedSumStep(d, 6, 9, 4);
    WeightedSumStep(d, 7, 9, 3);
    WeightedSumStep(d, 8, 9, 2);
  }

  /** The sum written out in the second check is the weighted sum of the
      first ten digits under weights 11..2. */
  lemma SecondSumWeighted(d: seq<int>)
    requires |d| == Width
    ensures WeightedSum(d[..10], 11) == d[0] * 11 + d[1] * 10 + d[2] * 9 + d[3] * 8 +
                                        d[4] * 7 + d[5] * 6 + d[6] * 5 + d[7] * 4 +
                                        d[8] * 3 + d[9] * 2
  {
    assert d[..10] == d[0..10];
    WeightedSumStep(d, 0, 10, 11);
    WeightedSumStep(d, 1, 10, 10);
    WeightedSumStep(d, 2, 10, 9);
    WeightedSumStep(d, 3, 10, 8);
    WeightedSumStep(d, 4, 10, 7);
    WeightedSumStep(d, 5, 10, 6);
    WeightedSumStep(d, 6, 10, 5);
    WeightedSumStep(d, 7, 10, 4);
    WeightedSumStep(d, 8, 10, 3);
    WeightedSumStep(d, 9, 10, 2);
  }

  /** Both checks hold exactly when the last two digits are the completion of the first nine. */
  lemma CompletionUnique(d: seq<int>)
    requires |d| == Width
    ensures ValidateFirstVerifier(d) && ValidateSecondVerifier(d) <==> d == Complete(d[..9])
  {
    var c := Complete(d[..9]);
    if d[9] == c[9] {
      assert d[..10] == c[..10];
    }
  }

  /** Every repeated-digit buffer passes both verifier checks, so only the
      all-digits-equal rule keeps them out. */
  lemma RepeatedDigitsPassChecksum(x: int)
    requires 0 <= x <= 9
    ensures var d := seq(Width, _ => x);
            ValidateFirstVerifier(d) && ValidateSecondVerifier(d) && !ValidDigits(d)
  {
    var d := seq(Width, _ => x);
    assert AllEqual(d);
    RepeatedVerifier(x);
  }

  /** Both weighted sums of a repeated digit x leave the verifier x. */
  lemma RepeatedVerifier(x: int)
    requires 0 <= x <= 9
    ensures CalculateVerifier(54 * x) == x && CalculateVerifier(65 * x) == x
  {
    if x > 0 {
      DivModUnique(54 * x, 11, 5 * x - 1, 11 - x);
      DivModUnique(65 * x, 11, 6 * x - 1, 11 - x);
    }
  }

  /** A completed CPF is accepted in masked, plain and integer form unless
      it is one repeated digit. */
  lemma CompletionAccepted(base: seq<int>)
    requires |base| == 9 && forall k :: 0 <= k < 9 ==> 0 <= base[k] <= 9
    ensures ValidString(MaskedText(Complete(base))) <==> !AllEqual(Complete(base))
    ensures ValidString(Render(Complete(base))) <==> !AllEqual(Complete(base))
    ensures ValidInt(Number(Complete(base))) <==> !AllEqual(Complete(base))
  {
    var c := Complete(base);
    assert forall k :: 0 <= k < Width ==> 0 <= c[k] <= 9;
    DigitValuesOfMasked(c);
    DigitValuesOfRender(c);
    DigitsOfNumber(c);
    if !AllEqual(c) {
      NonzeroDigitPositive(c);
    }
  }

  /** A digit sequence that is not all zeros has a positive value. */
  lemma {:induction false} NonzeroDigitPositive(d: seq<int>)
    requires forall k :: 0 <= k < |d| ==> 0 <= d[k] <= 9
    requires exists k :: 0 <= k < |d| && d[k] != 0
    ensures Number(d) > 0
  {
    NumberBounds(d[1..]);
    if d[0] == 0 {
      var k :| 0 <= k < |d| && d[k] != 0;
      assert d[1..][k - 1] != 0;
      NonzeroDigitPositive(d[1..]);
    } else {
      MulAtLeast(Pow10(|d| - 1), d[0]);
    }
  }

  /** Masking or unmasking a string with 11 digits does not change its validity. */
  lemma MaskInvariance(s: string)
    requires |DigitValues(s)| == Width
    ensures ValidString(MaskStringSpec(s)) == ValidString(s)
    ensures ValidString(UnmaskSpec(s)) == ValidString(s)
  {
    DigitValuesOfMasked(DigitValues(s));
    DigitValuesOfRender(DigitValues(s));
  }

  /** isValidInt agrees with validating the masked form of the number. */
  lemma ValidIntMatchesMask(n: int)
    requires n > 0
    ensures ValidInt(n) == ValidString(MaskIntSpec(n))
  {
    DigitsOfInRange(n, Width);
    DigitValuesOfMasked(DigitsOf(n, Width));
  }

  /** A masked buffer is valid exactly when the buffer is. */
  lemma ValidStringOfMasked(d: seq<int>)
    requires |d| == Width && forall k :: 0 <= k < Width ==> 0 <= d[k] <= 9
    ensures ValidString(MaskedText(d)) == ValidDigits(d)
  {
    DigitValuesOfMasked(d);
  }

  /** The worked example: for 111444777 the sums are 162 and 204 and the
      verifiers 3 and 5. */
  lemma WorkedExample()
    ensures WeightedSum([1, 1, 1, 4, 4, 4, 7, 7, 7], 10) == 162 && CalculateVerifier(162) == 3
    ensures WeightedSum([1, 1, 1, 4, 4, 4, 7, 7, 7, 3], 11) == 204 && CalculateVerifier(204) == 5
  {
  }

  /** Completing 111444777 appends 3 and 5. */
  lemma WorkedExampleComplete()
    ensures Complete([1, 1, 1, 4, 4, 4, 7, 7, 7]) == [1, 1, 1, 4, 4, 4, 7, 7, 7, 3, 5]
  {
    WorkedExample();
    assert [1, 1, 1, 4, 4, 4, 7, 7, 7] + [3] == [1, 1, 1, 4, 4, 4, 7, 7, 7, 3];
  }

  /** 11144477735 passes both checks and is not a repeated digit. */
  lemma WorkedExampleDigits()
    ensures ValidDigits([1, 1, 1, 4, 4, 4, 7, 7, 7, 3, 5])
  {
    var d := [1, 1, 1, 4, 4, 4, 7, 7, 7, 3, 5];
    assert d[1] != d[3];
  }

  /** 11144477735 is a valid CPF as a number. */
  lemma WorkedExampleValidInt()
    ensures ValidInt(11144477735)
  {
    WorkedExampleDigits();
    assert DigitsOf(11144477735, Width) == [1, 1, 1, 4, 4, 4, 7, 7, 7, 3, 5];
  }

  /** 111.444.777-35 is a valid CPF in masked form. */
  lemma WorkedExampleValidString()
    ensures ValidString("111.444.777-35")
  {
    var d := [1, 1, 1, 4, 4, 4, 7, 7, 7, 3, 5];
    WorkedExampleDigits();
    MaskedTextDisplay(d);
    assert MaskedText(d) == "111.444.777-35";
    ValidStringOfMasked(d);
  }

  /** A repeated digit is refused in both forms. */
  lemma RepeatedRejectedExample()
    ensures !ValidString("111.111.111-11") && !ValidInt(11111111111)
  {
    var ones := [1, 1, 1, 1, 1, 1, 1, 1, 1, 1, 1];
    assert AllEqual(ones);
    assert DigitsOf(11111111111, Width) == ones;
    MaskedTextDisplay(ones);
    assert MaskedText(ones) == "111.111.111-11";
    ValidStringOfMasked(ones);
  }

  /** A wrong second verifier is refused: 123.456.789 needs 0 and 9. */
  lemma WrongVerifierExample()
    ensures !ValidString("123.456.789-00")
  {
    var d := [1, 2, 3, 4, 5, 6, 7, 8, 9, 0, 0];
    assert !ValidateSecondVerifier(d);
    MaskedTextDisplay(d);
    assert MaskedText(d) == "123.456.789-00";
    ValidStringOfMasked(d);
  }

  /** Too few digits and non-positive numbers are refused. */
  lemma MalformedRejectedExample()
    ensures !ValidString("123.456") && !ValidString("")
    ensures !ValidInt(0) && !ValidInt(-12345678901)
  {
    assert DigitValues("123.456") == [1, 2, 3, 4, 5, 6];
  }

  // ---------------------------------------------------------------------
  // The operations of validate.go

  /** True when all 11 entries equal the first. */
  method IsAllDigitsEqual(digits: array<int>) returns (eq: bool)
    requires digits.Length == Width
    ensures eq <==> AllEqual(digits[..])
  {
    var first := digits[0];
    for i := 1 to Width
      invariant forall j :: 0 <= j < i ==> digits[j] == first
    {
      if digits[i] != first {
        return false;
      }
    }
    return true;
  }

  method IsValidString(cpf: string) returns (valid: bool)
    ensures valid == ValidString(cpf)
  {
    var digits := new int[Width];
    var ok := ExtractDigits(cpf, digits);
    if !ok {
      return false;
    }
    var eq := IsAllDigitsEqual(digits);
    if eq {
      return false;
    }
    if !ValidateFirstVerifier(digits[..]) {
      return false;
    }
    return ValidateSecondVerifier(digits[..]);
  }

  /** Splits cpf into 11 digits with the same loop as toDigits, then checks them.
      The loop runs only for cpf > 0, where Go's and Dafny's / and % agree. */
  method IsValidInt(cpf: int) returns (valid: bool)
    ensures valid == ValidInt(cpf)
  {
    if cpf <= 0 {
      return false;
    }
    var digits := new int[Width];
    var n := cpf;
    var i := Width - 1;
    while i >= 0
      invariant -1 <= i < Width
      invariant n == cpf / Pow10(Width - 1 - i)
      invariant forall j :: i < j < Width ==> digits[j] == (cpf / Pow10(Width - 1 - j)) % 10
    {
      digits[i] := n % 10;
      DivDiv(cpf, Pow10(Width - 1 - i), 10);
      n := n / 10;
      i := i - 1;
    }
    forall j | 0 <= j < Width
      ensures digits[j] == DigitsOf(cpf, Width)[j]
    {
      DigitsOfAt(cpf, Width, j);
    }
    assert digits[..] == DigitsOf(cpf, Width);
    var eq := IsAllDigitsEqual(digits);
    if eq {
      return false;
    }
    if !ValidateFirstVerifier(digits[..]) {
      return false;
    }
    return ValidateSecondVerifier(digits[..]);
  }
}
