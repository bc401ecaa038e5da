/**
 The CPF validator: the modulo-11 check-digit rule for the Brazilian
 individual taxpayer number. The specification is the predicate IsValidCpf;
 ValidateCpf is the step-by-step procedure (strip, length check,
 repeated-digit check, two weighted-sum loops) proved to compute it.
 */
module CpfValidator {
  import opened Digits

  /**
   Σ DigitValue(d[i]) * (w - i) over all positions i of `d`: the weighted
   sum of a digit string whose first weight is `w`, decreasing by one.
   */
  function WeightedSum(d: string, w: int): (r: int)
    requires AllDigits(d)
    ensures w >= |d| ==> r >= 0
  {
    if d == [] then 0
    else DigitValue(d[0]) * w + WeightedSum(d[1..], w - 1)
  }

  /** Appending a digit adds its value times the next weight in the row. */
  lemma {:induction false} WeightedSumSnoc(d: string, c: char, w: int)
    requires AllDigits(d) && IsDigit(c)
    ensures AllDigits(d + [c])
    ensures WeightedSum(d + [c], w) == WeightedSum(d, w) + DigitValue(c) * (w - |d|)
  {
    assert AllDigits(d + [c]);
    if d != [] {
      assert (d + [c])[1..] == d[1..] + [c];
      WeightedSumSnoc(d[1..], c, w - 1);
    }
  }

  /** Extending a prefix by one digit adds that digit's weighted term. */
  lemma WeightedSumPrefixStep(d: string, k: nat, w: int)
    requires AllDigits(d) && k < |d|
    ensures WeightedSum(d[..k + 1], w) == WeightedSum(d[..k], w) + DigitValue(d[k]) * (w - k)
  {
    assert d[..k + 1] == d[..k] + [d[k]];
    WeightedSumSnoc(d[..k], d[k], w);
  }

  /** The first sum of an 11-digit string written out term by term (weights 10..2). */
  lemma FirstSumExpanded(d: string)
    requires |d| == CpfLength && AllDigits(d)
    ensures WeightedSum(d[..9], 10)
      == 10 * DigitValue(d[0]) + 9 * DigitValue(d[1]) + 8 * DigitValue(d[2])
       + 7 * DigitValue(d[3]) + 6 * DigitValue(d[4]) + 5 * DigitValue(d[5])
       + 4 * DigitValue(d[6]) + 3 * DigitValue(d[7]) + 2 * DigitValue(d[8])
  {
    assert d[..0] == [];
    WeightedSumPrefixStep(d, 0, 10); WeightedSumPrefixStep(d, 1, 10); WeightedSumPrefixStep(d, 2, 10);
    WeightedSumPrefixStep(d, 3, 10); WeightedSumPrefixStep(d, 4, 10); WeightedSumPrefixStep(d, 5, 10);
    WeightedSumPrefixStep(d, 6, 10); WeightedSumPrefixStep(d, 7, 10); WeightedSumPrefixStep(d, 8, 10);
  }

  /** The second sum of an 11-digit string written out term by term (weights 11..2). */
  lemma SecondSumExpanded(d: string)
    requires |d| == CpfLength && AllDigits(d)
    ensures WeightedSum(d[..10], 11)
      == 11 * DigitValue(d[0]) + 10 * DigitValue(d[1]) + 9 * DigitValue(d[2])
       + 8 * DigitValue(d[3]) + 7 * DigitValue(d[4]) + 6 * DigitValue(d[5])
       + 5 * DigitValue(d[6]) + 4 * DigitValue(d[7]) + 3 * DigitValue(d[8])
       + 2 * DigitValue(d[9])
  {
    assert d[..0] == [];
    WeightedSumPrefixStep(d, 0, 11); WeightedSumPrefixStep(d, 1, 11); WeightedSumPrefixStep(d, 2, 11);
    WeightedSumPrefixStep(d, 3, 11); WeightedSumPrefixStep(d, 4, 11); WeightedSumPrefixStep(d, 5, 11);
    WeightedSumPrefixStep(d, 6, 11); WeightedSumPrefixStep(d, 7, 11); WeightedSumPrefixStep(d, 8, 11);
    WeightedSumPrefixStep(d, 9, 11);
  }

  /**
   The check digit for a weighted sum: `(sum * 10) % 11`, with a result
   of 10 or 11 collapsed to 0. The remainder never reaches 11, so that
   half of the collapse never fires; the digit is always 0..9.
   */
  function CheckDigit(sum: nat): (r: nat)
    ensures (sum * 10) % 11 <= 10
    ensures r <= 9
  {
    var remainder := (sum * 10) % 11;
    if remainder == 10 || remainder == 11 then 0 else remainder
  }

  /**
   The rule as the Receita Federal publishes it: with r = sum mod 11, the
   check digit is 0 when r < 2 and 11 - r otherwise.
   */
  function ReceitaCheckDigit(sum: nat): nat {
    if sum % 11 < 2 then 0 else 11 - sum % 11
  }

  /** The `* 10 % 11` form used by the validator agrees with the published rule on every sum. */
  lemma CheckDigitIsReceitaRule(sum: nat)
    ensures CheckDigit(sum) == ReceitaCheckDigit(sum)
  {
  }

  /** The regular expression `^(\d)\1+$`: two or more copies of one digit. */
  predicate RepeatedDigit(d: string)
    ensures RepeatedDigit(d) ==> |d| >= 2 && AllDigits(d)
  {
    |d| >= 2 && IsDigit(d[0]) && forall i :: 1 <= i < |d| ==> d[i] == d[0]
  }

  /** On eleven characters the test matches exactly the ten strings `00000000000` … `99999999999`. */
  lemma RepeatedDigitIsRepetition(d: string)
    requires |d| == CpfLength
    ensures RepeatedDigit(d) <==> exists c :: IsDigit(c) && d == Repeated(c)
  {
    if RepeatedDigit(d) {
      assert d == Repeated(d[0]);
    }
  }

  /**
   Both check digits of an 11-digit string agree with the weighted sums;
   equivalently, they are the digits the published rule calls for.
   */
  predicate CheckDigitsMatch(d: string)
    requires |d| == CpfLength && AllDigits(d)
    ensures CheckDigitsMatch(d) <==>
      && DigitValue(d[9]) == ReceitaCheckDigit(WeightedSum(d[..9], 10))
      && DigitValue(d[10]) == ReceitaCheckDigit(WeightedSum(d[..10], 11))
  {
    CheckDigitIsReceitaRule(WeightedSum(d[..9], 10));
    CheckDigitIsReceitaRule(WeightedSum(d[..10], 11));
    && DigitValue(d[9]) == CheckDigit(WeightedSum(d[..9], 10))
    && DigitValue(d[10]) == CheckDigit(WeightedSum(d[..10], 11))
  }

  /**
   The verdict of the validator on any input string: its digits number
   exactly eleven, are not all the same digit, and end in the two check
   digits their weighted sums call for.
   */
  predicate IsValidCpf(cpf: string)
    ensures IsValidCpf(cpf) ==> |OnlyDigits(cpf)| == CpfLength
    ensures IsValidCpf(cpf) ==>
      exists i :: 1 <= i < CpfLength && OnlyDigits(cpf)[i] != OnlyDigits(cpf)[0]
  {
    var d := OnlyDigits(cpf);
    && |d| == CpfLength
    && !RepeatedDigit(d)
    && CheckDigitsMatch(d)
  }

  /**
   The validator as the source runs it: strip, reject any length but 11,
   reject a repeated digit, then accumulate each weighted sum in a loop and
   compare its check digit with the digit in place, returning early on the
   first failure.
   */
  method ValidateCpf(cpf: string) returns (valid: bool)
    ensures valid == IsValidCpf(cpf)
  {
    var clean := OnlyDigits(cpf);
    if |clean| != CpfLength {
      return false;
    }
    if RepeatedDigit(clean) {
      return false;
    }

    var sum := 0;
    for i := 0 to 9
      invariant sum == WeightedSum(clean[..i], 10)
    {
      WeightedSumSnoc(clean[..i], clean[i], 10);
      assert clean[..i + 1] == clean[..i] + [clean[i]];
      sum := sum + DigitValue(clean[i]) * (10 - i);
    }
    var remainder := (sum * 10) % 11;
    if remainder == 10 || remainder == 11 {
      remainder := 0;
    }
    if remainder != DigitValue(clean[9]) {
      return false;
    }

    sum := 0;
    for i := 0 to 10
      invariant sum == WeightedSum(clean[..i], 11)
    {
      WeightedSumSnoc(clean[..i], clean[i], 11);
      assert clean[..i + 1] == clean[..i] + [clean[i]];
      sum := sum + DigitValue(clean[i]) * (11 - i);
    }
    remainder := (sum * 10) % 11;
    if remainder == 10 || remainder == 11 {
      remainder := 0;
    }
    if remainder != DigitValue(clean[10]) {
      return false;
    }

    return true;
  }

  /** Any digit count other than eleven, the empty input included, is rejected. */
  lemma WrongLengthRejected(cpf: string)
    requires |OnlyDigits(cpf)| != CpfLength
    ensures !IsValidCpf(cpf)
  {
  }

  /** The eleven-fold repetition of one digit. */
  function Repeated(c: char): (s: string)
    requires IsDigit(c)
    ensures |s| == CpfLength && AllDigits(s) && RepeatedDigit(s)
  {
    [c, c, c, c, c, c, c, c, c, c, c]
  }

  /** `00000000000` through `99999999999` are all rejected. */
  lemma RepeatedDigitsRejected(c: char)
    requires IsDigit(c)
    ensures !IsValidCpf(Repeated(c))
  {
  }

  /**
   Without the repeated-digit check the ten repeated strings would be
   accepted: each already ends in the check digits its sums call for
   (54·v·10 and 65·v·10 are both v modulo 11).
   */
  lemma RepeatedDigitsPassChecksum(c: char)
    requires IsDigit(c)
    ensures CheckDigitsMatch(Repeated(c))
  {
    var s, v := Repeated(c), DigitValue(c);
    assert WeightedSum(s[..9], 10) == 54 * v by { FirstSumExpanded(s); }
    assert WeightedSum(s[..10], 11) == 65 * v by { SecondSumExpanded(s); }
    assert CheckDigit(54 * v) == v by {
      assert 54 * v * 10 == 11 * (49 * v) + v;
    }
    assert CheckDigit(65 * v) == v by {
      assert 65 * v * 10 == 11 * (59 * v) + v;
    }
  }

  /**
   The two check digits are determined by the nine before them: two valid
   inputs whose first nine digits agree have the same digits throughout.
   */
  lemma CheckDigitsDetermined(a: string, b: string)
    requires IsValidCpf(a) && IsValidCpf(b)
    requires OnlyDigits(a)[..9] == OnlyDigits(b)[..9]
    ensures OnlyDigits(a) == OnlyDigits(b)
  {
    var da, db := OnlyDigits(a), OnlyDigits(b);
    DigitValueInjective(da[9], db[9]);
    assert da[..10] == da[..9] + [da[9]];
    assert db[..10] == db[..9] + [db[9]];
    DigitValueInjective(da[10], db[10]);
    assert da == da[..10] + [da[10]];
    assert db == db[..10] + [db[10]];
  }

  /** Inserting a non-digit character anywhere never changes the verdict. */
  lemma VerdictIgnoresNonDigit(cpf: string, i: nat, c: char)
    requires i <= |cpf| && !IsDigit(c)
    ensures IsValidCpf(cpf[..i] + [c] + cpf[i..]) == IsValidCpf(cpf)
  {
    OnlyDigitsIgnoresNonDigit(cpf, i, c);
  }

  // The example lemmas below take their literal as a parameter pinned by
  // `requires`: that keeps the literal out of the solver's eager unfolding
  // of the recursive stripping and summing functions.

  /** The well-known test number 111.444.777-35 is valid. */
  lemma KnownValidNumber(d: string)
    requires d == "11144477735"
    ensures IsValidCpf(d)
  {
    assert AllDigits(d);
    assert OnlyDigits(d) == d by { OnlyDigitsFixesDigits(d); }
    assert !RepeatedDigit(d) by { assert d[3] != d[0]; }
    assert WeightedSum(d[..9], 10) == 162 by { FirstSumExpanded(d); }
    assert WeightedSum(d[..10], 11) == 204 by { SecondSumExpanded(d); }
    assert DigitValue(d[9]) == 3 && DigitValue(d[10]) == 5;
  }

  /** Corrupting its last digit makes the second check fail. */
  lemma CorruptedLastDigitRejected(d: string)
    requires d == "11144477736"
    ensures !IsValidCpf(d)
  {
    assert AllDigits(d);
    assert OnlyDigits(d) == d by { OnlyDigitsFixesDigits(d); }
    assert WeightedSum(d[..10], 11) == 204 by { SecondSumExpanded(d); }
    assert DigitValue(d[10]) == 6;
  }
}
