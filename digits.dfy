/**
 Normalisation shared by the CPF validator and the CPF input mask: both
 begin by deleting every character that is not an ASCII decimal digit
 (the regular expressions `[^\d]` and `\D`; in JavaScript `\d` is `[0-9]`,
 so a digit is exactly '0'..'9').
 */
module Digits {

  /** Number of digits in a CPF, and the number the input mask keeps. */
  const CpfLength := 11

  /** An ASCII decimal digit. */
  predicate IsDigit(c: char) {
    '0' <= c <= '9'
  }

  /** Every character of `s` is a digit. */
  predicate AllDigits(s: string) {
    forall i :: 0 <= i < |s| ==> IsDigit(s[i])
  }

  /** The numeric value of a digit character (what `parseInt` gives for one digit). */
  function DigitValue(c: char): (v: nat)
    requires IsDigit(c)
    ensures v <= 9
    ensures ('0' as int + v) as char == c
  {
    c as int - '0' as int
  }

  /** Two digits with the same value are the same character. */
  lemma DigitValueInjective(a: char, b: char)
    requires IsDigit(a) && IsDigit(b)
    requires DigitValue(a) == DigitValue(b)
    ensures a == b
  {
  }

  /**
   The digit subsequence of `s`, order preserved: `s.replace(/[^\d]/g, '')`.
   */
  function OnlyDigits(s: string): (d: string)
    ensures |d| <= |s|
    ensures AllDigits(d)
  {
    if s == [] then []
    else if IsDigit(s[0]) then [s[0]] + OnlyDigits(s[1..])
    else OnlyDigits(s[1..])
  }

  /** Stripping distributes over concatenation. */
  lemma {:induction false} OnlyDigitsConcat(a: string, b: string)
    ensures OnlyDigits(a + b) == OnlyDigits(a) + OnlyDigits(b)
  {
    if a == [] {
      assert a + b == b;
    } else {
      assert (a + b)[1..] == a[1..] + b;
      OnlyDigitsConcat(a[1..], b);
    }
  }

  /** A string of digits is left unchanged by stripping, and only such a string is. */
  lemma {:induction false} OnlyDigitsFixesDigits(s: string)
    ensures OnlyDigits(s) == s <==> AllDigits(s)
  {
    if s != [] {
      OnlyDigitsFixesDigits(s[1..]);
      if !IsDigit(s[0]) {
        assert |OnlyDigits(s)| <= |s[1..]| < |s|;
      }
    }
  }

  /** Stripping is idempotent. */
  lemma OnlyDigitsIdempotent(s: string)
    ensures OnlyDigits(OnlyDigits(s)) == OnlyDigits(s)
  {
  }

  /** A non-digit inserted anywhere disappears when the string is stripped. */
  lemma {:induction false} OnlyDigitsIgnoresNonDigit(s: string, i: nat, c: char)
    requires i <= |s|
    requires !IsDigit(c)
    ensures OnlyDigits(s[..i] + [c] + s[i..]) == OnlyDigits(s)
  {
    var pre, post := s[..i], s[i..];
    assert OnlyDigits([c]) == [] by {
      assert [c][1..] == [];
    }
    OnlyDigitsConcat(pre + [c], post);
    OnlyDigitsConcat(pre, [c]);
    OnlyDigitsConcat(pre, post);
    assert pre + post == s;
  }
}
