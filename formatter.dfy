/**
 The live input mask for a CPF field: strip every non-digit, then
 re-punctuate as `ddd.ddd.ddd-dd` according to how many digits there are,
 dropping any digit after the eleventh.
 */
module CpfFormatter {
  import opened Digits

  /** Length of a completely filled mask, `ddd.ddd.ddd-dd`. */
  const MaskLength := 14

  function Min(a: nat, b: nat): nat {
    if a <= b then a else b
  }

  /** A character the mask may emit. */
  predicate IsMaskChar(c: char) {
    IsDigit(c) || c == '.' || c == '-'
  }

  /** The digits of `value` that the mask keeps: the first eleven at most. */
  function KeptDigits(value: string): (d: string)
    ensures AllDigits(d) && |d| <= CpfLength
    ensures d <= OnlyDigits(value)
    ensures |d| == Min(|OnlyDigits(value)|, CpfLength)
    ensures |OnlyDigits(value)| <= CpfLength ==> d == OnlyDigits(value)
  {
    var digits := OnlyDigits(value);
    digits[..Min(|digits|, CpfLength)]
  }

  /** How many separators the mask puts around `m` digits: one after the 3rd, 6th and 9th when more follow. */
  function SeparatorCount(m: nat): nat {
    (if m > 3 then 1 else 0) + (if m > 6 then 1 else 0) + (if m > 9 then 1 else 0)
  }

  /**
   `formatCPF`: the digits of `value` with `.` after the third and sixth and
   `-` after the ninth, each only once a later digit is present; `slice(9, 11)`
   clamps to the end of the digits and drops the rest.
   */
  function FormatCpf(value: string): (r: string)
    ensures forall i :: 0 <= i < |r| ==> IsMaskChar(r[i])
    ensures |r| <= MaskLength
  {
    var digits := OnlyDigits(value);
    var n := |digits|;
    if n <= 3 then
      digits
    else if n <= 6 then
      digits[..3] + "." + digits[3..]
    else if n <= 9 then
      digits[..3] + "." + digits[3..6] + "." + digits[6..]
    else
      digits[..3] + "." + digits[3..6] + "." + digits[6..9] + "-" + digits[9..Min(n, CpfLength)]
  }

  /**
   The layout of the mask, position by position: its length is the number
   of kept digits plus the separators they call for, `.` sits exactly at
   positions 3 and 7, `-` exactly at position 11, and every other position
   holds the next kept digit.
   */
  lemma FormatLayout(value: string)
    ensures var r, d := FormatCpf(value), KeptDigits(value);
      && |r| == |d| + SeparatorCount(|d|)
      && (forall i :: 0 <= i < |r| ==> (r[i] == '.' <==> i == 3 || i == 7))
      && (forall i :: 0 <= i < |r| ==> (r[i] == '-' <==> i == 11))
      && (forall i :: 0 <= i < |r| && i < 3 ==> r[i] == d[i])
      && (forall i :: 3 < i < |r| && i < 7 ==> r[i] == d[i - 1])
      && (forall i :: 7 < i < |r| && i < 11 ==> r[i] == d[i - 2])
      && (forall i :: 11 < i < |r| ==> r[i] == d[i - 3])
  {
    var digits := OnlyDigits(value);
    var n := |digits|;
    if n <= 3 {
      assert FormatCpf(value) == digits;
    } else if n <= 6 {
      assert FormatCpf(value) == digits[..3] + "." + digits[3..];
    } else if n <= 9 {
      assert FormatCpf(value) == digits[..3] + "." + digits[3..6] + "." + digits[6..];
    } else {
      assert FormatCpf(value)
        == digits[..3] + "." + digits[3..6] + "." + digits[6..9] + "-" + digits[9..Min(n, CpfLength)];
    }
  }

  /** Stripping a separator followed by a run of digits keeps just the digits. */
  lemma {:induction false} StripSeparator(prefix: string, c: char, run: string)
    requires AllDigits(run) && !IsDigit(c)
    ensures OnlyDigits(prefix + [c] + run) == OnlyDigits(prefix) + run
  {
    assert OnlyDigits([c]) == [] by {
      assert [c][1..] == [];
    }
    OnlyDigitsConcat(prefix + [c], run);
    OnlyDigitsConcat(prefix, [c]);
    OnlyDigitsFixesDigits(run);
  }

  /** The digits of the mask are exactly the kept digits, in order. */
  lemma FormatKeepsDigits(value: string)
    ensures OnlyDigits(FormatCpf(value)) == KeptDigits(value)
  {
    var digits := OnlyDigits(value);
    var n := |digits|;
    if n <= 3 {
      OnlyDigitsIdempotent(value);
    } else {
      var a := digits[..3];
      assert OnlyDigits(a) == a by { OnlyDigitsFixesDigits(a); }
      if n <= 6 {
        StripSeparator(a, '.', digits[3..]);
        assert a + digits[3..] == digits;
      } else {
        var b := digits[3..6];
        StripSeparator(a, '.', b);
        if n <= 9 {
          StripSeparator(a + "." + b, '.', digits[6..]);
          assert a + b + digits[6..] == digits;
        } else {
          var c, e := digits[6..9], digits[9..Min(n, CpfLength)];
          StripSeparator(a + "." + b, '.', c);
          StripSeparator(a + "." + b + "." + c, '-', e);
          assert a + b + c + e == digits[..Min(n, CpfLength)];
        }
      }
    }
  }

  /** Formatting an already formatted value changes nothing. */
  lemma FormatIdempotent(value: string)
    ensures FormatCpf(FormatCpf(value)) == FormatCpf(value)
  {
    FormatKeepsDigits(value);
    var digits := OnlyDigits(value);
    var kept := KeptDigits(value);
    if |digits| > CpfLength {
      assert kept[..3] == digits[..3];
      assert kept[3..6] == digits[3..6];
      assert kept[6..9] == digits[6..9];
      assert kept[9..CpfLength] == digits[9..CpfLength];
    }
  }

  /** Inserting a non-digit character anywhere never changes the mask. */
  lemma FormatIgnoresNonDigit(value: string, i: nat, c: char)
    requires i <= |value| && !IsDigit(c)
    ensures FormatCpf(value[..i] + [c] + value[i..]) == FormatCpf(value)
  {
    OnlyDigitsIgnoresNonDigit(value, i, c);
  }

  // The example lemmas below take their literal as a parameter pinned by
  // `requires`: that keeps the literal out of the solver's eager unfolding
  // of the recursive stripping function.

  /** A full number is punctuated completely. */
  lemma FormatsFullNumber(value: string)
    requires value == "11144477735"
    ensures FormatCpf(value) == "111.444.777-35"
  {
    assert AllDigits(value);
    OnlyDigitsFixesDigits(value);
    assert value[..3] == "111" && value[3..6] == "444" && value[6..9] == "777";
    assert value[9..Min(|value|, CpfLength)] == "35";
  }

  /** Partial input is punctuated only as far as it goes. */
  lemma FormatsPartialInput(short: string, middle: string)
    requires short == "111" && middle == "111444"
    ensures FormatCpf(short) == "111"
    ensures FormatCpf(middle) == "111.444"
  {
    assert OnlyDigits(short) == short by {
      assert AllDigits(short);
      OnlyDigitsFixesDigits(short);
    }
    assert OnlyDigits(middle) == middle by {
      assert AllDigits(middle);
      OnlyDigitsFixesDigits(middle);
    }
  }

  /** Letters in front of the digits are ignored. */
  lemma FormatsLetteredInput(lettered: string)
    requires lettered == "abc111444777"
    ensures FormatCpf(lettered) == "111.444.777"
  {
    var digits := lettered[3..];
    assert lettered == "abc" + digits;
    assert OnlyDigits("abc") == [];
    OnlyDigitsConcat("abc", digits);
    assert OnlyDigits(digits) == digits by {
      assert AllDigits(digits);
      OnlyDigitsFixesDigits(digits);
    }
  }
}
