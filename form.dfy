/**
 How the login form combines the two helpers: every keystroke stores the
 masked value, and submission validates the stored masked value rather
 than what was typed.
 */
module CpfForm {
  import opened Digits
  import opened CpfValidator
  import opened CpfFormatter

  /**
   Up to eleven digits, masking loses nothing the validator looks at: the
   masked value gets the same verdict as the typed one.
   */
  lemma FormatPreservesVerdict(typed: string)
    requires |OnlyDigits(typed)| <= CpfLength
    ensures IsValidCpf(FormatCpf(typed)) == IsValidCpf(typed)
  {
    FormatKeepsDigits(typed);
  }

  /**
   Past eleven digits the typed value is always invalid, yet the mask drops
   the surplus, so what gets validated is the first eleven digits alone.
   */
  lemma FormatTruncatesBeforeValidation(typed: string)
    requires |OnlyDigits(typed)| > CpfLength
    ensures !IsValidCpf(typed)
    ensures IsValidCpf(FormatCpf(typed)) == IsValidCpf(OnlyDigits(typed)[..CpfLength])
  {
    FormatKeepsDigits(typed);
    OnlyDigitsFixesDigits(OnlyDigits(typed)[..CpfLength]);
  }

  /**
   The punctuated and the bare forms of the test number are both accepted
   (the literals are parameters pinned by `requires`, which keeps them out of
   the solver's eager unfolding).
   */
  lemma PunctuationIrrelevant(masked: string, bare: string)
    requires masked == "111.444.777-35" && bare == "11144477735"
    ensures IsValidCpf(masked) && IsValidCpf(bare)
  {
    KnownValidNumber(bare);
    FormatsFullNumber(bare);
    FormatPreservesVerdict(bare);
  }
}
