# CPF validation and input mask

A verified model of the two helpers behind the CPF field of a login page
(`src/app/page.tsx`): the validator for the Brazilian individual taxpayer
number (CPF), which applies the modulo-11 check-digit rule, and the live
input mask that shows the typed value as `ddd.ddd.ddd-dd`.

- `digits.dfy`, module `Digits`: the normalisation both helpers start with.
  It deletes every character outside `'0'..'9'`: in JavaScript `\d` is
  `[0-9]`. A digit's value is `c - '0'`.
- `validator.dfy`, module `CpfValidator`: `IsValidCpf` is the specification.
  `ValidateCpf` is the source's procedure: it strips, checks the length,
  checks for a repeated digit, runs two weighted-sum loops and returns
  early. Its loop invariants tie each running sum to the recursive
  `WeightedSum`.
- `formatter.dfy`, module `CpfFormatter`: `FormatCpf` is the mask, written as
  a function because the source is one filter followed by a length-indexed
  chain of slices.
- `form.dfy`, module `CpfForm`: how the two helpers meet. Each keystroke
  stores the masked value, and submission validates the stored value.

The regular expression `^(\d)\1+$` is modelled as `RepeatedDigit`: at least
two characters, all equal to a leading digit. The validator only tests it
on 11-digit strings. JavaScript's `slice(9, 11)` clamps to the end of the
string; the model writes `digits[9..Min(n, 11)]`. Every sum is at most
9 · 65 = 585, so JavaScript's floating-point numbers are exact here and `%`
agrees with Dafny's on these non-negative operands.

## Model

| member | source | states |
|---|---|---|
| `Digits.OnlyDigits` | src/app/page.tsx:13 | The result holds only ASCII digits and is no longer than the input. |
| `Digits.DigitValue` | src/app/page.tsx:28 | A digit's value lies in 0..9, and adding it to `'0'` gives the digit back. |
| `Digits.OnlyDigitsFixesDigits` | src/app/page.tsx:57 | Stripping leaves a string unchanged exactly when it is all digits. |
| `Digits.OnlyDigitsIgnoresNonDigit` | src/app/page.tsx:13 | A non-digit inserted at any position vanishes when the string is stripped. |
| `CpfValidator.WeightedSum` | src/app/page.tsx:26-29 | The weighted sum Σ d[i]·(w − i) that both loops accumulate; it is never negative while the weights stay positive. |
| `CpfValidator.WeightedSumSnoc` | src/app/page.tsx:26-29 | One loop step adds the next digit times its weight, so the running sum equals the specified weighted sum of the prefix read so far. |
| `CpfValidator.FirstSumExpanded` | src/app/page.tsx:26-29 | The first sum is 10·d0 + 9·d1 + … + 2·d8. |
| `CpfValidator.SecondSumExpanded` | src/app/page.tsx:39-42 | The second sum is 11·d0 + 10·d1 + … + 2·d9. |
| `CpfValidator.CheckDigit` | src/app/page.tsx:30-33 | The remainder `(sum·10) % 11` is at most 10, so the `=== 11` branch is dead, and after the collapse the check digit lies in 0..9. |
| `CpfValidator.CheckDigitIsReceitaRule` | src/app/page.tsx:43-46 | `(sum·10) % 11` with the collapse equals `ReceitaCheckDigit`, the published rule: 0 when sum mod 11 < 2, else 11 − sum mod 11. |
| `CpfValidator.RepeatedDigit` | src/app/page.tsx:21 | A string the regular expression `^(\d)\1+$` matches has at least two characters, all digits. |
| `CpfValidator.RepeatedDigitIsRepetition` | src/app/page.tsx:20-23 | On eleven characters the test holds exactly for the ten strings `00000000000` … `99999999999`, in both directions. |
| `CpfValidator.CheckDigitsMatch` | src/app/page.tsx:30-49 | The two trailing digits pass both comparisons exactly when they are the check digits the published rule gives for the two weighted sums. |
| `CpfValidator.IsValidCpf` | src/app/page.tsx:13-51 | A valid input has exactly eleven digits, and some digit after the first differs from it. |
| `CpfValidator.ValidateCpf` | src/app/page.tsx:11-52 | The looping validator returns exactly `IsValidCpf(cpf)` on every input. |
| `CpfValidator.WrongLengthRejected` | src/app/page.tsx:13-18 | Any input whose digit count is not 11 is invalid, the empty string included. |
| `CpfValidator.RepeatedDigitsRejected` | src/app/page.tsx:20-23 | `00000000000` through `99999999999` are all invalid. |
| `CpfValidator.RepeatedDigitsPassChecksum` | src/app/page.tsx:20-49 | Each repeated string already carries correct check digits, so only the repeated-digit test rejects them. |
| `CpfValidator.CheckDigitsDetermined` | src/app/page.tsx:26-49 | Two valid inputs with the same first nine digits have the same eleven digits: the check digits are a function of the base. |
| `CpfValidator.VerdictIgnoresNonDigit` | src/app/page.tsx:13 | Inserting a non-digit character anywhere never changes the verdict. |
| `CpfValidator.KnownValidNumber` | src/app/page.tsx:11-52 | `11144477735` is valid. |
| `CpfValidator.CorruptedLastDigitRejected` | src/app/page.tsx:38-49 | `11144477736` is invalid because its second check digit is wrong. |
| `CpfFormatter.KeptDigits` | src/app/page.tsx:67 | The mask keeps a prefix of the input's digits of length min(n, 11): all of them up to eleven, exactly the first eleven beyond that. |
| `CpfFormatter.FormatCpf` | src/app/page.tsx:55-69 | The mask holds only digits, `.` and `-`, and is at most 14 characters long. |
| `CpfFormatter.FormatLayout` | src/app/page.tsx:60-68 | Position by position: the length is the kept digits plus their separators, `.` sits exactly at positions 3 and 7, `-` exactly at 11, and every other position holds the next kept digit in order. |
| `CpfFormatter.StripSeparator` | src/app/page.tsx:63-67 | Stripping a separator followed by a run of digits leaves the stripped prefix followed by that run. |
| `CpfFormatter.FormatKeepsDigits` | src/app/page.tsx:57-68 | The digits of the mask are exactly the first min(n, 11) digits of the input. |
| `CpfFormatter.FormatIdempotent` | src/app/page.tsx:57-68 | Masking an already masked value changes nothing. |
| `CpfFormatter.FormatIgnoresNonDigit` | src/app/page.tsx:57 | Inserting a non-digit character anywhere never changes the mask. |
| `CpfFormatter.FormatsFullNumber` | src/app/page.tsx:66-68 | `11144477735` is masked as `111.444.777-35`. |
| `CpfFormatter.FormatsPartialInput` | src/app/page.tsx:60-63 | `111` stays `111`, and `111444` becomes `111.444`. |
| `CpfFormatter.FormatsLetteredInput` | src/app/page.tsx:57-65 | `abc111444777` becomes `111.444.777`: the letters are ignored. |
| `CpfForm.FormatPreservesVerdict` | src/app/page.tsx:71-84 | With at most eleven digits, the stored masked value gets the same verdict as the typed one. |
| `CpfForm.FormatTruncatesBeforeValidation` | src/app/page.tsx:66-84 | With more than eleven digits, the typed value is invalid, but submission validates only its first eleven digits. |
| `CpfForm.PunctuationIrrelevant` | src/app/page.tsx:11-69 | `111.444.777-35` and `11144477735` are both accepted. |

## Left out

- React state and hooks (`useState`), the handlers `handleCPFChange` and `handleSubmit`, and all rendering. They are UI plumbing. `CpfForm` keeps only the fact that the stored value is the masked one and that it is what gets validated.
- The submit path's console logging, JSON export, file download and timestamp. These are browser I/O with nothing to verify.
- The browser's `maxLength={14}` on the input. The model does not assume it, so `FormatCpf` is specified for inputs of any length.
- JavaScript regular-expression and `parseInt` semantics in general. Only the ASCII digit filter and single-digit parsing are modelled.
