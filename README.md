# CPF digit codec, checksum validator and region table in Dafny

A verified model of the core of a Go package for the Brazilian CPF
taxpayer number. A CPF has 11 decimal digits. The last two are mod-11
check digits ("verifiers"), and the ninth digit names a group of states.

The model has three modules, one per core source file:

- `Format` (format.dfy) models format.go. `ExtractDigits` fills an
  11-slot buffer from a string. It skips every non-digit and succeeds only
  on exactly 11 digits. `ToDigits` and `ToNumber` convert between an
  integer and 11 right-aligned digits. `BufferToStringMasked` and
  `BufferToStringUnmasked` render the `DDD.DDD.DDD-DD` and plain forms.
  `MaskInt`, `MaskString`, `Unmask` and `UnmaskToInt` compose these.
  Buffers are `array<int>` of length 11, and the methods fill them with
  loops as the source does. Each method is proved against a specification
  function (`DigitValues`, `DigitsOf`, `Number`, `MaskedText`, `Render`,
  `MaskIntSpec`, ...). The lemmas state the round trips and bounds in terms
  of those functions.
- `Validate` (validate.dfy) models validate.go. `CalculateVerifier`,
  `ValidateFirstVerifier` and `ValidateSecondVerifier` are pure functions
  over the buffer's contents. `IsAllDigitsEqual`, `IsValidString` and
  `IsValidInt` are methods with the source's loops. `Complete` appends the
  two verifiers to nine base digits. This is the generator described in
  the package documentation, with the base digits as a parameter.
- `Generate` (generate.dfy) models generate.go: the 27-entry region table,
  the state-code check `ValidateStateInput`, the lookup
  `RegionDigitByState` and the placeholder `generate` as
  `GeneratePlaceholder`.

Three facts about the code decide behaviour that a reader might expect
otherwise, and the model follows the code in each:

- `validateStateInput` (generate.go:35-45) tests each character against
  `'A'..'Z'` before it calls `strings.ToUpper`. Lower-case codes are
  therefore refused (`LowercaseRejected`), and the upper-casing is the
  identity on every code that reaches it (`ToUpperIdentity`).
- The doc comment of `Generate` (cpf.go:3-26) promises a valid CPF for the
  given state. The code's `generate` (generate.go:18-20) returns the
  constant `"123.456.789-00"`, whatever the state, and the validator
  refuses it (`GeneratePlaceholder`). The generator the doc comment
  describes is modelled separately over caller-supplied digits
  (`Complete`, `RegionCompletion`).
- The length-14 guards in `maskInt` and `maskString` (format.go:16-18,
  format.go:31-33) can never fire, because `bufferToStringMasked` always
  yields 14 characters. The model keeps the guards and proves the length
  (`BufferToStringMasked`, `MaskInt`).

Go's semantics are written out where they matter:

- `byte(d + '0')` is `ByteOf`, the low eight bits of `d + 48`.
- Go's `%` truncates toward zero. `GoRem` models this in
  `calculateVerifier`, so `CalculateVerifier` is total and lies in 0..9
  for every integer.
- The XOR test `digits[i]^first != 0` in `isAllDigitsEqual` is written as
  `!=`. The two agree on integers.

## Model

| member | source | states |
|---|---|---|
| `Format.Pow11IsPowersOfTen` | format.go:3-5 | the `pow11` table holds 10^10 down to 10^0 |
| `Format.DigitValues` | format.go:78-91 | the digit values read from a string are each in 0..9, and there are at most as many as characters |
| `Format.DigitChars` | format.go:80-82 | the characters kept from a string are all digits |
| `Format.DigitsOf` | format.go:93-100 | the k lowest decimal digits of n form a sequence of length k |
| `Format.ByteOf` | format.go:62 | `byte(d + '0')` is the digit character of d for d in 0..9 |
| `Format.MaskedText` | format.go:56-66 | the masked form has 14 characters, '.' at 3 and 7, '-' at 11, and digit i at slot `idx[i]` |
| `Format.DigitValuesAppend` | format.go:80-89 | the digits of a concatenation are the digits of the parts, in order |
| `Format.NonDigitSkipped` | format.go:82 | inserting a non-digit character anywhere does not change the digits read |
| `Format.DigitValuesPrefix` | format.go:83-85 | the digits of a prefix are a prefix of the digits, so the early exit sees a twelfth digit of the whole input |
| `Format.DigitValuesAreDigitChars` | format.go:80-88 | entry k of the buffer is the value of the k-th digit character of the input |
| `Format.DigitValuesOfRender` | format.go:68-76 | rendered digits parse back to themselves |
| `Format.DigitValuesOfMasked` | format.go:56-66 | parsing the masked form gives back exactly the buffer |
| `Format.MaskedShapeUnique` | format.go:56-66 | any 14-character string with the mask's separators and digit slots is the masked form |
| `Format.MaskedTextDisplay` | format.go:56-66 | the masked form written out character by character |
| `Format.NumberSnoc` | format.go:102-108 | appending a digit shifts the value one decimal place |
| `Format.NumberBounds` | format.go:102-108 | a k-digit buffer reassembles to a value in [0, 10^k - 1] |
| `Format.DigitsOfInRange` | format.go:96 | every digit produced by the split is in 0..9 |
| `Format.DigitsOfAt` | format.go:95-98 | digit j of the split is `(n / 10^(k-1-j)) % 10`, so digits are right-aligned |
| `Format.NumberOfDigitsOf` | format.go:93-108 | `toNumber(toDigits(n)) == n % 10^11`, so only the 11 lowest digits are kept |
| `Format.DigitsOfNumber` | format.go:93-108 | splitting a reassembled digit buffer gives the buffer back |
| `Format.DigitsOfLowDigits` | format.go:93-100 | the split depends only on n modulo 10^11 |
| `Format.UnmaskToIntOfMaskInt` | format.go:7-54 | `unmaskToInt(maskInt(n))` is n modulo 10^11 for n > 0, and so is n itself for 0 < n < 10^11 |
| `Format.UnmaskOfMaskString` | format.go:23-45 | `unmask(maskString(s)) == unmask(s)` when s holds 11 digits |
| `Format.MaskOfUnmask` | format.go:23-45 | `maskString(unmask(s)) == maskString(s)` for every s: masking the plain form gives the canonical masked form |
| `Format.UnmaskIsDigitChars` | format.go:38-45 | `unmask` returns the input's digit characters when there are 11, and "" otherwise |
| `Format.ExtractionFailure` | format.go:23-54 | `maskString` and `unmask` return "" and `unmaskToInt` returns -1 exactly when the input does not hold 11 digits; otherwise `unmaskToInt` lies in [0, 10^11 - 1] |
| `Format.MaskIntExample` | format_test.go:12-24 | 11144477735 masks to "111.444.777-35"; 0 and -1 mask to "" |
| `Format.MaskIntPadsExample` | format_test.go:13 | 2147483647 is zero-padded to "021.474.836-47" |
| `Format.MaskIntTruncatesExample` | format_test.go:19 | 123456789012 keeps its 11 lowest digits: "234.567.890-12" |
| `Format.ExtractionExamples` | format.go:23-54 | "invalid" masks to "", "123" gives -1, and "111.444.777-35" unmasks to "11144477735" |
| `Format.ExtractDigits` | format.go:78-91 | succeeds iff the input holds exactly 11 digit characters; on success the buffer holds their values; on failure the digits read so far are written and the rest is untouched |
| `Format.ToDigits` | format.go:93-100 | a new buffer, shared with no other array, holds the 11 lowest decimal digits of num, right-aligned |
| `Format.ToNumber` | format.go:102-108 | the result is the positional value of the buffer |
| `Format.BufferToStringMasked` | format.go:56-66 | the result always has 14 characters, with '.' at 3 and 7, '-' at 11 and digit i at `idx[i]` |
| `Format.BufferToStringUnmasked` | format.go:68-76 | the result has 11 characters, and character i is `byte(digits[i] + '0')` |
| `Format.MaskInt` | format.go:7-21 | "" for cpf <= 0, otherwise the masked form of its 11 lowest digits, always 14 characters, so the length guard never fires |
| `Format.MaskString` | format.go:23-36 | "" unless the input holds 11 digits, otherwise their masked form |
| `Format.Unmask` | format.go:38-45 | "" unless the input holds 11 digits, otherwise those digits as a plain string |
| `Format.UnmaskToInt` | format.go:47-54 | -1 unless the input holds 11 digits, otherwise their positional value |
| `Validate.GoRem` | validate.go:62 | Go's remainder: it agrees with the mathematical one for a >= 0, lies in (-b, 0] for a < 0, and always differs from a by a multiple of b, which fixes its value |
| `Validate.CalculateVerifier` | validate.go:61-70 | the verifier is in 0..9 for every sum; for a sum >= 0 it is 0 when `sum % 11 < 2`, and otherwise it makes the sum plus it a multiple of 11 |
| `Validate.ValidateFirstVerifier` | validate.go:45-50 | the first check holds iff digit 9 is the verifier of the first nine digits weighted 10..2 |
| `Validate.ValidateSecondVerifier` | validate.go:53-59 | the second check holds iff digit 10 is the verifier of the first ten digits weighted 11..2 |
| `Validate.FirstSumWeighted` | validate.go:46-47 | the sum written out in the first check is the weighted sum of the first nine digits under weights 10..2 |
| `Validate.SecondSumWeighted` | validate.go:54-56 | the sum written out in the second check is the weighted sum of the first ten digits under weights 11..2 |
| `Validate.Complete` | cpf.go:11-26 | appending the two computed verifiers to nine digits gives an 11-digit buffer that starts with them and passes both checks |
| `Validate.CompletionUnique` | validate.go:45-59 | both checks hold exactly when the last two digits are the completion of the first nine |
| `Validate.RepeatedDigitsPassChecksum` | validate.go:11-13 | every repeated-digit buffer passes both checks, so only the all-digits-equal rule refuses it |
| `Validate.RepeatedVerifier` | validate.go:61-70 | for a repeated digit x both weighted sums (54x and 65x) have verifier x |
| `Validate.CompletionAccepted` | cpf.go:26 | a completed CPF is accepted as masked string, as plain string and as integer unless all its digits are equal |
| `Validate.NonzeroDigitPositive` | validate.go:23-25 | a buffer with a nonzero digit has a positive value, so the `cpf <= 0` guard does not refuse it |
| `Validate.MaskInvariance` | validate.go:3-20 | for a string with 11 digits, validating its masked or unmasked form gives the same answer as validating it |
| `Validate.ValidIntMatchesMask` | validate.go:22-42 | for n > 0, `isValidInt(n)` equals validating `maskInt(n)` |
| `Validate.ValidStringOfMasked` | validate.go:3-20 | the masked form of a buffer is valid exactly when the buffer is |
| `Validate.WorkedExample` | cpf.go:13-25 | for 111444777 the sums are 162 and 204 and the verifiers 3 and 5 |
| `Validate.WorkedExampleComplete` | cpf.go:18-26 | completing 111444777 gives 11144477735 |
| `Validate.WorkedExampleDigits` | cpf.go:26 | the digits of 11144477735 pass both checks and are not all equal |
| `Validate.WorkedExampleValidInt` | validate.go:22-42 | `isValidInt(11144477735)` holds |
| `Validate.WorkedExampleValidString` | validate.go:3-20 | `isValidString("111.444.777-35")` holds |
| `Validate.RepeatedRejectedExample` | validate_test.go:40-44 | "111.111.111-11" and 11111111111 are refused |
| `Validate.WrongVerifierExample` | validate_test.go:45-49 | "123.456.789-00" is refused |
| `Validate.MalformedRejectedExample` | validate_test.go:51-83 | "123.456", "", 0 and -12345678901 are refused |
| `Validate.IsAllDigitsEqual` | validate.go:72-80 | true iff all 11 entries equal the first |
| `Validate.IsValidString` | validate.go:3-20 | false if extraction fails or all digits are equal, otherwise true iff both verifier checks hold |
| `Validate.IsValidInt` | validate.go:22-42 | false for cpf <= 0, otherwise the same checks on the 11 lowest digits of cpf, split as `toDigits` does |
| `Generate.ToUpper` | generate.go:44 | upper-casing keeps the length, leaves no character in 'a'..'z', and keeps every character outside 'a'..'z' |
| `Generate.ValidateStateInput` | generate.go:35-45 | the result is non-empty iff the code has two characters in 'A'..'Z', and then it is the code itself |
| `Generate.RegionDigitByState` | generate.go:22-33 | the result is -1 or a digit in 0..9 |
| `Generate.GeneratePlaceholder` | generate.go:18-20 | the placeholder's result has 14 characters and the validator refuses it |
| `Generate.RegionTableWellFormed` | generate.go:5-16 | in the `digits` table (`RegionDigits`) every key is two characters in 'A'..'Z' and every value is in 0..9 |
| `Generate.RegionDigitIsLookup` | generate.go:22-33 | the lookup returns the `RegionDigits` entry for a key and -1 for anything else, malformed or unmapped |
| `Generate.ToUpperIdentity` | generate.go:39-44 | upper-casing is the identity on every code that passes the range check |
| `Generate.LowercaseRejected` | generate.go:39-44 | a code with a lower-case letter is refused, and its lookup gives -1 |
| `Generate.RegionTableCoversDigits` | generate.go:5-16 | the table's values are exactly 0..9, and it is many-to-one (ES and RJ give 7, PR and SC give 9) |
| `Generate.RegionDigitExamples` | generate.go:5-16 | ES and RJ give 7, SP 8, RS 0, PR and SC 9 |
| `Generate.UnknownRegionExamples` | generate.go:22-45 | XX, "", SP123, "!@" and "sp" give -1 |
| `Generate.RegionCompletion` | cpf.go:11-26 | eight base digits, a known state's digit and the two verifiers put the state's digit in the ninth position and pass both checks, and the masked result is accepted unless all its digits are equal |

## Left out

- The public `any`-typed entry points (`IsValid`, `Mask`, `Unmask`, `New`, `WithMask`) are not part of this model. The same holds for the float, bool, nil and struct inputs the tests pass to them. The `Generate` wrapper in cpf.go is left out too; it only calls `generate`.
- Random generation of base digits is not modelled. The doc comment's generator is stated over caller-supplied digits instead (`Complete`, `RegionCompletion`).
- Go's machine integer width is not modelled: integers are unbounded. The core only divides its int argument, and every other value it computes is a digit, a weighted sum below 600, or a `toNumber` result below 10^11, so nothing overflows. The model also accepts integers beyond Go's int range, where the source cannot be called.
- Format.ToDigits: requires num >= 0. Its only caller passes a positive value, so Go's truncating `/` and `%` on negative numbers are not modelled there.
- `strings.ToUpper` is modelled on ASCII letters only. It is applied only to codes already limited to 'A'..'Z', where it is the identity.
- Go strings are bytes; the model uses characters. Every byte of a multi-byte UTF-8 character is 0x80 or above. Such bytes are never digits, and the state-code check refuses them either way, so the decisions agree.
- The table's size of 27 entries is not proved as a cardinality. Its keys, values and lookups are.
