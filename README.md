# ISBN package model

A Dafny model of the Go package `isbn` (`isbn.go`). The package reads
International Standard Book Numbers (ISO 2108) in three forms:

- the nine-digit British Standard Book Number (SBN);
- the ten-digit ISBN-10 with its modulo-11 check value, 'X' standing for 10;
- the thirteen-digit ISBN-13 (an EAN-13 with GS1 prefix 978 or 979) and its modulo-10 check digit.

It then renders the parsed number as an SBN, an ISBN-10 or an ISBN-13.

The model has four modules:

- `Runes` (`runes.dfy`):
  - the rune sanitiser `sanitizeRune` and its use through `strings.Map`;
  - `convertDigitsToString`, including Go's replacement of invalid runes by U+FFFD;
  - the UTF-8 byte length that `len` measures.
- `Checksum` (`checksum.dfy`):
  - `check10` and `check13`, each as a specification function and as a method with the loop of the source, proved to compute that function;
  - Go's truncating `%`;
  - the agreement of each check with the ISO 2108 / GS1 statement "the full weighted sum is a multiple of 11 (10)".
- `Isbn` (`isbn.dfy`):
  - the `parsed` record and the error conditions;
  - `parse`, `parseSbn`, `parse10` and `parse13`;
  - the renderers `isbn13` and `isbn10`;
  - the exported `SBN`, `ISBN10` and `ISBN13`;
  - the properties linking them.
- `Vectors` (`vectors.dfy`): concrete digit sequences and what the validators and renderers do with them.

The model follows the code as written. In particular:

- `parse10` keeps the old check value as the last body entry, so the body of an ISBN-10 input is 978 followed by all ten values. A 10 ('X') can therefore sit in a body.
- `isbn10` and `SBN` compute `check13` of the body, not `check10`. The ISBN-10 text is the digits of the body after 978, whose last is the input's own check value, then one more character. For an SBN or ISBN-10 input that last digit is the ISBN-10 check value; for an ISBN-13 input it is the ISBN-13 check digit.
- That last character has code 0..9, a control character, not a digit. The renderers write no hyphens.
- The 17-byte ceiling is applied before sanitising. An 11-digit input therefore fails with `InvalidLength(11)`, not with "too long".
- 'X' is accepted at any position of an SBN or ISBN-10, not only as the check value.

## Model

| member | source | states |
|---|---|---|
| Runes.SanitizeRune | isbn.go:20-32 | a digit maps to its value (its code minus 0x30), 'X'/'x' to 10, every other rune to -1; -1 exactly for non-ISBN runes |
| Runes.Sanitize | isbn.go:52 | `strings.Map(sanitizeRune, s)` drops the -1 runes: the result is no longer than the input and every value is in 0..10 |
| Runes.SanitizeAppend | isbn.go:52 | sanitising distributes over concatenation |
| Runes.SanitizeDropsAll | isbn.go:31 | a text without ISBN characters sanitises to nothing |
| Runes.SanitizeIgnoresHyphen | isbn.go:47-52 | inserting a hyphen anywhere leaves the sanitised digits unchanged |
| Runes.Utf8Len | isbn.go:48 | a rune takes 1 to 4 bytes, exactly 1 when it is ASCII |
| Runes.ByteLen | isbn.go:48 | `len` of a string is at least its number of runes |
| Runes.ByteLenAscii | isbn.go:48 | `len` equals the number of runes exactly when every rune is ASCII |
| Runes.ByteLenAppend | isbn.go:48 | `len` adds up over concatenation |
| Runes.DigitsToString | isbn.go:36-41 | one character per value; a value v in 0..10 becomes the character with code v + 0x30 |
| Runes.SanitizeDigitsToString | isbn.go:34-41 | `convertDigitsToString` reverts the sanitiser on every sequence of values 0..9 |
| Runes.TenIsNotRestored | isbn.go:26-41 | the value 10 is written as ':', which the sanitiser drops, so 'X' is not reverted |
| Checksum.GoRem | isbn.go:119 | Go's `%` has the sign of the dividend and magnitude below the modulus, and agrees with the mathematical remainder on non-negative dividends |
| Checksum.GoRemDivides | isbn.go:119 | for the moduli 10 and 11, the dividend minus Go's `%` is a multiple of the modulus, so `%` is the remainder of truncated division |
| Checksum.Complement11 | isbn.go:133 | `(11 - check%11) % 11` is in 0..10 and completes `check` to a multiple of 11, for any sign of `check` |
| Checksum.Complement10 | isbn.go:119 | `(10 - check%10) % 10` is in 0..9 and completes `check` to a multiple of 10, for any sign of `check` |
| Checksum.Complement11Completes | isbn.go:133 | `(11 - check%11) % 11` with Go's `%` lies in 0..10 and completes any `check` to a multiple of 11 |
| Checksum.Complement10Completes | isbn.go:119 | `(10 - check%10) % 10` with Go's `%` lies in 0..9 and completes any `check` to a multiple of 10 |
| Checksum.CheckDigit10 | isbn.go:125-134 | the ISBN-10 check value is in 0..10 and makes the weighted sum (weights 10, 9, ...) plus it a multiple of 11 |
| Checksum.CheckDigit13 | isbn.go:107-120 | the ISBN-13 check digit is in 0..9 and makes the alternating 1/3 sum plus it a multiple of 10 |
| Checksum.Check10 | isbn.go:125-134 | the loop of `check10` computes `CheckDigit10`: a value in 0..10 completing the weighted sum to a multiple of 11 |
| Checksum.Check13 | isbn.go:107-120 | the loop of `check13` computes `CheckDigit13`: a digit completing the 1/3 sum to a multiple of 10 |
| Checksum.WeightedSum10Snoc | isbn.go:130-132 | one more entry adds it times the weight of its position, as one round of the `check10` loop does |
| Checksum.WeightedSum13Snoc | isbn.go:112-118 | one more entry adds it once at even and three times at odd positions, as one round of the `check13` loop does |
| Checksum.Sum10Snoc | isbn.go:130-132 | the same for the sum from position 0 |
| Checksum.Sum13Snoc | isbn.go:112-118 | the same for the sum from position 0 |
| Checksum.Check10Agrees | isbn.go:122-124 | a 10-entry value's last entry equals `check10` exactly when the full sum, the last entry with weight 1, is a multiple of 11 |
| Checksum.Check13Agrees | isbn.go:102-106 | a 13-entry value's last digit equals `check13` exactly when the full 1/3 sum is a multiple of 10 |
| Checksum.Mod11Unique | isbn.go:122-124 | at most one value in 0..10 completes a sum to a multiple of 11 |
| Checksum.Mod10Unique | isbn.go:102-104 | at most one digit completes a sum to a multiple of 10 |
| Checksum.Check13IgnoresLast | isbn.go:105-110 | `check13` of 13 entries does not depend on the 13th |
| Checksum.Check10IgnoresLast | isbn.go:126-128 | `check10` of 10 entries does not depend on the 10th |
| Checksum.Check10Vector | isbn_test.go:5-15 | `check10` of 0,3,0,6,4,0,6,1,5 is 2 |
| Checksum.Check13Vector | isbn_test.go:17-27 | `check13` of 9,7,8,0,3,0,6,4,0,6,1,5 is 7 |
| Isbn.TrimPrefix | isbn.go:45 | removes the prefix when the text starts with it, leaves the text as is otherwise |
| Isbn.Parse10 | isbn.go:74-82 | succeeds exactly when `check10` equals the last value, fails with the ISBN-10 checksum error otherwise; the body is 978 and all values |
| Isbn.ParseSbn | isbn.go:69-71 | validates 0 followed by the nine values as an ISBN-10; the body is 9780 and the values |
| Isbn.Parse13 | isbn.go:89-100 | a prefix other than 978/979 fails with the GS1 error; otherwise succeeds exactly when `check13` equals the last value, with the ISBN-13 checksum error on failure; the body is the input |
| Isbn.Parse | isbn.go:44-66 | "too long" exactly when the text after one `urn:isbn:` exceeds 17 bytes; "invalid length n" exactly when within the ceiling and the sanitised length n is not 9, 10 or 13; otherwise the error of the matching validator; a success is a 13-entry body starting 978 or 979 |
| Isbn.Gs1BodyValid | isbn.go:79-81 | 978 followed by ten values in 0..10 is a 13-value body with the 978 prefix |
| Isbn.Parse10Accepts | isbn.go:73-82 | `parse10` accepts exactly the ten-value sequences whose full mod-11 sum is 0 |
| Isbn.ParseSbnAccepts | isbn.go:68-71 | `parseSbn` accepts exactly the nine values that with a leading 0 form a valid ISBN-10 |
| Isbn.Parse13Accepts | isbn.go:84-100 | `parse13` accepts exactly the 978/979 sequences with a decimal last digit and a full 1/3 sum divisible by 10, so a trailing 'X' is never accepted |
| Isbn.ParseAccepts | isbn.go:44-66 | within the ceiling, `parse` succeeds exactly for a valid SBN, ISBN-10 or ISBN-13 digit sequence, and yields 9780+SBN, 978+ISBN-10 or the ISBN-13 itself |
| Isbn.ParseBody | isbn.go:52-62 | a successful parse yields the ISBN-13 digits, or 978 and the ISBN-10 digits, or 9780 and the SBN digits |
| Isbn.SanitizeUrnPrefix | isbn.go:15 | every character of `urn:isbn:` is dropped by the sanitiser |
| Isbn.UrnPrefixBytes | isbn.go:15 | `urn:isbn:` is nine ASCII characters, nine bytes |
| Isbn.ParseStripsUrn | isbn.go:45 | one leading `urn:isbn:` does not change the outcome |
| Isbn.DoubledUrnRejected | isbn.go:45-50 | only one prefix is stripped, so a doubled prefix always fails |
| Isbn.HyphenAddsNoPrefix | isbn.go:15 | inserting a hyphen cannot create the `urn:isbn:` prefix |
| Isbn.ParseIgnoresHyphen | isbn.go:47-52 | inserting a hyphen leaves the outcome unchanged while the text stays within the ceiling |
| Isbn.ParseIgnoresHyphenAfterUrn | isbn.go:45-52 | behind one `urn:isbn:` prefix, inserting a hyphen leaves the outcome unchanged while the text after the prefix stays within the ceiling |
| Isbn.FormatIsbn13 | isbn.go:136-140 | one character per body value, value v in 0..10 written as code v + 0x30, then the character coded `check13` of the body; for a parsed body the text starts "978" or "979" |
| Isbn.FormatIsbn10 | isbn.go:142-146 | one character per body value after the GS1 prefix, value v in 0..10 written as code v + 0x30, then the character coded `check13` of the whole body, a code in 0..9 |
| Isbn.Sbn | isbn.go:151-165 | passes parse errors on; fails with "group is not 0" exactly when the fourth body value is not 0; otherwise ten characters: the body from the fifth value, then the character coded `check13` of the body |
| Isbn.Isbn10 | isbn.go:169-180 | passes parse errors on; fails with "gs1 is not 978" exactly when the body does not start 978; otherwise eleven characters: the body from the fourth value, then the character coded `check13` of the body |
| Isbn.Isbn13 | isbn.go:184-190 | passes parse errors on and never fails otherwise; fourteen characters: the body, then the character coded `check13` of the body |
| Isbn.TenDigitBody | isbn.go:69-82 | an accepted SBN/ISBN-10 yields 978 and its ten digits (0 first for an SBN), whose `check13` is that of its first twelve |
| Isbn.PrefixedCheck13 | isbn.go:105-110 | `check13` of a 13-value body equals `check13` of the body without its last value |
| Isbn.Isbn10OfTenDigits | isbn.go:169-180 | for an SBN/ISBN-10 input `ISBN10` succeeds, echoes the ten digits and appends the ISBN-13 check of 978 and the first nine |
| Isbn.SbnOfNineDigits | isbn.go:151-165 | for an SBN input `SBN` succeeds, echoes the nine digits and appends the ISBN-13 check of 9780 and the first eight |
| Isbn.Isbn13OfThirteenDigits | isbn.go:184-190 | for an ISBN-13 input `ISBN13` echoes the thirteen digits and appends the input's own check digit |
| Isbn.Isbn13OfTenDigits | isbn.go:184-190 | for an SBN/ISBN-10 input `ISBN13` echoes 978 and the ten digits, the old check value included, and appends the ISBN-13 check of 978 and the first nine |
| Isbn.FormatIsbn13Sanitizes | isbn.go:136-140 | for decimal bodies the `isbn13` text is 14 bytes, has no URN prefix and sanitises back to the body |
| Isbn.FormatIsbn13Reparses | isbn.go:136-140 | parsing the `isbn13` text of a decimal body is `parse13` of that body |
| Isbn.Isbn13ThirteenReparses | isbn.go:184-190 | for an ISBN-13 input with decimal digits, parsing the `ISBN13` output gives back the same result |
| Isbn.TenBodyReparses | isbn.go:136-140 | the `isbn13` text of 978 and ten decimal digits parses exactly when the tenth digit is the ISBN-13 check of the other twelve |
| Isbn.Isbn13TenReparses | isbn.go:182-190 | for an SBN/ISBN-10 input, parsing the `ISBN13` output succeeds exactly when the old check digit equals the ISBN-13 check digit |
| Vectors.SanitizeSample | isbn.go:20-32 | "0-3x" sanitises to 0,3,10 |
| Vectors.SanitizeDropsLetterO | isbn.go:20-32 | "9O8", with the letter O, sanitises to 9,8 |
| Vectors.AcceptsIsbn10 | isbn.go:74-82 | 0-672-32356-7 is a valid ISBN-10 and its body is 978 and its ten digits |
| Vectors.AcceptsLeadingX | isbn.go:26-30 | X00000000X passes the ISBN-10 check: 'X' is accepted in first position |
| Vectors.RejectsBadSbn | isbn.go:69-71 | the SBN 067232357 fails with the ISBN-10 checksum error |
| Vectors.RejectsOtherGs1 | isbn.go:91-93 | 977-0-306-40615-7 fails on its GS1 prefix |
| Vectors.RejectsIsbn13TrailingX | isbn.go:94-96 | an ISBN-13 ending in 'X' fails with the ISBN-13 checksum error |
| Vectors.Isbn10KeepsIsbn13CheckDigit | isbn.go:142-146 | `isbn10` of 978-0-306-40615-7 writes 0306406157 and the character coded 7, although the ISBN-10 check is 2 |
| Vectors.Check13OfIsbn10Vector | isbn.go:107-120 | `check13` of 978067232356 is 0 |
| Vectors.TenDigitsDoNotReparse | isbn.go:136-140 | the `isbn13` text of 978 and the ten digits 0-672-32356-7 (the one sequence its precondition admits) does not parse again; the general fact is `Isbn.TenBodyReparses` |
| Vectors.Isbn13OfIsbn10DoesNotReparse | isbn.go:136-140 | the `isbn13` text for 0-672-32356-7 does not parse again |

## Left out

- Error messages: the `fmt.Errorf` texts become the constructors of `Isbn.Error`. Only the length that "invalid length" prints is kept.
- Go strings that are not valid UTF-8: a string is modelled as a sequence of Unicode scalar values.
- 32-bit arithmetic:
  - `parse` passes at most 13 values of at most 10 to the checks, so no sum it computes can overflow `int32`.
  - For arbitrary slices the model's sums are unbounded, and `int32` wrap-around is not modelled.
- Checksum.Check10: the parse functions use `CheckDigit10`, which this method is proved to compute. Functions cannot call methods, so the method itself is not called from the parser.
- Checksum.Check13: the same as `Check10`, with `CheckDigit13`.
- Isbn.FormatIsbn10: requires a body of at least three values. The source would panic on a shorter one, but `parse` only yields 13-value bodies.
- Doc comments of `ISBN10` and `ISBN13` speak of "ten runes and three hyphens" and "thirteen runes and four hyphens". The code writes no hyphens, and the model proves the lengths it actually produces.
- Rendering the value 10 as 'X', and recomputing the ISBN-10 check for `isbn10` and `SBN`: the code does neither.
- The constant `isbn10Prefix13` is declared but not used by the code.
- Concrete cases are stated on digit sequences. The sanitising step from text is covered by the general lemmas `Isbn.ParseAccepts` and `Isbn.ParseIgnoresHyphen`.
