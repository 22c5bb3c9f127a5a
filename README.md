# jigoshop_validation in Dafny

A model of the static validators of Jigoshop's `jigoshop_validation` class
(`classes/jigoshop_validation.class.php`) and proofs about them:

- `is_integer` / `is_natural`: sign handling in front of `ctype_digit`;
- `is_phone`: a character-class deletion followed by `trim`;
- `is_postcode`: the same filter with a different class, then the UK matcher for `"GB"`;
- `is_GB_postcode`: lower-case, remove spaces, try a table of six anchored
  patterns in order and stop at the first that matches;
- `format_postcode`: trim, upper-case, delete whitespace, trim, and for `"GB"`
  insert one space at offset 4 or 3.

Three modules, one file each:

- `php_string.dfy` (`PhpString`): the PHP built-ins the class relies on, over
  `string` as a sequence of single-byte characters in the C locale:
  `ctype_digit`, `strtolower`, `strtoupper`, `trim` with its default list
  `" \t\n\r\0\x0B"`, `preg_replace` of a one-character class by `''` (a
  deletion), and `substr_replace($s, ' ', $k, 0)` (an insertion that clamps
  `$k` to the length). `\s` is PCRE's: space, tab, line feed, vertical tab,
  form feed, carriage return.
- `gb_postcode.dfy` (`GBPostcode`): the five letter classes, the six
  patterns as predicates over the normalised string, the pure verdict
  `IsGBPostcode`, and the method `CheckGBPostcode`, which fills the pattern
  array and runs the source's loop with its early `break`, proved to return
  that verdict.
- `validation.dfy` (`Validation`): `is_integer`, `is_natural`, `is_phone`,
  `is_postcode` and `format_postcode`, with their properties, and the
  corrected postcode formatting described under Findings.

Because `trim` also strips NUL bytes, `is_phone` and `is_postcode` accept a
string whose only characters outside their class are NUL bytes; the exact
characterisations include this, and NUL-free corollaries state the plain form.

The class that `is_phone` deletes (line 73) contains `\+` as well as `#`, `_`,
`-`, `(`, `)`, digits and `\s`, so `+` is accepted in a phone number; a string
with no digit at all, such as "---", is accepted too.

## Model

| member | source | states |
|---|---|---|
| PhpString.LowerChar | classes/jigoshop_validation.class.php:121 | `strtolower` of one byte: an upper-case letter becomes the same letter in lower case (same position in the alphabet), any other byte is unchanged |
| PhpString.UpperChar | classes/jigoshop_validation.class.php:155 | `strtoupper` of one byte: a lower-case letter becomes the same letter in upper case (same position in the alphabet), any other byte is unchanged |
| PhpString.RemoveChars | classes/jigoshop_validation.class.php:73 | deleting a character class never lengthens the string |
| PhpString.RemoveCharsMembers | classes/jigoshop_validation.class.php:73 | after the deletion a character occurs iff it occurred before and is outside the class |
| PhpString.RemoveCharsAppend | classes/jigoshop_validation.class.php:73 | the deletion distributes over concatenation |
| PhpString.TrimLeft | classes/jigoshop_validation.class.php:73 | the result is a suffix, everything cut off is trimmable, and it does not start with a trimmable character |
| PhpString.TrimRight | classes/jigoshop_validation.class.php:73 | the result is a prefix, everything cut off is trimmable, and it does not end with a trimmable character |
| PhpString.TrimEmptyIff | classes/jigoshop_validation.class.php:73 | `trim(s)` is empty iff every character of `s` is one of `" \t\n\r\0\x0B"` |
| PhpString.TrimBounds | classes/jigoshop_validation.class.php:155 | `trim(s)` is a slice of `s` whose cut-off ends are all trimmable |
| PhpString.TrimEnds | classes/jigoshop_validation.class.php:156 | `trim`'s result neither starts nor ends with a trimmable character, and `trim` is idempotent |
| PhpString.TrimNulPadding | classes/jigoshop_validation.class.php:156 | NUL bytes added at either end of a string are removed by `trim` |
| PhpString.InsertAt | classes/jigoshop_validation.class.php:160-162 | the insertion adds one character at the requested offset, clamped to the length; the characters before and after it are those of the input, in order (past the end, the character is appended) |
| Validation.IntegerGrammar | classes/jigoshop_validation.class.php:26-31 | `is_integer(s)` iff `s` is at most one `-` or `+` followed by one or more digits |
| Validation.NaturalIsInteger | classes/jigoshop_validation.class.php:26-42 | every string `is_natural` accepts is also accepted by `is_integer` |
| Validation.IntegerExamples | classes/jigoshop_validation.class.php:26-42 | "123", "-123", "+1" are integers; "", "-", "12.3", "+-1" are not; "042" is natural, "-1" and "" are not |
| Validation.FilterThenTrimEmpty | classes/jigoshop_validation.class.php:73 | for a class holding all of `\s`, deletion then `trim` leaves "" iff every character is in the class or is NUL |
| Validation.PhoneIff | classes/jigoshop_validation.class.php:72-75 | `is_phone(s)` iff every character is `\s`, a digit, one of `# _ - + ( )`, or NUL |
| Validation.PhoneIffNoNul | classes/jigoshop_validation.class.php:72-75 | for NUL-free input, `is_phone(s)` iff every character is in the class |
| Validation.PhoneRejectsLetter | classes/jigoshop_validation.class.php:72-75 | a letter anywhere makes `is_phone` false |
| Validation.PhoneAcceptsNoDigits | classes/jigoshop_validation.class.php:72-75 | a string of hyphens only, such as "---", is accepted: digits are not required |
| Validation.PhoneRejectsWords | classes/jigoshop_validation.class.php:72-75 | "call me" is rejected |
| Validation.PostcodeOutsideGB | classes/jigoshop_validation.class.php:84-90 | for a country other than "GB", `is_postcode` iff every character is `\s`, `-`, an ASCII letter, a digit, or NUL |
| Validation.PostcodeInGB | classes/jigoshop_validation.class.php:84-90 | for "GB", `is_postcode` iff the character filter passes and `is_GB_postcode` holds |
| Validation.PostcodeRejectsForeignChar | classes/jigoshop_validation.class.php:85 | a character outside the class that is not NUL rejects the postcode for every country |
| Validation.PostcodeAcceptsDigits | classes/jigoshop_validation.class.php:84-90 | outside "GB" any digit string, such as a ZIP code, is accepted |
| Validation.PostcodeAcceptsUKCode | classes/jigoshop_validation.class.php:84-90 | "SW1A 1AA" is a valid "GB" postcode |
| Validation.PostcodeRejectsPunctuation | classes/jigoshop_validation.class.php:84-90 | "INVALID!" is rejected for "GB" and for "US" |
| Validation.PostcodeHyphenSeparator | classes/jigoshop_validation.class.php:84-90 | "SW1A-1AA" passes outside "GB" and fails for "GB" |
| Validation.CareOfNeverAccepted | classes/jigoshop_validation.class.php:84-90 | a c/o BFPO code (pattern at line 118) satisfies `is_GB_postcode`, yet `is_postcode(s, "GB")` is false because '/' fails the filter |
| Validation.SeparatorMustBeSpace | classes/jigoshop_validation.class.php:120-122 | a hyphen or a whitespace character other than ' ' passes the filter but makes `is_GB_postcode` and `is_postcode(s, "GB")` false |
| Validation.CompactIsCompacted | classes/jigoshop_validation.class.php:155-156 | after the first two statements the value holds no `\s`, no lower-case letter, and neither starts nor ends with a trimmable character |
| Validation.CompactOfCompacted | classes/jigoshop_validation.class.php:155-156 | those two statements leave such a value unchanged |
| Validation.CompactSkipsFirstTrim | classes/jigoshop_validation.class.php:155-156 | the first `trim` makes no difference to the outcome of the two statements |
| Validation.FormatShape | classes/jigoshop_validation.class.php:154-165 | outside "GB" the result holds no whitespace; for "GB" it is one longer than the compacted value and holds exactly one whitespace character, a space at offset 4 when that value has 7 characters, else at offset 3 (or at the end of a shorter value) |
| Validation.FormatLessSpaceIsCompact | classes/jigoshop_validation.class.php:154-165 | deleting whitespace from the result gives back the compacted value |
| Validation.FormatKeepsContent | classes/jigoshop_validation.class.php:154-165 | deleting whitespace from the result gives the upper-cased input with its whitespace deleted and trimmed |
| Validation.FormatKeepsContentNoNul | classes/jigoshop_validation.class.php:154-165 | for NUL-free input, exactly the upper-cased input with its whitespace deleted |
| Validation.FormatIsUpper | classes/jigoshop_validation.class.php:154-165 | the result holds no lower-case letter |
| Validation.CompactOfFormat | classes/jigoshop_validation.class.php:154-165 | the result compacts back to the compacted input |
| Validation.FormatIdempotent | classes/jigoshop_validation.class.php:154-165 | formatting a formatted postcode again changes nothing, for every input and country |
| Validation.FormatOfAlphanumeric | classes/jigoshop_validation.class.php:154-165 | a letters-and-digits value is upper-cased and, for "GB", cut at offset 4 (7 characters) or 3: "sw1a1aa" gives "SW1A 1AA", "gir0aa" gives "GIR 0AA", "90210" outside "GB" stays "90210" |
| Validation.CompactOfGBPostcode | classes/jigoshop_validation.class.php:154-156 | for a postcode `is_GB_postcode` accepts, the compacted value is the matcher's normalised string in upper case |
| Validation.FormatSeparatesGroupsOfSixOrSeven | classes/jigoshop_validation.class.php:158-162 | for accepted 6- and 7-character codes with an inward code, the space falls between the pattern's two groups |
| Validation.FormatAgreesWithGroupsIff | classes/jigoshop_validation.class.php:158-162 | on an accepted UK postcode the code as written agrees with the corrected formatting iff the fixed offset equals the length of the pattern's first group |
| Validation.FormatSplitsFiveCharInward | classes/jigoshop_validation.class.php:158-162 | for "M11AE" (M1 1AE) the result differs from the group-separated form |
| Validation.FormatSplitsBfpo | classes/jigoshop_validation.class.php:158-162 | for "BFPO1234" the result differs from the group-separated form |
| Validation.MatchesFiveChar | classes/jigoshop_validation.class.php:103 | "M11AE" matches the first pattern with a 2-character first group |
| Validation.MatchesBfpoNumber | classes/jigoshop_validation.class.php:115 | "BFPO1234" matches the BFPO pattern |
| Validation.FormatByGroupsSeparatesGroups | classes/jigoshop_validation.class.php:133 | the corrected formatting of every accepted code other than c/o BFPO is the upper-cased first group, a space, and the upper-cased second group |
| Validation.FormatByGroupsLessSpaceIsCompact | classes/jigoshop_validation.class.php:154-165 | deleting whitespace from the corrected result gives back the compacted value |
| Validation.FormatByGroupsIdempotent | classes/jigoshop_validation.class.php:154-165 | the corrected formatting is idempotent |
| GBPostcode.CheckGBPostcode | classes/jigoshop_validation.class.php:120-144 | the loop over the six-entry pattern array, with its early exit, returns exactly `IsGBPostcode(toCheck)` |
| GBPostcode.PatternIndex | classes/jigoshop_validation.class.php:103-118 | each pattern has its own slot in the table |
| GBPostcode.TableEntryMatches | classes/jigoshop_validation.class.php:128-141 | a match of any table entry makes the verdict true |
| GBPostcode.NoTableEntryMatches | classes/jigoshop_validation.class.php:128-144 | when no entry matches the verdict is false |
| GBPostcode.MatchesAnyIff | classes/jigoshop_validation.class.php:125-144 | the verdict is "some pattern matches", independent of the table order |
| GBPostcode.PatternsDisjoint | classes/jigoshop_validation.class.php:103-118 | no normalised string matches two patterns, so the `break` decides nothing |
| GBPostcode.KindOfMatch | classes/jigoshop_validation.class.php:103-118 | the pattern a string matches can be read off its characters (last character a digit or not, fifth character, second character, length), so it is unique |
| GBPostcode.PatternChars | classes/jigoshop_validation.class.php:96-118 | every pattern accepts only lower-case letters, digits and '/' |
| GBPostcode.GBPostcodeChars | classes/jigoshop_validation.class.php:120-144 | an accepted input holds only spaces, ASCII letters, digits and '/' |
| GBPostcode.GBIgnoresCase | classes/jigoshop_validation.class.php:121 | upper- or lower-casing the input does not change the verdict |
| GBPostcode.GBIgnoresSpace | classes/jigoshop_validation.class.php:122 | inserting a space anywhere does not change the verdict |
| GBPostcode.NormalizeDropsSpace | classes/jigoshop_validation.class.php:121-122 | normalisation removes an inserted space |
| GBPostcode.PatternShape | classes/jigoshop_validation.class.php:103-118 | a match is "gir0aa", starts with "bfpo", or has 5 to 7 characters ending in a digit and two Alpha5 letters |
| GBPostcode.GBShape | classes/jigoshop_validation.class.php:103-122 | the same shape for the normalised form of every accepted input |
| GBPostcode.InwardFormsThirdChar | classes/jigoshop_validation.class.php:103-112 | a match of the first four patterns has at least 5 characters and no 'p' third |
| GBPostcode.NormalizeAlphanumeric | classes/jigoshop_validation.class.php:121-122 | on letters and digits, normalisation is lower-casing |
| GBPostcode.AcceptsLowerCaseWithoutSpace | classes/jigoshop_validation.class.php:109 | "sw1a1aa" is accepted (AANA NAA) |
| GBPostcode.AcceptsUpperCaseWithSpace | classes/jigoshop_validation.class.php:109 | "SW1A 1AA" is accepted |
| GBPostcode.AcceptsGirobank | classes/jigoshop_validation.class.php:112 | "GIR 0AA" is accepted |
| GBPostcode.AcceptsBfpoNumber | classes/jigoshop_validation.class.php:115 | "BFPO 1234" is accepted |
| GBPostcode.RejectsLeadingQ | classes/jigoshop_validation.class.php:96 | "QW1A1AA" is rejected: 'q' is not in Alpha1 |
| GBPostcode.RejectsLongBfpoNumber | classes/jigoshop_validation.class.php:115-118 | "BFPO12345" is rejected: a BFPO number has at most four digits |

## Left out

- `is_decimal` (classes/jigoshop_validation.class.php:52-54) is a bare call to PHP's `is_numeric`, whose grammar differs between PHP versions (hex strings, surrounding whitespace); it is not modelled.
- `is_email` (classes/jigoshop_validation.class.php:62-64) delegates to WordPress's `is_email`, which is not part of this model.
- The rewrite of `$toCheck` inside the loop (classes/jigoshop_validation.class.php:133-136) assigns to a by-value parameter that is never read again; it has no observable effect and is not modelled.
- `ereg` stops reading at a NUL byte, so a NUL after a valid code would still match; the model matches the whole string.
- `ctype_digit`, `strtolower` and `strtoupper` are taken in the C locale, and a string is a sequence of single-byte characters: multibyte text and other locales are not modelled.
- Non-string arguments (PHP's `ctype_digit` reads an integer between -128 and 255 as a character code) and `null` are not modelled; every parameter is a string.
- The notice PHP raises when `is_integer` reads `$value[0]` of "" is not modelled; the character read there is treated as neither sign, which is what the code then does.
- `\s` is taken to include the vertical tab, as in PCRE 8.34 and later; with an older PCRE a vertical tab would not be deleted.
- The concrete `format_postcode` examples ("sw1a1aa" to "SW1A 1AA", "gir0aa" to "GIR 0AA", "90210" outside "GB") are stated through `Validation.FormatOfAlphanumeric` rather than as literal equalities.

## Findings

| source | as written | input that shows it | evidently intended | confidence | as-written member | corrected member |
|---|---|---|---|---|---|---|
| classes/jigoshop_validation.class.php:158-162 | for "GB" the space goes at offset 4 when the compacted value has 7 characters and at offset 3 otherwise | "M11AE" (outward code M1, inward code 1AE, matched by the pattern at line 103): the space lands at offset 3, inside the inward code | the space before the 3-character inward code ("M1 1AE"), which is where the matcher's own groups put it at line 133 | medium, not executed | Validation.FormatSplitsFiveCharInward | Validation.FormatByGroupsSeparatesGroups |
| classes/jigoshop_validation.class.php:158-162 | the same fixed offsets apply to BFPO numbers | "BFPO1234" (pattern at line 115): the space lands at offset 3, inside "BFPO" | the space after "BFPO" ("BFPO 1234"), the group boundary of the pattern at line 115 | low, not executed | Validation.FormatSplitsBfpo | Validation.FormatByGroupsSeparatesGroups |

`Validation.FormatAgreesWithGroupsIff` states the exact extent of both rows:
on an accepted code the two formattings agree iff the fixed offset equals the
length of the pattern's first group. That holds for every 6- or 7-character
code with an inward code (`Validation.FormatSeparatesGroupsOfSixOrSeven`) and
for 7-character BFPO numbers, and fails for 5-character codes and for BFPO
numbers of 1, 2 or 4 digits. The corrected member,
`Validation.FormatPostcodeByGroups`, keeps the content
(`Validation.FormatByGroupsLessSpaceIsCompact`) and is idempotent
(`Validation.FormatByGroupsIdempotent`). The model of `format_postcode`
itself, `Validation.FormatPostcode`, stays as written.
