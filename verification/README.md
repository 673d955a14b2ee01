# Brazilian-form validators in Dafny

A model of `functions.ts`, a small TypeScript library of input validators.
It covers:

- e-mail addresses (`validateEmail`);
- Brazilian taxpayer numbers: CPF for people (`validateCPF`) and CNPJ for companies (`validateCNPJ`);
- dates in three layouts (`formatDate`, `validateDate`);
- birth dates with a minimum age (`validateBirthDate`);
- full names (`validateFullName`);
- URLs and their hosts (`validateUrl`, `isValidHost`);
- Brazilian postal codes, the CEP (`validateCEP`).

Every validator is a pure Dafny predicate over `string` that follows the source branch by branch. Each one has a proved characterisation: a statement that does not mention the branches.

The modules follow the library's structure:

| module | what it holds |
|---|---|
| `Wrappers` | `Option` |
| `Text` | the JavaScript string operations the validators use: `indexOf`, `includes`, `startsWith`, `endsWith`, `split`, `trim`, and the `\D` strip. Each comes with round-trip lemmas (split then join, join then split) and character-level readings (an empty piece means a separator at an end or two in a row). |
| `JsNumber` | `Number(string)` as ECMAScript defines it: white space trimmed, the empty string is 0, `0x`/`0o`/`0b` prefixes, `Infinity`, decimal literals with a fraction and an exponent, NaN otherwise. It also holds JavaScript truthiness and comparisons, where any comparison with NaN is false. |
| `TaxId` | CPF and CNPJ as the source computes them (descending factors, `(sum * 10) % 11` with 10 mapped to 0; weight tables, `sum % 11` with remainders below 2 mapped to 0). `IsCpf` and `IsCnpj` give an independent reading with one mod-11 completion rule. |
| `PostalCode` | the CEP check |
| `Calendar` | the proleptic Gregorian calendar. It holds ECMAScript's day numbers and the range of a `Date` (10^8 days on either side of 1970-01-01), which the read-back check of `formatDate` relies on. It also holds the whole-years age of `validateBirthDate`. |
| `Dates` | `formatDate`, `validateDate` and `validateBirthDate`. `new Date(year, month - 1, day)` and its read-back check become `Acceptable`: an integer date naming an existing day, a year outside 0..99 (which the constructor maps to 1900 + year), and a date inside the range of `Date`. |
| `Names` | `validateFullName`, with `split(/\s+/)` over trimmed text |
| `Email` | `validateEmail`, and a character-level reading `IsEmailAddress` |
| `Url` | `validateUrl` and `isValidHost`, and a character-level reading of host names |
| `Vectors`, `DateVectors`, `TextVectors` | the inputs of `functions.test.ts`, with the verdicts proved about the model |

`today`, which the source takes from `new Date()`, is a parameter of `ValidateBirthDate`. Every other operation is total and has no inputs beyond its arguments.

## Model

| member | source | states |
|---|---|---|
| Text.IndexOf | functions.ts:245 | `indexOf` finds the first occurrence: the pattern occurs at the index returned, at no earlier index, and None means it occurs nowhere |
| Text.SplitJoin | functions.ts:10 | `split` loses nothing: joining the pieces with the separator gives the text back |
| Text.JoinSplit | functions.ts:42 | splitting a join of pieces that do not contain the one-character separator gives exactly those pieces |
| Text.SplitCount | functions.ts:12 | a split on one character gives one more piece than the character occurs; this is what the `length` checks count |
| Text.SplitEmptyPiece | functions.ts:44-48 | a split has an empty piece exactly when the separator starts or ends the text or occurs twice in a row |
| Text.ContainsPair | functions.ts:26 | `includes` of a two-character pattern holds exactly when the two characters are adjacent somewhere |
| Text.Trim | functions.ts:216 | `trim` returns the middle of the text: what it drops in front and behind is white space, and the result neither starts nor ends with white space |
| Text.TrimLeadingSpace | functions.ts:216 | a leading white-space character does not change what `trim` returns |
| Text.Digits | functions.ts:72 | bounds only: stripping `\D` leaves nothing but ASCII digits and never lengthens the text |
| Text.DigitsMembers | functions.ts:72 | a character survives the strip exactly when it is an ASCII digit of the text |
| Text.DigitsAppend | functions.ts:72 | stripping non-digits works piecewise: the digits of a concatenation are the concatenated digits |
| Text.DigitsOfDigits | functions.ts:72 | stripping non-digits leaves a string of digits unchanged |
| JsNumber.NumeralNumber | functions.ts:141 | `Number` of a string of decimal digits is the value of the numeral, leading zeros included |
| JsNumber.DecimalRoundTrip | functions.ts:268 | `Number` gives back every natural number written in decimal |
| JsNumber.NegativeDecimalRoundTrip | functions.ts:307 | `Number` gives back the negation of a natural number written with a minus sign |
| JsNumber.LeadingSpaceIgnored | functions.ts:268 | white space before a numeral does not change its number |
| TaxId.ValidateCpfIsCpf | functions.ts:67-98 | `validateCPF` holds exactly when the extracted digits are eleven, not all the same, and both check digits complete their weighted sums by the mod-11 rule |
| TaxId.CpfCheckDigitCompletes | functions.ts:82-92 | the CPF check digit lies in 0..9 and equals a digit exactly when that digit completes the weighted sum by the mod-11 rule |
| TaxId.CpfCheckDigitsDetermined | functions.ts:94-97 | the first nine digits of a valid CPF determine the last two |
| TaxId.ValidateCnpjIsCnpj | functions.ts:100-132 | `validateCNPJ` holds exactly when the extracted digits are fourteen, not all the same, and both check digits complete their weighted sums by the mod-11 rule |
| TaxId.CnpjCheckDigitCompletes | functions.ts:115-125 | the CNPJ check digit lies in 0..9 and equals a digit exactly when that digit completes the weighted sum by the mod-11 rule |
| TaxId.CnpjCheckDigitsDetermined | functions.ts:127-131 | the first twelve digits of a valid CNPJ determine the last two |
| TaxId.RepeatedDigitsRejected | functions.ts:78-80 | text whose digits are all one repeated digit is refused by both validators, whatever the checksum says |
| TaxId.NonDigitIgnored | functions.ts:72 | inserting a non-digit anywhere changes neither the CPF verdict nor the CNPJ verdict |
| PostalCode.ValidateCepCharacterization | functions.ts:346-381 | `validateCEP` holds exactly when the text has eight ASCII digits and two of them differ |
| PostalCode.NonDigitIgnored | functions.ts:353-361 | inserting a non-digit anywhere leaves the CEP verdict unchanged |
| PostalCode.CepVectors | functions.test.ts:141-157 | 12345-678 and 12345678 are accepted; 1234-567 and the empty string are refused |
| Calendar.YearLength | functions.ts:147 | the day number of January 1st advances by the length of the year, 366 in leap years and 365 otherwise |
| Calendar.DayNumberMonotone | functions.ts:147 | day numbers follow the calendar order |
| Calendar.TimeValueInRangeIffWithin | functions.ts:170-172 | a calendar date has a time value exactly when it lies between -271821-04-20 and 275760-09-13 |
| Calendar.AgeReached | functions.ts:201-208 | the whole-years age reaches `n` exactly when the `n`-th anniversary, as a year, month and day, is not after today |
| Dates.DateOfFields | functions.ts:143-172 | a date that passes the field checks and the read-back is acceptable and reproduces the fields read |
| Dates.FormatDate | functions.ts:134-175 | a date `formatDate` returns is acceptable and has exactly the fields read from the text |
| Dates.FormatDateComplete | functions.ts:134-175 | whenever the fields read are those of an acceptable date, `formatDate` returns that date |
| Dates.ValidateDateIff | functions.ts:177-183 | `validateDate` holds exactly when the fields read are those of some acceptable date |
| Dates.LayoutRoundTrip | functions.ts:140-164 | three numerals written in a layout with its separator are read as their values, and accepted exactly when those values form an acceptable date |
| Dates.RenderRoundTrip | functions.ts:134-175 | every acceptable date with a non-negative year, written without leading zeros in any layout, is read back as itself |
| Dates.NoSeparatorRejected | functions.ts:157-161 | text without the layout's separator is one piece, so month and day are missing and it is refused |
| Dates.SeparatorMismatch | functions.ts:140-164 | a date written with slashes is refused by the hyphen layouts, and the other way round |
| Dates.LayoutsExclusive | functions.ts:140-164 | a date accepted in its own layout is refused in every other layout: there is no fallback |
| Dates.BirthDateIff | functions.ts:185-209 | `validateBirthDate` holds exactly when the text is a valid date whose `minAge`-th anniversary is not after today |
| Dates.MinAgeMonotone | functions.ts:208 | a birth date accepted for some minimum age is accepted for every lower one |
| Dates.DefaultMinAge | functions.ts:185 | with the default minimum age of 0, a valid birth date passes exactly when it is not after today |
| Names.ValidateFullNameIff | functions.ts:211-219 | `validateFullName` holds exactly when white space lies between two non-space characters and no non-space character stands alone |
| Names.PiecesLongIff | functions.ts:216-218 | on trimmed text, every piece between white-space runs has two or more characters exactly when no character stands alone |
| Names.SplitSpaceRunsCount | functions.ts:216-218 | splitting on white-space runs gives two or more pieces exactly when the text holds white space |
| Names.LeadingSpaceIgnored | functions.ts:216 | a white-space character in front never changes the verdict |
| Names.TrailingSpaceIgnored | functions.ts:216 | a white-space character at the end never changes the verdict |
| Email.ValidateEmailIff | functions.ts:1-65 | `validateEmail` holds exactly when the text is printable ASCII with one `@`. Before it: no dot at either end and no two dots in a row. After it: a dot, none at either end, none twice in a row, and neither of the last two characters a dot. |
| Email.LocalPartIff | functions.ts:18-28 | the local-part checks pass exactly when the part is not empty, has no dot at either end and no two dots in a row |
| Email.DomainIff | functions.ts:30-54 | the domain checks pass exactly when the domain contains a dot, has none at either end or twice in a row, and its last label has two or more characters |
| Email.SplitAtSign | functions.ts:10-16 | with a single `@`, the split gives exactly the text before it and the text after it |
| Email.UnprintableRejected | functions.ts:56-62 | a character outside codes 33..126 anywhere refuses the address |
| Url.IsValidHostIff | functions.ts:290-344 | `isValidHost` accepts exactly `localhost`, four dot-separated parts each passing the octet check, or another dotted host name with one or more dots |
| Url.HostNameIff | functions.ts:316-341 | all labels pass exactly when the host is letters, digits, hyphens and dots, with no dot or hyphen at either end, no two dots in a row and no hyphen next to a dot |
| Url.LabelPassesIff | functions.ts:322-340 | a label passes exactly when it is not empty, has no hyphen at either end and holds only letters, digits and hyphens |
| Url.DottedQuadIff | functions.ts:299-314 | four numerals joined by dots form a valid host exactly when each is at most 255 |
| Url.OctetNumeral | functions.ts:307-311 | a numeral passes the octet check exactly when its value is at most 255 |
| Url.PortNumeral | functions.ts:268-272 | a numeral passes the port check exactly when its value is between 1 and 65535 |
| Url.NaNPortPasses | functions.ts:268-272 | a port that reads as NaN is let through, since both range comparisons are false |
| Url.HostPortBeforePath | functions.ts:243-249 | the host and port end at the first `/` |
| Url.HostWithPort | functions.ts:255-277 | with a `:`, the host and port pass exactly when the port passes and the host before it is valid |
| Url.HostWithoutPort | functions.ts:255-277 | without a `:`, the host and port pass exactly when the host is valid |
| Url.SchemeSplitIff | functions.ts:231-237 | the split on `://` gives two pieces exactly when `://` occurs once, and the pieces are the text before and after it |
| Url.ValidateUrlIff | functions.ts:221-288 | `validateUrl` holds exactly when the URL is printable ASCII, has a single `://` with an accepted scheme before it, and the host and port after it pass |
| Url.AcceptedScheme | functions.ts:230-241 | an accepted URL starts with `http://`, `https://` or `ftp://` |
| Url.ComposedUrlIff | functions.ts:221-288 | scheme, host-and-port and a path beginning with `/` compose a valid URL exactly when the URL is printable and the host and port pass |
| Vectors.CpfMaskGroups | functions.ts:72 | a CPF written with its mask is read as its four groups of digits, in order |
| Vectors.CnpjMaskGroups | functions.ts:105 | a CNPJ written with its mask is read as its five groups of digits, in order |
| Vectors.CpfVectors | functions.test.ts:21-41 | 123.456.789-09 is accepted. Refused: 121.121.121-12 (wrong check digits), 111.111.111-11 (one repeated digit), 123.456.789-0 and the empty string (too few digits). |
| Vectors.CnpjVectors | functions.test.ts:43-63 | 12.345.678/0001-95 is accepted. Refused: 12.345.678/0001-96 (wrong last digit), 11.111.111/1111-11 (one repeated digit), 12.345.678/0001-9 and the empty string (too few digits). |
| DateVectors.WrittenRoundTrip | functions.ts:140-164 | a date written with a four-digit year and a two-digit month and day is read as the date its digits spell, and accepted exactly when that date is acceptable |
| DateVectors.LeapDayVectors | functions.test.ts:107-127 | 2020-02-29, 29/02/2020 and 02-29-2020 are accepted, each in its own layout |
| DateVectors.FebruaryThirtiethVectors | functions.test.ts:111-131 | the 30th of February is refused in each layout |
| DateVectors.MalformedDateVectors | functions.test.ts:131-139 | 2020/02/29 in the default layout and the empty string are refused |
| DateVectors.WrittenBirthDate | functions.ts:185-209 | a written, acceptable birth date passes exactly when its `minAge`-th anniversary is not after today |
| DateVectors.OldEnoughVectors | functions.test.ts:65-89 | on any day from 2024-01-01 to 2027-12-31, five birth dates are accepted with the minimum ages and layouts the tests give: 2000-01-01, 2020-01-01, 01/01/2000, 01-01-2000 and 2014-01-01 |
| DateVectors.TooYoungVectors | functions.test.ts:77-93 | on those days someone born on 2010-01-01 is not yet eighteen, in either layout |
| DateVectors.UnreadableBirthDateVectors | functions.test.ts:93-105 | 2020-02-30, 01/01/2000 in the default layout, and the empty string are refused as birth dates on every day |
| TextVectors.NameBefore | functions.ts:216-218 | a name of two or more characters, a space, and a full-name tail form a full name |
| TextVectors.FullNameVectors | functions.test.ts:159-179 | John Doe and John Michael Doe are full names; John, J D and the empty string are not |
| TextVectors.EmailVectors | functions.test.ts:3-19 | test@example.com and invalid@abc1111.com are accepted; invalid-email and the empty string are refused |
| TextVectors.UrlVectors | functions.test.ts:181-197 | https://www.example.com is accepted. Refused: htp:/invalid-url, a URL with a space in the host, and the empty string. |

## Left out

- Runtime type checks: `typeof … !== "string"` and the `String(cep)` and null guards have no counterpart, because every input is a `string`.
- Floating point: `Number` returns an exact rational where JavaScript rounds to a double. Numerals long enough to lose precision can be judged differently, and so can numerals whose exponent lies outside the range of a double: underflow to ±0 and overflow to ±Infinity are not modelled.
- Url.OctetPasses: a negative numeral too small for a double, such as `-1e-400`, is -0 in JavaScript and passes `num < 0 || num > 255` (functions.ts:307-309), so `http://-1e-400.1.1.1` is accepted by the source; the model keeps the exact negative value and refuses it. Overflow changes no verdict here or in the port and date checks, because the exact value is already beyond the bound Infinity is compared with; positive underflow changes none either.
- Time zones: `new Date(year, month - 1, day)` uses local time, and the model uses UTC. First, the two dates at the very ends of the `Date` range may differ by a day. Second, a local calendar day that the zone skips entirely is refused by the source and accepted by the model, because its read-back (functions.ts:166-168) finds another day. Examples are 2011-12-30 in Pacific/Apia, 1994-12-31 in Pacific/Kiritimati and 1844-12-31 in Asia/Manila. A daylight-saving jump at midnight keeps the calendar day and changes no verdict.
- Dates.ValidateDateIff: the characterisation holds for UTC. For the skipped local days of the line above, it accepts what the source refuses, and so do `Dates.FormatDateComplete` and the birth-date lemmas built on it.
- The clock: `new Date()` in `validateBirthDate` is the parameter `today`. `DateVectors.OldEnoughVectors` and `DateVectors.TooYoungVectors` hold for any `today` from 2024-01-01 up to 2027-12-31. Those tests change verdict when `today` leaves that window.
- The NaN check on the built date (functions.ts:170-172) is part of `Acceptable`. A date outside the range of `Date` already fails the read-back check before it.
- The `if (!date)` branch of `validateBirthDate` (functions.ts:194-196) is kept as a `None` case. It cannot be taken once `validateDate` has passed.
- A non-integer `minAge` is not modelled: `minAge` is an `int`.
- Unicode: a Dafny `char` is a Unicode scalar value, so UTF-16 surrogate pairs are not modelled. In the e-mail and URL checks the verdicts agree, because a surrogate and the scalar it encodes are both above 126.
- Names.ValidateFullName: a name holding a character outside the Basic Multilingual Plane is one unit shorter than its JavaScript `.length` (functions.ts:218), so a two-unit name such as 😀 is refused where the source accepts it.
- TaxId.CpfCheckDigit: requires the starting factor to be at least the length of the base, so the factors never go negative. The source only calls it that way (10 for nine digits, 11 for ten).
- Text.Split: requires a non-empty separator. Every separator the source splits on is non-empty.
- The test at functions.test.ts:9 says "reject" but expects `true`. The model follows the expectation and accepts invalid@abc1111.com.
- The Jest test runner itself: the test inputs are restated as lemmas about the model.
