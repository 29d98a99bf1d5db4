# mati-core/utils in Dafny

This project models four parts of the PHP utility library `mati-core/utils`:

- The Czech helpers of `Czech`:
  - `inflection` chooses a noun form for a count.
  - `formatPhoneNumber` lays out a phone number with a country prefix and groups of three digits.
  - `isIdentificationNumber` validates a birth number ("rodné číslo").
  - `isCompanyId` validates a company number ("IČ").
  - `getBornDateFromIdentificationNumber` reads a birth date and a gender from a birth number.
- The duration texts of `Time`:
  - `convertDurationToHms` prints `HH:MM:SS`.
  - `convertDurationToHmsHuman` does the same but drops zero hours.
  - `convertDurationToHmsLong` writes an inflected Czech text such as "7 minut 14 sekund".
- `Safe::hexEmailEncode`. It percent-encodes the word characters of an e-mail address, replaces the at sign, and keeps a static cache.
- The PHP built-ins those functions rely on, in module `Php`: `number_format`, `sprintf('%02d')`, the `(int)` cast of short digit strings, `trim`/`ltrim`/`rtrim`, `substr`, `str_replace`, `implode(' ', str_split(s, 3))` and `checkdate`.

Each module has one file:

| file | module |
|---|---|
| `wrappers.dfy` | `Option` and `Result` |
| `php.dfy` | `Php` |
| `czech.dfy` | `Czech` |
| `time.dfy` | `Time` |
| `safe.dfy` | `Safe` |

How the PHP values are represented:

- PHP strings are `string`, except in `Safe`. There they are sequences of bytes, because `hexEmailEncode` works byte by byte.
- A PHP array of noun forms is a `map<int, string>`. A `null` entry is left out of the map, because `isset` treats it as missing.
- The label arguments of `convertDurationToHmsLong` are `Option<string>`. This way the `FunctionException` that `inflection` throws on a missing form, and the fallback text that follows it, are part of the model.
- The `\DateTime` that `getBornDateFromIdentificationNumber` constructs comes from a function parameter `makeDate(day, month, year)`. It returns `None` where the constructor would throw.

The code that works step by step is written imperatively, as methods proved against specification functions:

- The two loops are `for` loops in the source: the weighted sum of `isCompanyId` (src/Czech.php:197-199) is the `for` loop of `Czech.IsCompanyId`, and the byte loop of `hexEmailEncode` (src/Safe.php:73-79) is the `while` loop of `Safe.Encode`.
- Two straight-line functions that build their result by reassigning a variable are straight-line methods: `Czech.FormatPhoneNumber` (src/Czech.php:67-89) and `Time.ConvertDurationToHmsLong` (src/Time.php:208-240), with its steps `Time.AppendPart` and `Time.Finish`.
- The only state is the static cache of `hexEmailEncode`. It is the `cache` field of the class `Safe.HexEmailEncoder`.

## Model

| member | source | states |
|---|---|---|
| Php.Digits | src/Czech.php:30 | the decimal text of a natural number: non-empty, digits only, a leading `0` only for zero, one character exactly below ten |
| Php.DigitsValueOfDigits | src/Czech.php:30 | reading the decimal text of n back gives n |
| Php.Pad2 | src/Time.php:162 | `%02d`: at least two digits, exactly two below 100, no leading zero beyond width two, and the digits read back as n |
| Php.Pad2OfTwoDigits | src/Time.php:162 | below 100, `%02d` is the tens digit followed by the units digit |
| Php.IntCastBounds | src/Czech.php:236-247 | the `(int)` cast of at most two characters lies in -9..99, so the year read at lines 236-240 is always positive |
| Php.IntCastOfDigits | src/Czech.php:236-247 | the `(int)` cast of a string of at most two digits is the value of those digits |
| Php.LTrim | src/Czech.php:78 | `ltrim` leaves a suffix of its input, removes only characters of the set, and the result does not start with one |
| Php.RTrim | src/Time.php:237 | `rtrim` leaves a prefix of its input, removes only characters of the set, and the result does not end with one |
| Php.TrimUntouched | src/Czech.php:75 | `trim` changes nothing when the first and the last character are kept |
| Php.Substr | src/Czech.php:236-247 | `substr` gives the slice within bounds, the rest of the string when the slice runs past the end, and the empty string when it starts past the end |
| Php.RemoveAppend | src/Czech.php:234 | deleting a character with `str_replace(c, '')` distributes over concatenation |
| Php.ReplaceAllAbsent | src/Safe.php:82 | `str_replace` of a character that does not occur changes nothing |
| Php.ReplaceAllAppend | src/Safe.php:82 | `str_replace` of one character distributes over concatenation |
| Php.ReplaceAllIdentity | src/Safe.php:82 | replacing a character by itself changes nothing |
| Php.GroupInThrees | src/Czech.php:83 | `implode(' ', str_split(s, 3))` adds one separator per full group after the first: the length is \|s\| + (\|s\| - 1) / 3, and "" stays "" |
| Php.GroupInThreesLayout | src/Czech.php:83 | `implode(' ', str_split(s, 3))` on a string without spaces: removing the spaces gives s back, the spaces are exactly at every fourth position, one per group boundary, and the text never ends in a space |
| Php.GroupThousandsLayout | src/Czech.php:30 | the thousands separator of `number_format` keeps every digit and sits every three digits counted from the right |
| Php.NumberFormat | src/Czech.php:30 | `number_format(n, 0, '.', ' ')` starts with a minus sign exactly for negative n, and with a digit otherwise; its reading back is NumberFormatRoundTrip |
| Php.NumberFormatBelow1000 | src/Czech.php:30 | below 1000 `number_format(n, 0, '.', ' ')` is the plain decimal text |
| Php.NumberFormatRoundTrip | src/Czech.php:30 | reading `number_format` back gives the number, for every integer, negative ones included |
| Php.DaysInMonth | src/Czech.php:174 | a month has 28 to 31 days, with 29 exactly for February of a leap year |
| Php.CheckDate | src/Czech.php:174 | reference definition of `checkdate`: month 1..12, year 1..32767, day from 1 to the length of the month (no contract of its own) |
| Php.IntCast | src/Czech.php:236-247 | reference definition of the `(int)` cast of a short string: leading whitespace, an optional sign, the leading digits, 0 without digits; its contract on digits is IntCastOfDigits |
| Php.Trim | src/Time.php:237 | reference definition of `trim`: `rtrim` of `ltrim`, whose contracts are those of Php.LTrim and Php.RTrim |
| Php.Remove | src/Czech.php:234 | `str_replace(c, '', s)` removes every c and nothing else; see RemoveAppend |
| Php.ReplaceAll | src/Safe.php:82 | `str_replace` of one character: a one-character string becomes the replacement when it is that character and stays as it is otherwise, and when the replacement does not contain that character, none is left; with ReplaceAllAppend this fixes every occurrence |
| Php.ReplaceAllSingle | src/Czech.php:85-87 | one occurrence of the searched character becomes exactly the replacement, so with ReplaceAllAppend and ReplaceAllAbsent each occurrence becomes the replacement and nothing else changes |
| Czech.FormList | src/Czech.php:33 | entry k of the forms array is present exactly when the k-th argument is, with that value |
| Czech.Inflection | src/Czech.php:28-52 | fails with `FunctionException` exactly when entry 0, 1 or 2 is missing; otherwise gives the formatted count, a space and the form chosen for the count |
| Czech.FormIndex | src/Czech.php:41-49 | the chosen form is always one of the three |
| Czech.InflectionCountReadsBack | src/Czech.php:30-49 | the text ends in a space and the chosen form, and the part before it reads back as the count |
| Czech.KeepPhoneChars | src/Czech.php:68 | the cleanup keeps only digits and plus signs and never lengthens the number; a single character is kept exactly when it is a digit or a plus sign |
| Czech.KeepPhoneCharsAppend | src/Czech.php:68 | the cleanup works character by character: it distributes over concatenation, so with KeepPhoneChars every digit and plus sign survives in order |
| Czech.PhoneText | src/Czech.php:65-90 | reference definition of the text `formatPhoneNumber` returns; its properties are PhoneDigitsKept and the three examples (no contract of its own) |
| Czech.FormatPhoneNumber | src/Czech.php:65-90 | the prefix and trimming chosen by the first matching rule (nine digits, leading plus, leading `00`, none) then groups of three; with the flag set to true, the same text with each space replaced by `&nbsp;` (each occurrence becomes the replacement, by ReplaceAllSingle and ReplaceAllAppend), so no plain space is left; with the flag false or null, the same text as without it |
| Czech.PhoneDigitsKept | src/Czech.php:68-83 | without the flag, removing the spaces from the result leaves exactly the prefix sign and the cleaned up number, trimmed as each rule says |
| Czech.KeepClean | src/Czech.php:68 | a string of digits and plus signs passes the cleanup unchanged |
| Czech.PlusPrefixed | src/Czech.php:73-75 | a number behind one plus sign is printed with that plus and its own groups |
| Czech.ZeroPrefixed | src/Czech.php:76-78 | a number behind `00` that does not start with zero and is not seven characters long (then the nine-digit rule applies) is printed with a plus and its own groups |
| Czech.PhoneExampleInternational | src/Czech.php:57 | "+420777123456" becomes "+420 777 123 456" |
| Czech.PhoneExampleZeros | src/Czech.php:58 | "00420777123456" becomes "+420 777 123 456" |
| Czech.PhoneExampleNational | src/Czech.php:59 | "777123456" becomes "+420 777 123 456" |
| Czech.MatchBirthNumber | src/Czech.php:140 | reference definition of the match of `#^\s*(\d\d)(\d\d)(\d\d)[ /]*(\d\d\d)(\d?)\s*$#`, decided in both directions by MatchSound and MatchComplete (no contract of its own) |
| Czech.SpanSpace | src/Czech.php:140 | the leading run matched by `\s*` lies within the string and holds only whitespace |
| Czech.MatchSound | src/Czech.php:140 | every match of the birth-number pattern has the pattern's shape, and its pieces concatenate back to the input |
| Czech.MatchComplete | src/Czech.php:140 | every string of the pattern's shape is matched, and the pieces come back unchanged |
| Czech.CheckDigitOf | src/Czech.php:152-156 | the expected check digit is the remainder modulo 11, with 10 read as 0 |
| Czech.FullYear | src/Czech.php:161 | two year digits map into 1954..2053 and keep their last two digits |
| Czech.FullYearOfTwoDigits | src/Czech.php:161 | every year of 1954..2053 is recovered from its two digits: the century choice is a bijection |
| Czech.PrefixValueOfFields | src/Czech.php:152 | the nine-digit number that is reduced modulo 11 is year·10⁷ + month·10⁵ + day·10³ + extension |
| Czech.NormalizeMonth | src/Czech.php:164-172 | reference definition of the month normalisation as written: after 2003 minus 70 above 70, else minus 20 above 20; up to 2003 minus 50 above 50 (no contract of its own) |
| Czech.ValidMatch | src/Czech.php:144-174 | reference definition of the verdict on a match: year digits below 54 without a check digit, else the check digit, then `checkdate` on the normalised month; split into NineDigitRule, CheckDigitRule and CalendarRule |
| Czech.IsIdentificationNumber | src/Czech.php:137-175 | as written: only strings that match the pattern are accepted |
| Czech.NineDigitRule | src/Czech.php:147-149 | a number without a check digit is accepted exactly when its year digits are below 54, with no date check |
| Czech.CheckDigitRule | src/Czech.php:152-158 | a wrong check digit is refused, both as written and as intended |
| Czech.OneCheckDigit | src/Czech.php:152-158 | exactly one digit is the right check digit for a given prefix |
| Czech.CalendarRule | src/Czech.php:161-174 | with the right check digit, acceptance is `checkdate` on the normalised month, the day and the full year |
| Czech.SeparatorsIrrelevant | src/Czech.php:140 | surrounding whitespace and the spaces or slashes after the date do not change the verdict |
| Czech.AsWrittenAgreesElsewhere | src/Czech.php:164-172 | the written and the intended month rules agree everywhere except for years after 2003 with month 51..70 |
| Czech.MonthsAbove50Refused | src/Czech.php:164-172 | as written, every birth number after 2003 with a month of 51..70 is refused |
| Czech.AsWrittenRefusesWomenAfter2003 | src/Czech.php:164-172 | as written, every well-formed number issued to a woman born 2004..2053 (month + 50) is refused |
| Czech.IntendedAcceptsIssued | src/Czech.php:137-175 | under the intended rule, a number issued for a date is accepted exactly when that date exists, for every offset in use |
| Czech.AsWrittenCounterexample | src/Czech.php:164-172 | "1053050009", issued to a woman born 5 March 2010, is refused as written and accepted as intended |
| Czech.IssueBirthNumber | src/Czech.php:140-158 | the issued birth number (date digits, month offset, extension, check digit) has ten digits |
| Czech.IssuedFields | src/Czech.php:144-161 | the issued number carries the right check digit and reads back the year, the month plus its offset, and the day |
| Czech.IssuedExample | src/Czech.php:140-158 | the number for 5 March 2010, woman, extension 0 is "1053050009" |
| Czech.GetBornDateFromIdentificationNumber | src/Czech.php:228-260 | the empty string gives `null`; otherwise, with slashes removed, the year 20yy for exactly ten characters with yy < 54 and 19yy otherwise, the month pair (less 50 above 12) and the day pair, there is a result exactly when day and month are positive and `\DateTime` accepts the date, the result is that date, and it is female exactly when the month pair reads above 12 |
| Czech.BornDateOfFieldsGuard | src/Czech.php:242-256 | the guard of line 250: a result exactly when day and month are positive and the date is accepted, with the gender female exactly for a raw month above 12 |
| Czech.BornDateIgnoresSlash | src/Czech.php:234 | a slash anywhere in the input does not change the born date or the gender |
| Czech.BornDateRoundTrip | src/Czech.php:228-260 | the birth-number issuing scheme read back: from a ten-digit number issued for a date in 1954..2053 to a man (offset 0) or a woman (offset 50), the date comes back with the right gender, or `null` where `\DateTime` refuses the date |
| Czech.PlusTwentyGivesNull | src/Czech.php:242-250 | as written, every number of a man born 2004..2053 with the +20 month offset gives `null`, whatever `\DateTime` would do |
| Czech.PlusTwentyAccepted | src/Czech.php:152-174 | as written, `isIdentificationNumber` accepts such a +20 number exactly when its date exists |
| Czech.PlusTwentyExample | src/Czech.php:137-260 | "1023050006", issued to a man born 5 March 2010, is a valid birth number that gives no born date |
| Czech.BornDateRoundTripIntended | src/Czech.php:228-260 | with the month offsets that `isIdentificationNumber` knows, every issued number reads back to its date, female exactly for offsets 50 and 70 |
| Czech.IntendedAgreesOnZeroAndFifty | src/Czech.php:242-253 | the corrected reading gives the same result as the written one on every number with offset 0 or 50 |
| Czech.BornDateOfTenDigits | src/Czech.php:236-247 | on ten digits the year, the month and the day are the values of the three digit pairs, with the year in 1954..2053 |
| Czech.IssueNineDigitNumber | src/Czech.php:140-149 | the number issued before 1954 without a check digit has nine digits |
| Czech.NineDigitAccepted | src/Czech.php:144-149 | `isIdentificationNumber` accepts every nine-digit number issued for 1900..1953, without a date check |
| Czech.BornDateRoundTripNineDigits | src/Czech.php:228-260 | a nine-digit number issued for a date in 1900..1953 reads back to that date in the 1900s, with the gender of its offset, or `null` where `\DateTime` refuses the date |
| Czech.BornDateOfNineDigits | src/Czech.php:236-247 | on nine digits the year is 19yy and the month and day are the values of their digit pairs |
| Czech.NineteenHundreds | src/Czech.php:239 | a two-digit year outside the ten-digit case is a year of the 1900s with the same last two digits |
| Czech.ReadNineDigitYear | src/Czech.php:236-240 | the `substr`/`(int)` year rule on nine digits gives 19yy |
| Czech.ReadYear | src/Czech.php:236-240 | the `substr`/`(int)` year rule of lines 236-240 on ten digits is the century choice of line 161 |
| Czech.RemoveSpaces | src/Czech.php:188 | removing `\s+` leaves no whitespace and never lengthens the string; a single character is kept exactly when it is not whitespace |
| Czech.RemoveSpacesAppend | src/Czech.php:188 | removing whitespace distributes over concatenation |
| Czech.CompanyCheckDigit | src/Czech.php:203-211 | the check digit chosen from the weighted remainder is a single digit |
| Czech.ValidCompanyId | src/Czech.php:185-214 | reference definition of the company-number rule: eight digits after whitespace removal, the last equal to the check digit of the weighted sum; its properties are OneCompanyCheckDigit and CompanyIdIgnoresSpace (no contract of its own) |
| Czech.IsCompanyId | src/Czech.php:185-214 | the loop over the first seven digits decides exactly the company-number rule: eight digits after whitespace removal, the last equal to the check digit of the weighted sum |
| Czech.WeightedSumPrefix | src/Czech.php:196-199 | the weighted sum of the first n digits depends only on those digits |
| Czech.OneCompanyCheckDigit | src/Czech.php:196-213 | every seven-digit prefix has exactly one valid eighth digit |
| Czech.CompanyIdIgnoresSpace | src/Czech.php:188 | a whitespace character anywhere does not change the verdict |
| Czech.CompanyIdExample | src/Czech.php:185-214 | "25596641" is a valid company number |
| Time.Decompose | src/Time.php:158-160 | hours, minutes below 60 and seconds below 60 that add up to the duration |
| Time.DecomposeUnique | src/Time.php:158-160 | that decomposition is the only one |
| Time.ConvertDurationToHms | src/Time.php:149-166 | a negative duration prints "??:??:??", zero prints "00:00:00" |
| Time.HmsLayout | src/Time.php:157-163 | a non-negative duration prints as at least two hour digits, with no leading zero beyond width two, two minute digits below 60 and two second digits below 60, which add up to the duration |
| Time.HmsRoundTrip | src/Time.php:149-166 | reading the `HH:MM:SS` text back gives the duration for every non-negative one, and nothing for a negative one |
| Time.HmsExamples | src/Time.php:144 | 7 seconds print as "00:00:07", 70 seconds as "00:01:10" |
| Time.StripZeroHours | src/Time.php:174 | the `^00:` replacement either changes nothing or removes a leading "00:" |
| Time.ConvertDurationToHmsHuman | src/Time.php:172-175 | the human form is the `HH:MM:SS` text, or that text without a leading "00:" |
| Time.HumanDropsZeroHours | src/Time.php:172-175 | below an hour the human form is the `HH:MM:SS` text without its "00:"; otherwise, negative durations included, the two are equal |
| Time.Pad2StartsWithZeros | src/Time.php:162 | `%02d` starts with "00" exactly for zero |
| Time.SpacedIsJoin | src/Time.php:217-228 | appending each part and a space is joining the parts with spaces, plus a trailing space |
| Time.DurationParts | src/Time.php:217-231 | reference definition of the parts the `try` block emits, as a list that may fail; its properties are PartsFailure and PartsPrinted (no contract of its own) |
| Time.Fallback | src/Time.php:233-237 | reference definition of the trimmed "< 1 " and one-minute label; its properties are FallbackStartsWithLess and FallbackOfNeat (no contract of its own) |
| Time.HmsLong | src/Time.php:194-241 | reference definition of the long text, case by case; its properties are FallbackExactly, JoinedBySpaces and the examples (no contract of its own) |
| Time.ConvertDurationToHmsLong | src/Time.php:194-241 | the statements of lines 208-237 compute exactly `HmsLong`, the long text defined case by case (negative, zero, inflected parts, fallback after a caught exception, trim); its properties are the lemmas below |
| Time.AppendPart | src/Time.php:220-231 | one `try` step keeps the accumulated text equal to the spaced parts so far, and the failure flag equal to a caught exception |
| Time.Finish | src/Time.php:233-237 | an empty text becomes the fallback, anything else is trimmed |
| Time.PartsFailure | src/Time.php:219-231 | the parts fail exactly when a unit that is printed lacks one of its three forms |
| Time.PartsPrinted | src/Time.php:217-228 | with all forms present, the parts are the hours, the minutes and the seconds, each when above zero, seconds only when asked for |
| Time.PartStartsWithDigit | src/Time.php:221-227 | every printed part starts with a digit, so `trim` never eats into it |
| Time.FallbackExactly | src/Time.php:233-235 | for a positive duration with all forms present, the fallback ("< 1 " and the one-minute label) is printed exactly when it is under a minute and seconds are not asked for |
| Time.FallbackStartsWithLess | src/Time.php:234 | the fallback always starts with "<", so it never looks like a count |
| Time.JoinedBySpaces | src/Time.php:217-237 | for a positive duration that prints at least one part (not under a minute without seconds), with labels that are non-empty and do not end in a character `trim` strips, the long text is the parts joined by single spaces |
| Time.BelowAMinute | src/Time.php:226-237 | under a minute without seconds, for any labels (missing ones included, since no inflection is called), the text is "< 1 " and the one-minute label, trimmed; for a one-minute label that `trim` leaves as it is, exactly "< 1 " and that label |
| Time.LongExample | src/Time.php:179 | 434 seconds with the Czech labels give "7 minut 14 sekund" |
| Time.EdgeExamples | src/Time.php:208-211 | with the default Czech labels, zero gives "0 sekund" with seconds and "< 1 minuta" without; a negative duration gives "?" |
| Safe.IsWordByte | src/Safe.php:74 | reference definition of `'!\w!u'` on one byte: an ASCII letter, digit or underscore (no contract of its own) |
| Safe.HexDigit | src/Safe.php:75 | the lower-case hex digit of `bin2hex` for 0..15 reads back as its value |
| Safe.EncodeByte | src/Safe.php:74-78 | a word byte becomes three bytes and any other byte one; an at sign comes out only from an at sign; the first byte is never a hex digit |
| Safe.HexEncode | src/Safe.php:72-79 | the encoding grows by two bytes per word byte; a non-empty input starts with a byte that is not a hex digit |
| Safe.HexEncodeAppend | src/Safe.php:72-79 | the encoding works byte by byte: it distributes over concatenation |
| Safe.Encode | src/Safe.php:72-79 | the loop over the bytes of the address computes the encoding |
| Safe.DecodeEncode | src/Safe.php:72-79 | percent-decoding the encoding gives the address back: no information is lost |
| Safe.ObfuscateBytewise | src/Safe.php:72-82 | encoding and then replacing every at sign is the same as doing both byte by byte |
| Safe.Obfuscate | src/Safe.php:72-82 | the encoded address with every at sign replaced; when the replacement holds no at sign, the result holds none |
| Safe.DefaultAtSign | src/Safe.php:64 | with the default `'@'` the result is the plain encoding |
| Safe.NoAtSign | src/Safe.php:82 | an address without an at sign is not affected by the replacement |
| Safe.AtOnlyFromEmail | src/Safe.php:74-78 | the encoding contains an at sign exactly when the address does |
| Safe.HexEmailEncoder.constructor | src/Safe.php:66 | the cache starts empty |
| Safe.HexEmailEncoder.HexEmailEncode | src/Safe.php:64-87 | as written: a hit returns the cached text and leaves the cache alone; a miss computes the obfuscated address and stores it under the joined key; either way the result is the obfuscation of the first pair that produced the key |
| Safe.CollidingKeys | src/Safe.php:67 | ("a@", "b") and ("a", "@b") share the key "a@b" but obfuscate to "%61b" and "%61" |
| Safe.CacheCollision | src/Safe.php:66-84 | after ("a@", "b") the call ("a", "@b") returns "%61b", not its own obfuscation |
| Safe.PairKeyedEncoder.HexEmailEncode | src/Safe.php:64-87 | with the cache keyed by the pair, every call returns the obfuscation of its own arguments |
| Safe.NoCollision | src/Safe.php:66-84 | with the pair key the same two calls return "%61b" and then "%61" |

## Left out

- `src/Http.php`, `src/Date.php` and the `Exceptions` directory are not part of this model. `FunctionException` is a bare datatype.
- `Czech::getDate` is not modelled: it reads the system clock and `date()`.
- `Czech::formatAddress` and `Czech::nameSalutation` are not modelled. The first depends on Nette's UTF-8 `Strings::firstUpper` and a chain of regular-expression rewrites; the second reads a names dictionary from a JSON file.
- `Czech.BornDateRoundTrip`: covers the offsets 0 and 50 only. For the +20 offset, PlusTwentyGivesNull shows the result is `null`. For the +70 offset, a number is read as a woman's with month + 20 (see Findings), and no lemma characterises that.
- The other functions of `Time` are not modelled, because they read the clock or format floating-point values. These are `formatTimeAgo`, `formatDurationFrom`, `formatMicroTime` and `formatTime`.
- The other functions of `Safe` are not modelled, because they depend on the server environment, the loaded PHP functions and file I/O. These are `isLocalhost`, `functionIsAvailable`, `getIntegrityHash` and `getFileHash`.
- `Safe::strictScalarType` (src/Czech.php:31) is taken as the identity on an array of strings.
- `Czech.GetBornDateFromIdentificationNumber`: the `\DateTime` construction of line 252 is the `makeDate` parameter, and the `\Exception` it may throw is `None`. Date arithmetic and the output format of `\DateTime` are not modelled.
- `Php.IntCast` models the `(int)` cast only on strings of at most two characters, which is all that `substr(rc, i, 2)` produces. Exponent and hexadecimal forms cannot occur at that length.
- `Php.NumberFormat` works on unbounded integers. The 64-bit limits of PHP's `int` and the float conversion inside `number_format` for huge values are not modelled.
- `Time.ConvertDurationToHms`: durations are unbounded integers. The float division in `floor($seconds / 3600)` is modelled as exact integer division, which it equals for every `int` below 2⁵³.
- `Czech.GetBornDateFromIdentificationNumber`: strings are sequences of characters, while `strlen` and `substr` (lines 236-247) count bytes. The model agrees with PHP only on input whose characters are all single bytes (ASCII). With a multi-byte character, such as "é5301011234", PHP reads different pairs than the model does. The other functions of `Czech` agree on any input, because their patterns and cleanups only accept or keep ASCII characters.
- `Safe.IsWordByte`: `'!\w!u'` is applied to a single byte. An ASCII letter, digit or underscore matches. A byte of 0x80 or above is an invalid UTF-8 subject, so the match fails and the byte is copied unchanged. Multi-byte letters are therefore never encoded.
- `Safe.HexEmailEncoder`: the `static $cache` lives for one script run (one request). Here it is one object's field, so a caller must reuse one encoder to share its cache.

## Findings

| source | as written | input that shows it | evidently intended | confidence | as-written member | corrected member |
|---|---|---|---|---|---|---|
| src/Czech.php:164-172 | for years after 2003 only 70 and 20 are subtracted from the month, so a woman's month + 50 becomes month + 30 and fails `checkdate` | "1053050009" (woman born 5 March 2010, check digit 9) is refused | 50 marks a woman in every year, and 20 and 70 are the extra offsets used from 2004 on | not executed | Czech.AsWrittenCounterexample | Czech.IntendedAcceptsIssued |
| src/Czech.php:242-253 | only 50 is subtracted from a month above 12, so the +20 and +70 offsets that `isIdentificationNumber` accepts from 2004 on are read as month − 30 or month + 20 | "1023050006" (man born 5 March 2010, offset +20) passes `isIdentificationNumber` but gives `null` | the same offsets as lines 164-172 intend: 50 for a woman in every year, 20 and 70 from 2004 on, with the gender female for a month above 50 | not executed | Czech.PlusTwentyExample | Czech.BornDateRoundTripIntended |
| src/Safe.php:67-69 | the cache key is `$email . $replaceAtSign`, so different argument pairs with the same concatenation share an entry | `hexEmailEncode("a@", "b")` gives "%61b"; then `hexEmailEncode("a", "@b")` returns the cached "%61b" instead of "%61" | the key should distinguish the two arguments, for example as a pair | not executed | Safe.CacheCollision | Safe.PairKeyedEncoder.HexEmailEncode |
