# Transport authorization form: date checks and share links

The application is a single browser page (`index.tsx`). It fills in an official
transport authorization document from a form. This model covers the two parts of
the page that decide something on their own, without the DOM or the text-generation
service:

- **Date checks.**
  - `parseDate` reads a field typed as `DD/MM/YYYY` or `DD MM YYYY`. Any run of slashes and spaces acts as one separator.
  - It range-checks the day (1–31), the month (1–12) and the year (1900–3000).
  - It then builds the JavaScript `Date` and keeps it only if the date reads back as the same day, month and year. This refuses a day that does not exist, such as 31/02.
  - `validateDates` checks the authorization date first, then the issue date, then that the issue date is not earlier than the authorization date. It reports the first failure and marks the offending fields.
- **Share links.**
  - Publishing writes the generated document into the URL fragment as `encodeURIComponent(btoa(content))`.
  - When the page starts with a non-empty fragment, it decodes it with `atob(decodeURIComponent(...))` and shows the document read-only.
  - When any decoding step throws, the page falls back to the form.
  - An empty document gives no link. A document that `btoa` refuses gives the share error message.

Modules, one file each:

| file | module | what it holds |
|---|---|---|
| `wrappers.dfy` | `Wrappers` | `Option` and `Result` |
| `calendar.dfy` | `Calendar` | the Gregorian calendar, the day carry of `new Date(y, m - 1, d)`, and day numbers that stand in for timestamps |
| `date_text.dfy` | `DateText` | `replace`, `split` (JavaScript's, empty pieces kept), the empty-piece filter, and decimal numerals |
| `date_validator.dfy` | `DateValidator` | `parseDate`, `validateDates`, and the three messages |
| `base64.dfy` | `Base64` | padded base64 encoding (`btoa`) and the forgiving decode (`atob`) on byte strings |
| `percent.dfy` | `Percent` | `encodeURIComponent` and `decodeURIComponent` on ASCII text |
| `share_link.dfy` | `ShareLink` | the publish handler, the start-up choice between view and form, and their round trip |

Browser-side inputs are parameters:
- `location.origin`, `location.pathname` and `location.hash`.
- The document text, which index.tsx reads from `resultText.innerText`.

`parseDate` returns `null` for every refusal. The model keeps three kinds
(`MalformedInput`, `OutOfRange`, `InvalidCalendarDate`) so that its contracts can say
which check refused a text; `ValidateDates` ignores the kind, as the page's code does.

## Model

| member | source | states |
|---|---|---|
| DateText.SlashesToSpaces | index.tsx:130 | `replace(/\//g, ' ')` keeps the length, turns every '/' into a space and leaves every other character as it is |
| DateText.Split | index.tsx:130 | `split(' ')` gives one piece more than there are separators, so an empty text gives one empty piece |
| DateText.SplitJoin | index.tsx:130 | joining the pieces of `split` with the separator gives the text back, and no piece contains the separator |
| DateText.SplitAppend | index.tsx:130 | splitting `a + sep + b` gives the pieces of `a` followed by the pieces of `b` |
| DateText.DropEmpty | index.tsx:130 | `filter(p => p)` keeps only non-empty pieces, each one taken from the input, and keeps every non-empty piece as often as it occurs |
| DateText.SplitKeepsAbsent | index.tsx:130 | a piece of a split holds no character its text does not hold |
| DateText.Fields | index.tsx:130 | every field is non-empty and holds neither '/' nor ' ' |
| DateText.FieldsAppend | index.tsx:130 | after slashes become spaces and empty pieces are dropped, one '/' or ' ' between two texts separates their fields; so any run of separators counts as one |
| DateText.FieldsOfWord | index.tsx:130 | a text with no separator is exactly one field, unless it is empty |
| DateText.ParseNumber | index.tsx:133 | a field is read as a number exactly when it is a decimal numeral |
| DateText.ParseDigits | index.tsx:133 | a number written zero-padded to a width it fits in reads back as that number |
| Calendar.DaysInMonth | index.tsx:142-144 | every month has 28 to 31 days, and it has 29 exactly for February of a leap year (the 4/100/400 rule) |
| Calendar.Rollover | index.tsx:142 | `new Date(y, m - 1, d)` with a day past the month's end carries into later months and always lands on a real date no earlier than month `m` of year `y` |
| Calendar.RolloverCountsDays | index.tsx:142 | the carried date lies exactly `d - 1` days after the first of month `m` |
| Calendar.RolloverIdentity | index.tsx:142-144 | the date reads back as (d, m, y) exactly when `d` is at most the length of month `m` in year `y` |
| Calendar.MonthsFillYear | index.tsx:142 | the twelve months add up to the year's length, 365 or 366 |
| Calendar.DayNumber | index.tsx:169 | the day count from 1 January 1900 that stands in for a `Date`'s time value; for a real date it lies within its own year's span of day counts |
| Calendar.DayNumberOrder | index.tsx:169 | comparing the day numbers that stand in for timestamps is the same as comparing year, then month, then day; equal day numbers mean equal dates |
| DateValidator.ParseDate | index.tsx:129-148 | refused as malformed exactly when there are not three fields; accepted exactly when the three fields are numerals spelling a real date with a year from 1900 to 3000, and then the result is that date; refused as an impossible date exactly when the fields are in range but the day does not exist |
| DateValidator.ParseFormatted | index.tsx:129-148 | every in-range triple written as DD/MM/YYYY or DD MM YYYY parses back to itself when it is a real date, and is refused as an impossible date otherwise |
| DateValidator.ValidateDates | index.tsx:150-176 | a bad authorization date is reported first, marking only that field; a bad issue date second, marking only that field; an issue date before the authorization date third, marking both; the pair is valid exactly when both parse and the issue date is not earlier (equal dates are accepted) |
| DateValidator.IssueBeforeAuthorizationExample | index.tsx:169-173 | 31/01/2024 then 05/01/2024 gives the ordering message with both fields marked |
| DateValidator.RolledOverAuthorizationExample | index.tsx:157-161 | 31/02/2024 as the authorization date gives that field's message alone, whatever the issue date |
| DateValidator.ValidPairExample | index.tsx:150-176 | 01/01/2024 then 02/01/2024 is accepted |
| Base64.EncodeSextetsLength | index.tsx:99 | the unpadded encoding has exactly 4 characters per full group of 3 bytes, plus 2 or 3 for a final group of 1 or 2 bytes |
| Base64.DecodeEncodeSextets | index.tsx:18 | regrouping the 6-bit values of an encoding into bytes gives the original bytes |
| Base64.Encode | index.tsx:99 | `btoa`'s output has exactly 4 characters for every started group of 3 bytes, holds only alphabet characters and '=', and is non-empty for non-empty input |
| Base64.EncodeShortVectors | index.tsx:99 | `btoa` of "", "f", "fo" and "foo" gives "", "Zg==", "Zm8=" and "Zm9v", the test vectors of section 10 of RFC 4648 |
| Base64.EncodeFoobVector | index.tsx:99 | `btoa` of "foob" gives "Zm9vYg==" (section 10 of RFC 4648) |
| Base64.EncodeFoobaVector | index.tsx:99 | `btoa` of "fooba" gives "Zm9vYmE=" (section 10 of RFC 4648) |
| Base64.EncodeFoobarVector | index.tsx:99 | `btoa` of "foobar" gives "Zm9vYmFy" (section 10 of RFC 4648) |
| Base64.RemoveWhitespace | index.tsx:18 | the first step of `atob` leaves no ASCII whitespace and keeps every other character as often as it occurs |
| Base64.RemoveWhitespaceAppend | index.tsx:18 | whitespace removal works piece by piece, so the characters it keeps stay in their order; with the count clause of RemoveWhitespace this fixes its result |
| Base64.StripPadding | index.tsx:18 | the second step of `atob` removes a final '=' or '==' when the length is a multiple of four (two characters for "==", one for a single '='), removes only '=' characters from the end, and changes nothing when the length is not a multiple of four |
| Base64.Decode | index.tsx:18 | `atob` succeeds exactly when the text, without ASCII whitespace and its one or two final '=', has no length of the form 4k + 1 and uses only alphabet characters |
| Base64.StripEncodePadding | index.tsx:18 | the padding `atob` removes is exactly the padding `btoa` added |
| Base64.DecodeEncode | index.tsx:18 | `atob` gives back every byte string `btoa` encoded |
| Percent.HexValueOfDigit | index.tsx:18 | the hexadecimal digit written for a value reads back as that value |
| Percent.Escape | index.tsx:99 | `encodeURIComponent` leaves a text of unreserved characters unchanged; its output holds only unreserved characters and '%', and is never shorter than its input |
| Percent.Unescape | index.tsx:18 | `decodeURIComponent` returns a text without '%' unchanged, and what it returns is never longer than its input; UnescapeWellEscaped gives its exact failure condition |
| Percent.UnescapeWellEscaped | index.tsx:18 | the model's `decodeURIComponent` fails exactly when some '%' is not followed by two hexadecimal digits, or by two that spell a code of 128 or more |
| Percent.EscapeAppend | index.tsx:99 | `encodeURIComponent` works character by character: escaping `a + b` gives the escape of `a` followed by that of `b`; with the pass-through clause of Escape and EscapeBase64Specials this fixes the fragment written for any `btoa` output |
| Percent.EscapeBase64Specials | index.tsx:99 | the three base64 characters that are not unreserved, '+', '/' and '=', become "%2B", "%2F" and "%3D" |
| Percent.UnescapeEscape | index.tsx:18 | `decodeURIComponent` undoes `encodeURIComponent` on ASCII text |
| ShareLink.FromToBytes | index.tsx:18 | reading the bytes of a Latin-1 text back as characters gives the text |
| ShareLink.BtoA | index.tsx:99 | `btoa` succeeds exactly on text whose every character code is at most 255; it then gives ASCII text, non-empty for a non-empty document |
| ShareLink.AtoB | index.tsx:18 | what `atob` returns is Latin-1 text |
| ShareLink.EncodeContent | index.tsx:99 | the fragment exists exactly for Latin-1 documents; it is non-empty for a non-empty document and contains no '+', '/', '=' or '#' |
| ShareLink.DecodeFragment | index.tsx:18 | `atob(decodeURIComponent(fragment))` succeeds exactly when both calls succeed, and then gives Latin-1 text |
| ShareLink.DecodeEncodeContent | index.tsx:17-18 | every Latin-1 document comes back unchanged from its fragment |
| ShareLink.Publish | index.tsx:94-109 | an empty document gives no link; one with a character above 255 gives the share error message; otherwise the link is the origin, the path, '#' and the fragment |
| ShareLink.StartupMode | index.tsx:15-56 | read-only view exactly when the hash has at least one character after '#' and that fragment decodes, and the view shows the decoded text; the form otherwise |
| ShareLink.OpenFragment | index.tsx:15-18 | a hash made of '#' and the fragment of a non-empty Latin-1 document starts the read-only view of that document |
| ShareLink.OpenPublishedLink | index.tsx:15-18 | opening the link published for a non-empty Latin-1 document starts the read-only view of that same document |
| ShareLink.MalformedFragmentSelectsForm | index.tsx:52-55 | a fragment that is not valid percent-encoding makes start-up fall back to the form |

## Left out

- The DOM is not modelled: CSS classes, titles, the copy buttons, the clipboard, `setTimeout`, `setLoading` and the console logging. The fields `validateDates` marks are returned as a set.
- The document generation through the Gemini service (`generateDocument`) is not modelled. It is a call into code outside this repository.
- View mode also needs the container, the result and the copy button elements to exist. The model assumes they do.
- DateText.ParseNumber: weaker than JavaScript's `Number`. It reads plain decimal digit strings only. `Number` also reads:
  - a sign, as in "+5";
  - a fraction, as in "01.0" (a fraction that is not whole, such as "1.5", is refused anyway by the read-back at index.tsx:143);
  - an exponent, as in "1e1";
  - a `0x`, `0o` or `0b` prefix, as in "0x1F" or a year written "0x7D0";
  - surrounding white space of any Unicode kind, such as tabs, line breaks or U+00A0.

  index.tsx lets such fields through when their value is in range. The model refuses them as `OutOfRange`.
- DateValidator.ParseDate: inherits that restriction from ParseNumber. For plain decimal fields it agrees with index.tsx, provided the local time zone skips no whole day.
- Calendar.Rollover: models the day carry of `new Date(y, m - 1, d)` (index.tsx:142) in a time zone that skips no whole day. A daylight-saving gap at local midnight moves the time forward within the same day, so it changes nothing here. A zone that skipped a whole day is not modelled. For example, 30 December 2011 never existed in Pacific/Apia and Pacific/Fakaofo, and neither did 21 August 1993 in Pacific/Kwajalein. On a page running in such a zone, `parseDate` refuses these dates, while DateValidator.ParseDate accepts them.
- Percent.Escape: is `encodeURIComponent` on ASCII text only. Its one caller passes `btoa` output, which is always ASCII.
- Percent.Unescape: refuses `%XX` with a value of 128 or more instead of decoding UTF-8. In index.tsx such a triplet either throws a `URIError` or yields a non-ASCII character that `atob` then refuses. Either way start-up falls back to the form, and the model gives the same outcome.
- Percent.UnescapeWellEscaped: states the failure condition of the model's Unescape, so it counts a triplet for a code of 128 or more as a failure, for the reason on the line above.
- ShareLink.BtoA: refuses the same texts as `btoa`. A document with a character above 255 cannot be shared, and that is the behaviour modelled.
