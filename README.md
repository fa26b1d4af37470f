# Smart License Verifier — verified model of the verification engine

The application reads a Pakistani CNIC (identity card) number out of OCR text.
It looks the number up in a license store and reports one of three outcomes:
a valid license, an expired license with a seven-day grace deadline, or no
license with a seven-day grace deadline. Each manual check, and each upload
in which a number was detected, appends one entry to a session scan history; an
upload in which no number was found is not recorded. The five newest entries are
shown newest first.
This project models that engine in Dafny and proves its properties:

- `cnic_pattern.dfy` (`CnicPattern`): the search `re.search(r'\d{5}-\d{7}-\d', text)`.
  It is a predicate on a 15-character window, a recursive leftmost search
  (`FindFrom`, `Extract`) and the scan loop (`Search`) proved equal to it.
- `civil_date.dfy` (`CivilDate`): proleptic Gregorian dates, `NextDay`/`AddDays`,
  the `date.toordinal()` day number as a reference for "n days later",
  `%Y-%m-%d` and `%Y-%m-%d %H:%M` rendering, and a parser that inverts the date rendering.
- `verifier.dfy` (`Verifier`): `LICENSE_DB`, `grace_expiry()` (`GraceExpiry`),
  and the classification branches of both entry paths (`Classify`).
- `scan_history.dfy` (`ScanHistory`): the history list as a class with a `seq` field,
  with `Append` and the display order `reversed(h[-5:])` (`Recent`, `RecentEntries`).
- `license_app.dfy` (`LicenseApp`): the upload path and the manual path, which combine the above.
- `ascii.dfy` (`Ascii`), `wrappers.dfy` (`Wrappers`): digit and whitespace classes,
  `str.strip()`, and `Option`.

The page reads two things from the outside world, and both are parameters here:
- the OCR output text, and
- the clock (`now`, a `DateTime`).

The license store is not read from outside. The page hard-codes it as `LICENSE_DB`
(lines 12-18). The model takes the store as a `map` parameter, and `Verifier.LicenseDb`
is that constant, record for record.

The model follows what the code does, including where a cleaner design might differ:
- The status is the string compared with `"Valid"`, not a closed enumeration.
- On the upload path, an attempt is recorded only when a number was detected.
  It is not recorded on every attempt.
- The code has no "store unavailable" outcome, so the model has none.
- The code has no designed outcome for an image it cannot decode. `cv2.imread` then
  returns `None` and `cv2.resize` (line 124) raises, which stops the run. That exception
  belongs to the preprocessing, which is not modelled.
- Adding seven days past 9999-12-31 makes Python raise `OverflowError`.
  The model returns this as the verdict `GraceOverflow`.
- The stored history has no size cap. Only the display is limited to five entries.

## Model

| member | source | states |
|---|---|---|
| `CnicPattern.Matches` | license_verification_app.py:130 | a window that matches lies inside the text, and within it exactly the characters at offsets 5 and 13 are not digits |
| `CnicPattern.MatchesWindow` | license_verification_app.py:130 | a window matches the pattern exactly when its 15-character substring has digits at 0-4 and 6-12, `-` at 5 and 13, and a digit at 14 |
| `CnicPattern.FindFrom` | license_verification_app.py:130 | the index it returns starts a match, and no smaller index at or after the start does; `None` means no index at or after the start matches |
| `CnicPattern.Extract` | license_verification_app.py:130-131 | any returned candidate is a well-formed document number `DDDDD-DDDDDDD-D` |
| `CnicPattern.ExtractLeftmost` | license_verification_app.py:130-131 | if index `i` matches and no smaller index does, the result is exactly the text's window at `i` |
| `CnicPattern.ExtractSound` | license_verification_app.py:130-131 | a returned candidate is never fabricated: it is the text's window at a matching index with no earlier match |
| `CnicPattern.ExtractNoneIff` | license_verification_app.py:130-131 | the result is `None` exactly when no index of the text starts a match |
| `CnicPattern.ExtractFindsEmbedded` | license_verification_app.py:130 | a document number embedded anywhere in surrounding text is found, at its own position or earlier |
| `CnicPattern.ExtractAfterHyphenFreePrefix` | license_verification_app.py:130-131 | a number preceded by text without `-` is extracted exactly |
| `CnicPattern.Search` | license_verification_app.py:130-131 | the scan loop returns the same result as the leftmost-match search |
| `CnicPattern.ExampleNoisyCard` | license_verification_app.py:130-131 | `"Name: John D0E CNIC 34501-4814449-1 Punjab"` yields `"34501-4814449-1"` |
| `CnicPattern.ExampleLongDigitRun` | license_verification_app.py:130 | `"123456-1234567-1"` yields `"23456-1234567-1"`, the leftmost window |
| `Ascii.StripLeft` | license_verification_app.py:169 | the result is a suffix of the input, all removed characters are whitespace, and it does not start with whitespace |
| `Ascii.StripRight` | license_verification_app.py:169 | the result is a prefix of the input, all removed characters are whitespace, and it does not end with whitespace |
| `Ascii.Strip` | license_verification_app.py:169 | `manual_cnic.strip()` is never longer than the input, and neither end of the result is whitespace |
| `Ascii.StripSpec` | license_verification_app.py:169 | `strip()` returns the contiguous piece of the input between whitespace-only ends, and neither of its ends is whitespace |
| `Ascii.StripIdempotent` | license_verification_app.py:169 | stripping a stripped string changes nothing |
| `CivilDate.DaysInMonth` | license_verification_app.py:135 | every month has 28 to 31 days |
| `CivilDate.MonthTable` | license_verification_app.py:135 | the cumulative month table agrees with the month lengths, and the whole table gives the year length |
| `CivilDate.YearStep` | license_verification_app.py:135 | consecutive years are exactly 365 or 366 day numbers apart, by the Gregorian leap rule |
| `CivilDate.NextDayStep` | license_verification_app.py:135 | the next day is a calendar date exactly one day number later, across month and year ends |
| `CivilDate.AddDays` | license_verification_app.py:135 | adding `n` days gives a calendar date whose day number is exactly `n` more, and never an earlier year |
| `CivilDate.OrdinalInYear` | license_verification_app.py:135 | every date's day number lies inside its own year's block |
| `CivilDate.YearsOrdered` | license_verification_app.py:135 | a later year's block starts after an earlier year's block ends |
| `CivilDate.MonthsOrdered` | license_verification_app.py:135 | within a year, a later month starts after an earlier month ends |
| `CivilDate.OrdinalInjective` | license_verification_app.py:135 | two calendar dates with the same day number are equal |
| `CivilDate.AddDaysUnique` | license_verification_app.py:135 | `AddDays(d, n)` is the one calendar date exactly `n` days after `d` (both directions) |
| `CivilDate.MaxDateOrdinal` | license_verification_app.py:135 | `date.max` (9999-12-31) is the last day of the year-9999 block |
| `CivilDate.InRangeIffOrdinal` | license_verification_app.py:135 | a date has year at most 9999 exactly when its day number is at most that of `date.max` |
| `CivilDate.Pad2RoundTrip` | license_verification_app.py:135 | `%02d` writes two digits that read back as the number |
| `CivilDate.Pad4RoundTrip` | license_verification_app.py:135 | `%04d` writes four digits that read back as the number |
| `CivilDate.DecimalDigits` | license_verification_app.py:135 | the four decimal digits of a number below 10000 are recovered by division and remainder |
| `CivilDate.Value2RoundTrip` | license_verification_app.py:135 | every two-digit string is the `%02d` rendering of its value |
| `CivilDate.Value4RoundTrip` | license_verification_app.py:135 | every four-digit string is the `%04d` rendering of its value |
| `CivilDate.FormatDate` | license_verification_app.py:135 | `%Y-%m-%d` is 10 characters with `-` at indices 4 and 7 and digits elsewhere |
| `CivilDate.ParseDate` | license_verification_app.py:135 | reading a `YYYY-MM-DD` string gives fields that fit the rendering |
| `CivilDate.ParseFormatDate` | license_verification_app.py:135 | parsing the rendering of a date gives the date back |
| `CivilDate.FormatParseDate` | license_verification_app.py:135 | every well-shaped `YYYY-MM-DD` string is the rendering of what it parses to |
| `CivilDate.FormatStamp` | license_verification_app.py:148 | `%Y-%m-%d %H:%M` is 16 characters: the date rendering, a space, two digits reading as the hour, `:`, two digits reading as the minute |
| `CivilDate.ExampleNewYear` | license_verification_app.py:135 | 2025-01-01 plus 7 days is 2025-01-08, rendered `"2025-01-08"` |
| `CivilDate.ExampleLeapFebruary` | license_verification_app.py:135 | 2024-02-25 plus 7 days is 2024-03-03 (leap February) |
| `CivilDate.ExampleYearEnd` | license_verification_app.py:135 | 2024-12-28 plus 7 days is 2025-01-04 |
| `Verifier.LicenseDbContents` | license_verification_app.py:12-18 | the store holds exactly the five CNICs of `LICENSE_DB` with their names, statuses and expiry dates, and every key is a well-formed document number |
| `Verifier.GraceExpiry` | license_verification_app.py:134-135 | the deadline is a 10-character string that parses to the calendar date exactly 7 days after `now`; there is no deadline exactly when that date would pass `date.max` |
| `Verifier.GraceExpiryIsSevenDaysLater` | license_verification_app.py:134-135 | the deadline is the rendering of a date `e` exactly when `e` is 7 days after `now` (both directions) |
| `Verifier.Classify` | license_verification_app.py:149-159 | no candidate gives NotDetected; a key with status `"Valid"` gives Verified with that record; a key with any other status gives ExpiredWithGrace with the record and the grace deadline; a missing key gives UnknownWithGrace with the deadline; each direction is an if-and-only-if, and the deadline overflow is the only other outcome; lines 172-182 repeat the same branches |
| `Verifier.ValidIgnoresClock` | license_verification_app.py:149-156 | a valid license is reported as Verified whatever the clock says |
| `Verifier.StatusAloneDecides` | license_verification_app.py:151-156 | replacing a record by one with the same status (e.g. another expiry) does not change the outcome kind or the deadline |
| `Verifier.ExampleValidHolder` | license_verification_app.py:13 | `"34501-4814449-1"` is Verified with holder name `"Samar Abbas"` |
| `Verifier.ExampleExpiredHolder` | license_verification_app.py:14 | `"35201-1234567-8"` checked on 2025-01-01 is ExpiredWithGrace until `"2025-01-08"` |
| `Verifier.ExampleUnknownHolder` | license_verification_app.py:180-182 | `"99999-9999999-9"` is UnknownWithGrace with the seven-day deadline |
| `ScanHistory.Reverse` | license_verification_app.py:187 | `reversed` keeps the length and puts element `k` at position `len-1-k` |
| `ScanHistory.Recent` | license_verification_app.py:187 | `reversed(h[-n:])` has `min(n, len(h))` entries, newest first |
| `ScanHistory.RecentAfterAppend` | license_verification_app.py:187 | after an append, the new entry heads the display and the oldest shown entry drops out once the display is full |
| `ScanHistory.RecentOfTen` | license_verification_app.py:187 | after E1..E10 the display is [E10, E9, E8, E7, E6] |
| `ScanHistory.History.constructor` | license_verification_app.py:23-24 | the session history starts empty |
| `ScanHistory.History.Append` | license_verification_app.py:148 | exactly one entry is added at the end, and all earlier entries are unchanged |
| `ScanHistory.History.RecentEntries` | license_verification_app.py:187-188 | the display loop visits exactly the entries given by `Recent` |
| `LicenseApp.VerifyUpload` | license_verification_app.py:145-161 | the verdict is the classification of the extracted candidate; with no candidate the verdict is NotDetected and the history is unchanged, otherwise exactly one entry (number, timestamp) is appended |
| `LicenseApp.VerifyManual` | license_verification_app.py:168-182 | the stripped input is always appended with its timestamp, and the verdict is the classification of the stripped input |

## Left out

- Image preprocessing (resize by 1.5, grayscale, 3x3 Gaussian blur, Otsu threshold; lines 123-127) is not modelled. These are OpenCV calls on pixel arrays with floating-point numerics.
- The Tesseract OCR call and its configuration (lines 128-129) are not modelled. Its output text is the model's input.
- The clock reads (`datetime.now()`, lines 135, 148, 170) are not modelled. The page reads the clock separately for the timestamp and for the deadline. The model uses one `now` for both.
- The image file write and read (lines 142-143, 123) are I/O and are not modelled.
- The Streamlit UI is not modelled: page setup, styles, sidebar, widgets, messages, and the HTML rendering of each history line (lines 21-119, 138-139, 164-168, 185-192). Session-state plumbing beyond the plain list (lines 23-24) is not modelled either.
- `CnicPattern.Matches`: `\d` is ASCII `0`-`9` only. Python's `\d` on `str` also accepts other Unicode decimal digits. The OCR whitelist on line 128 allows only ASCII digits and `-`.
- `Ascii.StripLeft`: only the ASCII whitespace that `str.isspace()` accepts is removed. Python's `strip()` also removes non-ASCII Unicode whitespace. `Ascii.StripRight` has the same limit.
- `CivilDate.FormatDate`: `%Y` is always written with four zero-padded digits. Some C libraries do not pad years below 1000. The clock never produces such years.
- `ScanHistory.Recent`: requires `n >= 1`. The page only uses `n = 5`. Python's `h[-0:]` would return the whole list.
- `LicenseApp.VerifyUpload`: models one pass through lines 141-161. The page script reruns on every widget interaction, pressing "Verify CNIC" included. While a file stays in the uploader, each rerun repeats the OCR and appends the same detected number to the history again. The model does not capture these repeated appends.
- No two sessions share a history, because `st.session_state` is per session. The model has one `History` object per session and no concurrency.
