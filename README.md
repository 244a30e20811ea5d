# Weather Underground scraper: the cleaning core in Dafny

`wu-webscraper.py` downloads one Weather Underground "daily history" page per
day of a date range, concatenates the observation tables and cleans the
result. This project models the part of that script that computes rather
than talks to the outside world:

- **The date pass** (`clean_weather_data`, the `for index, row in df.iterrows()`
  loop and the padding loop). The scraped tables carry only a time of day per
  row. Consecutive days are separated by blank rows. The pass walks the rows
  once and gives every data row a date, moving to the next day at the first
  data row after blank rows. Rows whose day falls after the end date get no
  date. This is modelled as the method `DateReconstruction.ReconstructDates`.
  It is proved equal to a row-by-row specification (`ExpectedDates`) over the
  table's blank-row pattern, and the properties of the pass are lemmas about
  that specification.
- **The rest of the cleaning**:
  - attach the date column and `dropna`
  - build the `datetime` column and move it first
  - drop `Time` and `date`
  - rename the seven measurement columns to carry their units
  - reduce each measurement cell to the leftmost number in its text

  The DataFrame is modelled as a column-major value (`Frame.Frame`). Each
  DataFrame call becomes a function on it, and `Cleaning.CleanWeatherData`
  runs those steps in the source's order, including its failure cases.
- **Numeric extraction**: the leftmost-longest match of
  `[-+]?[0-9]*\.?[0-9]+`, kept as an exact decimal (`Numbers`).
- **The URL helpers**:
  - `strip_url_after_date`: the regex `https://www\.wunderground\.com/history/daily/.+?/date`
    under `re.search` semantics
  - `validate_url`
  - the list of dates and the per-day URLs built in `main` (`Urls`)
- **Calendar arithmetic**: Python's `datetime` at midnight (`Calendar`):
  - `timedelta(days=1)`, including `OverflowError` past 9999-12-31
  - date comparison
  - `(end - start).days`
  - `strftime('%Y-%m-%d')`

Files: `wrappers.dfy` (Option, Result), `digits.dfy`, `calendar.dfy`, `dates.dfy`,
`numbers.dfy`, `frame.dfy`, `cleaning.dfy`, `urls.dfy`.

Leading blank rows move the date. `blank_row` starts `False` (line 59) and
any blank row sets it (line 64), including one before the first data row. So
the first data row after leading blank rows is moved one day on (lines 67-69).
`LeadingBlankRowsAdvance` states this. `LeadingSeparatorScenario` works through
the consequence. Take one blank row followed by two data rows, with the start
and end on the same day. The data rows are dated the day after `end`, so they
get no date, and `dropna` removes the whole table.

## Model

| member | source | states |
|---|---|---|
| Calendar.NextDay | wu-webscraper.py:69 | `current_date += timedelta(days=1)`: the result is a valid date whose day number is one more; defined for every date but 9999-12-31, where Python raises |
| Calendar.AddDays | wu-webscraper.py:155 | `start + timedelta(days=x)`: a valid date exactly `x` days after `start` (day number plus `x`) |
| Calendar.AddDaysSucc | wu-webscraper.py:69 | adding `n + 1` days is the day after adding `n` days |
| Calendar.LeTotalOrder | wu-webscraper.py:70 | Python's comparison of dates (`Le`) is reflexive, antisymmetric, transitive and total |
| Calendar.LeIffOrdinalLe | wu-webscraper.py:70 | Python's field-by-field comparison of dates agrees with comparing their day numbers, in both directions |
| Calendar.OrdinalInjective | wu-webscraper.py:70 | two valid dates with the same day number are the same date |
| Calendar.OrdinalBounds | wu-webscraper.py:69 | every valid date's day number is between 1 and that of 9999-12-31, and reaches it only for 9999-12-31 |
| Calendar.DaysBetween | wu-webscraper.py:150-155 | `(end - start).days` is non-negative exactly when `start <= end`, the test `main` makes before building the list |
| Digits.PaddedRoundTrip | wu-webscraper.py:160 | zero-padding a number that fits keeps the width, writes only digits, and reads back as the number |
| Calendar.IsoDate | wu-webscraper.py:160 | `strftime('%Y-%m-%d')` writes ten characters: digits, with dashes at positions 4 and 7 |
| Calendar.IsoDateRoundTrip | wu-webscraper.py:160 | `strftime('%Y-%m-%d')` gives 10 characters that parse back to the same date |
| Calendar.IsoDateInjective | wu-webscraper.py:160 | distinct dates format to distinct strings |
| Calendar.DateList | wu-webscraper.py:155 | the date list has `(end - start).days + 1` entries, entry `x` being `x` days after `start` |
| Calendar.DateListShape | wu-webscraper.py:155 | the list starts at `start`, ends at `end`, steps by one day, and stays between the two |
| DateReconstruction.ReconstructDates | wu-webscraper.py:55-77 | the date pass fails (OverflowError) exactly when it would step past 9999-12-31; otherwise it gives one entry per row, equal to the row-by-row specification `ExpectedDates` |
| DateReconstruction.PadDates | wu-webscraper.py:76-77 | the padding loop reaches length `n`, keeps the existing entries and appends only missing dates |
| DateReconstruction.BlankPattern | wu-webscraper.py:63 | the pattern has one entry per row, true exactly for rows whose cells are all missing |
| DateReconstruction.BlankRowStep | wu-webscraper.py:63-65 | a blank row appends a missing date and does not move the day |
| DateReconstruction.DataRowStep | wu-webscraper.py:66-73 | a data row moves the day one on exactly when it follows a blank row, then appends that day if it is not after `end`, and a missing date otherwise |
| DateReconstruction.OverflowAt | wu-webscraper.py:67-69 | stepping on from 9999-12-31 at any row means the whole pass overflows |
| DateReconstruction.AdvancesMonotone | wu-webscraper.py:67-69 | the number of day steps never decreases along the rows and grows by at most one per row |
| DateReconstruction.ExpectedDatesAt | wu-webscraper.py:62-73 | entry `i` of the date column depends only on row `i` and the rows before it |
| DateReconstruction.BlankRunKeepsDay | wu-webscraper.py:63-65 | a run of blank rows does not move the day |
| DateReconstruction.BlankRunAdvancesOnce | wu-webscraper.py:63-69 | any number of blank rows before a data row moves the day exactly once |
| DateReconstruction.ConsecutiveDataRowsSameDay | wu-webscraper.py:66-71 | two adjacent data rows are on the same day |
| DateReconstruction.DayAfterBlankRun | wu-webscraper.py:62-71 | a data row, blank rows, then a data row: the second is on the day after the first |
| DateReconstruction.LeadingBlankRowsAdvance | wu-webscraper.py:59-71 | blank rows at the very start count as a separator: the first data row gets the day after `start`, or no date when that is after `end` |
| DateReconstruction.LeadingSeparatorScenario | wu-webscraper.py:59-73 | one leading blank row, two data rows, `start == end`: no row gets a date |
| DateReconstruction.BlankRowsUndated | wu-webscraper.py:63-65 | blank rows never get a date |
| DateReconstruction.DatesWithinRange | wu-webscraper.py:55-73 | every assigned date lies between `start` and `end` |
| DateReconstruction.DayOfMonotone | wu-webscraper.py:62-71 | the day the pass holds never goes backwards from one row to a later one |
| DateReconstruction.DatesNondecreasing | wu-webscraper.py:62-73 | assigned dates never go backwards in row order |
| DateReconstruction.PastEndStaysUndated | wu-webscraper.py:70-73 | once a data row is past `end`, every later row is undated |
| Frame.IsBlankRow | wu-webscraper.py:63 | `row.isnull().all()` holds exactly when every cell of the row is missing |
| Frame.SetColumn | wu-webscraper.py:80 | `df[name] = values` replaces an existing column in place or appends a new last column; nothing else changes |
| Frame.DropNa | wu-webscraper.py:81 | `dropna()` keeps every column and the complete rows, in order |
| Frame.CompleteRows | wu-webscraper.py:81 | the kept row indices are increasing, each names a row with no missing cell, and every such row is listed |
| Frame.DropNaComplete | wu-webscraper.py:81 | after `dropna()` no cell is missing |
| Frame.MoveToFront | wu-webscraper.py:87-88 | the named column comes first, then the others in their order; cells unchanged |
| Frame.DropColumns | wu-webscraper.py:91 | the named columns are gone, the others keep their order and cells |
| Frame.Without | wu-webscraper.py:87 | a name survives the filter exactly when it was there and is not excluded |
| Frame.WithoutDistinct | wu-webscraper.py:87-91 | filtering keeps names distinct |
| Frame.WithoutWithout | wu-webscraper.py:87-91 | filtering twice is filtering once by the union |
| Frame.RenameColumns | wu-webscraper.py:94-102 | `rename(columns=m)` renames keys of `m`, keeps other names, order, height and every column's cells |
| Frame.RenamedDataDomain | wu-webscraper.py:94-102 | after renaming, the frame has a column under each new name and no other |
| Frame.RenamedDataValues | wu-webscraper.py:94-102 | under its new name each column keeps its cells |
| Frame.RenameAllMember | wu-webscraper.py:94-102 | the renamed column list holds the new name of every old name |
| Cleaning.DateCells | wu-webscraper.py:80 | the date column is missing exactly where the pass gave no date, and holds the date elsewhere |
| Cleaning.StampCell | wu-webscraper.py:84 | a `datetime` cell is a timestamp exactly when the row has a date and a time text that parse, and is then that parse; otherwise it is missing (`errors='coerce'`) |
| Cleaning.Timestamps | wu-webscraper.py:84 | each `datetime` cell is the parse of that row's date and time, missing when the parse fails |
| Cleaning.DatedRowComplete | wu-webscraper.py:80-81 | after attaching the date column, a row is complete exactly when it got a date and no other cell is missing |
| Cleaning.KeptRows | wu-webscraper.py:80-81 | the surviving row indices are increasing, each names a dated row with no missing cell, and every such row is listed |
| Cleaning.DropNaKeepsDatedRows | wu-webscraper.py:80-81 | `dropna` after attaching the date column keeps exactly the dated rows without missing cells |
| Cleaning.PaddedRowDropped | wu-webscraper.py:80-81 | a dated row with a missing cell is still dropped |
| Cleaning.DatedFrame | wu-webscraper.py:80-81 | after lines 80-81: the kept rows of every column, and the date column added when absent |
| Cleaning.ArrangedFrame | wu-webscraper.py:84-91 | after lines 84-91: `datetime` first, then the other columns minus `Time` and `date`, their cells unchanged |
| Cleaning.PipelineColumns | wu-webscraper.py:80-91 | the column list after adding `date` and `datetime`, moving `datetime` first and dropping `Time`/`date` |
| Cleaning.ArrangedSpec | wu-webscraper.py:79-102 | step by step, from the frames after `dropna`, after the rearranging and after the renaming: the frame before the conversion loop has the output columns, one row per kept row, the timestamps first and each other column's kept cells under its new name |
| Cleaning.ArrangedPipeline | wu-webscraper.py:79-102 | the same for lines 79 to 102 applied in order to the scraped frame: when `Time` is present and the output column names are distinct, every step's precondition holds and the result is the frame described above |
| Cleaning.RenameChangesOnlyMeasurements | wu-webscraper.py:94-102 | the renaming changes a name exactly when it is one of the seven measurement names |
| Cleaning.RenameKeepsPositions | wu-webscraper.py:94-102 | renaming keeps positions; unnamed columns keep their names, measurement names get their units |
| Cleaning.RenameMapByIndex | wu-webscraper.py:94-105 | measurement `j` is renamed to the `j`th column of the conversion loop |
| Cleaning.RenamedToMeasurement | wu-webscraper.py:94-105 | every renamed column is one the conversion loop converts |
| Cleaning.RenameMapInjective | wu-webscraper.py:94-102 | no two measurement names are renamed to the same column |
| Cleaning.RenameInjective | wu-webscraper.py:94-102 | names that are not already unit-carrying names stay apart after renaming |
| Cleaning.DatetimeUntouched | wu-webscraper.py:84-105 | `datetime` is neither renamed nor converted |
| Cleaning.RenameAvoidsDatetime | wu-webscraper.py:87-102 | no other column is renamed to `datetime` |
| Cleaning.OutputColumns | wu-webscraper.py:87-102 | one more column than the kept input columns, `datetime` first and nowhere else, and the new name of every kept input column present |
| Cleaning.OutputColumnsDistinct | wu-webscraper.py:87-102 | distinct input names that do not already use a unit-carrying name give distinct output names |
| Cleaning.NumericColumnsDistinct | wu-webscraper.py:105 | the conversion loop names seven different columns |
| Cleaning.FirstAbsent | wu-webscraper.py:105-106 | None exactly when all converted names are present; otherwise an absent name, every name before it in the list being present, so it is the one whose lookup raises `KeyError` first |
| Cleaning.ConvertCell | wu-webscraper.py:106 | a cell becomes a number exactly when it is text holding a numeral, and that number is the extracted one; otherwise it becomes missing |
| Cleaning.Converted | wu-webscraper.py:106 | a column is converted cell by cell, keeping its length |
| Cleaning.ConvertStep | wu-webscraper.py:105-106 | one loop iteration converts exactly one more measurement column |
| Cleaning.ConvertMeasurements | wu-webscraper.py:105-106 | the loop raises `KeyError` for the first absent measurement column; otherwise it converts exactly the seven columns and leaves the rest |
| Cleaning.CleanedFrom | wu-webscraper.py:79-108 | converting the arranged frame gives the cleaned frame |
| Cleaning.MeasurementKept | wu-webscraper.py:91-105 | a measurement name is not dropped and is renamed into the conversion list |
| Cleaning.MeasurementCells | wu-webscraper.py:94-106 | in the result, a measurement column holds its kept cells converted to numbers |
| Cleaning.UnmatchedMeasurementKeepsRow | wu-webscraper.py:81-106 | a kept row whose measurement text holds no number stays, with a missing value in that column (conversion comes after the only `dropna`) |
| Cleaning.CleanWeatherData | wu-webscraper.py:51-108 | fails on date overflow, then on a missing `Time`, then on the first missing measurement column, and in no other case; on success the result is the cleaned frame (`Cleaned`) |
| Numbers.DigitsEnd | wu-webscraper.py:106 | the end of the run of digits at `p`: all digits before it, none at it |
| Numbers.NumeralAtSlice | wu-webscraper.py:106 | a match found inside a text is a numeral on its own |
| Numbers.MatchEndFraction | wu-webscraper.py:106 | digits, a point and a digit: the longest match runs through the second digit run |
| Numbers.MatchEndInteger | wu-webscraper.py:106 | digits with no point-digit after them: the longest match is the digit run |
| Numbers.MatchEndNone | wu-webscraper.py:106 | no digit and no point-digit after the optional sign: no match starts there |
| Numbers.MatchEnd | wu-webscraper.py:106 | the end of the longest numeral at a position, and None only when no numeral starts there |
| Numbers.SearchNumeral | wu-webscraper.py:106 | `str.extract` picks the leftmost start with a match and the longest match there; None only when no position has one |
| Numbers.PointIndex | wu-webscraper.py:106 | the first point at or after `b`, or the end |
| Numbers.DigitsInRun | wu-webscraper.py:106 | the digits of a run of digits are the run itself |
| Numbers.DigitsInSplit | wu-webscraper.py:106 | the digits of two adjacent pieces are the two digit strings joined |
| Numbers.DigitsOfSplit | wu-webscraper.py:106 | the digits of a numeral are its integer part then its fraction, without sign or point |
| Numbers.ToDecimal | wu-webscraper.py:106 | the decimal is negative exactly for a leading `-`, and its digits are the numeral's digits |
| Numbers.ToDecimalScale | wu-webscraper.py:106 | the scale is the number of digits after the point: zero exactly when there is no point |
| Numbers.ExtractNumber | wu-webscraper.py:106 | None exactly when no position starts a numeral; otherwise the value of the leftmost-longest numeral |
| Numbers.ExtractTemperature | wu-webscraper.py:106 | "72 F" gives 72 |
| Numbers.ExtractNegativeFraction | wu-webscraper.py:106 | "-3.5 in" gives -3.5 |
| Numbers.ExtractZero | wu-webscraper.py:106 | "0" gives 0 |
| Numbers.ExtractPrecipitation | wu-webscraper.py:106 | "0.02 in" gives 2 hundredths |
| Numbers.ExtractNotAvailable | wu-webscraper.py:106 | "N/A" gives a missing value |
| Urls.FindFrom | wu-webscraper.py:129 | the first occurrence of a word at or after `i`, or None when there is none |
| Urls.NoMatchWithoutSegment | wu-webscraper.py:129 | no match at `a` when no `/date` follows the prefix |
| Urls.NoMatchAcrossNewline | wu-webscraper.py:129 | no match at `a` when a line break comes before the first `/date` (`.` does not match it) |
| Urls.MatchEndAt | wu-webscraper.py:129 | the lazy match at `a` exists exactly when some match at `a` exists, and is one |
| Urls.SearchHistoryMatch | wu-webscraper.py:129 | `re.search`: a match at the leftmost possible start, or None when there is none |
| Urls.StripUrlAfterDate | wu-webscraper.py:127-132 | the result is never longer than the URL, and when it differs from the URL it starts with the history prefix and has room for at least one character and `/date` after it |
| Urls.StripIsLeftmostMatch | wu-webscraper.py:127-132 | `strip_url_after_date` returns the leftmost match, or the URL unchanged when nothing matches |
| Urls.OccursInSlice | wu-webscraper.py:129-132 | an occurrence inside a slice is an occurrence in the whole, shifted |
| Urls.MatchIsSelfMatch | wu-webscraper.py:129-131 | a match is matched by the pattern from end to end |
| Urls.MatchUnique | wu-webscraper.py:129 | the lazy `.+?` allows one match per start |
| Urls.StripIdempotent | wu-webscraper.py:127-132 | cutting twice is cutting once |
| Urls.StripIsWholeMatch | wu-webscraper.py:127-132 | when something matches, the cut URL is a whole match |
| Urls.HistoryPrefixParts | wu-webscraper.py:134-139 | a URL with the history prefix starts with the origin and contains `history` and `daily` |
| Urls.DateSegmentPart | wu-webscraper.py:134-139 | a URL ending in `/date` contains `date` |
| Urls.NotOpenedByOrigin | wu-webscraper.py:134-139 | a URL whose first character is not that of the origin fails `validate_url` |
| Urls.ValidateUrlCases | wu-webscraper.py:134-139 | the example history URL passes `validate_url`; behind any text whose first character is not `h`, it fails |
| Urls.ValidateUrlIgnoresLeadingText | wu-webscraper.py:134-139 | `validate_url` tests only `startswith` and `in`, so a valid URL stays valid behind any text that opens with the origin, the origin itself included |
| Urls.WholeMatchValid | wu-webscraper.py:127-139 | a whole match passes `validate_url` |
| Urls.StripResultValid | wu-webscraper.py:127-139 | when the pattern matches anywhere, the cut URL passes `validate_url` |
| Urls.StripAtStart | wu-webscraper.py:127-139 | a URL matched from its first character is cut to that match, which is valid |
| Urls.ExampleMatch | wu-webscraper.py:129 | a concrete history URL matches up to its `/date` |
| Urls.StripExample | wu-webscraper.py:120-139 | a concrete history URL with a day after `/date` is cut just after `/date` and then validates |
| Urls.DayUrl | wu-webscraper.py:161 | `f"{url_template}/{date_str}"` is the template, a slash and ten more characters |
| Urls.DayUrlRoundTrip | wu-webscraper.py:160-161 | the per-day URL is the template, a slash and ten characters that parse back to the day |
| Urls.PlanUrls | wu-webscraper.py:149-161 | no URLs (the run stops) exactly when the start is after the end |
| Urls.PlanUrlsShape | wu-webscraper.py:155-161 | for `start <= end`: `(end - start).days + 1` URLs, URL `i` being the page of the day `i` days after `start` |
| Urls.PlanUrlsDistinct | wu-webscraper.py:155-161 | no day is fetched twice: the URLs are pairwise distinct |

## Left out

- `scrape_weather_data` (lines 12-49): Selenium, the browser, the sleep and the page. The model starts from the concatenated table as a `Frame` whose cells are text or missing (`ScrapedCells`).
- `get_valid_date` and `get_valid_url` (lines 110-125): console input loops. The `.rstrip('/')` on the entered URL is not modelled; `strip_url_after_date` and `validate_url` are.
- `main` (lines 141-177): the fetch loop, `pd.concat` of the daily tables, the CSV file and the messages. Its date arithmetic and URL building are modelled as `Urls.PlanUrls`.
- The pandas option on line 10 only silences a warning.
- `datetime.strptime` (lines 53-54, 114): the parsing of the user's text is not modelled; `CleanWeatherData` takes the parsed dates. `ParseIsoDate` reads only the zero-padded form that `strftime` writes, where `strptime` also accepts unpadded months and days.
- Calendar.IsoDate: pads the year to four digits; the C library's `strftime` does not pad years below 1000. `get_valid_date` accepts such a year, so the model's URL for it differs from the one glibc's `strftime` gives; such dates are not expected in practice.
- `pd.to_datetime` (line 84) is a parameter `parse: (Date, string) -> Option<S>`, with None for a text it cannot read (`errors='coerce'`). A failed parse leaves a missing `datetime` cell and does not drop the row, as in the source, since `dropna` runs before it.
- `pd.to_numeric` (line 106): the model stops at the exact decimal the regex matched. Rounding to a float is not modelled.
- Cleaning.CleanWeatherData: requires that the output column names be distinct. pandas allows duplicate labels, and `df[col]` on one returns a frame; that is not modelled.
- Cleaning.ArrangedPipeline: requires the same distinct output column names, for the same reason; a scraped table whose non-measurement headers collide after the renaming is outside it.
- Frame.RenameColumns: requires the renamed labels to be distinct, and `Frame.WellFormed` asks the same of every frame's columns; duplicate labels are outside the whole `Frame` model.
- Cleaning.CleanWeatherData: the source assigns `df['date']` on the caller's frame before rebinding `df`, so the caller's table gains a `date` column. The model works on values and does not capture that side effect.
- In-place updates of the DataFrame (`df[...] = ...`, `rename(inplace=True)`) are modelled as functions returning the new frame that the variable is rebound to.
- Timezones, times of day inside `Date`, and dates outside years 1-9999 are outside the model.
