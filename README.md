# Calendario-Pareja, modelled in Dafny

Calendario-Pareja is a small PHP web application. Each user gives every day a rating from 1 to 5 and an optional note, and sees them on a monthly calendar with statistics. A browser script (assets/js/calendario.js) drives the day dialog. This project models the application's logic in Dafny and proves what that logic promises:

- the month grid the page draws (`generar_estructura_mes`) as a method with three loops, proved equal to a cell-by-cell specification with Gregorian dates and ISO 8601 weekdays;
- the `calendario_datos` table as a class over a sequence of rows with a unique (user, date) key: upsert, delete, the month lookup map and the three statistics queries, with the averages in integer tenths;
- the helpers of includes/functions.php: the 1–5 check, the canonical date check, the two date converters, `sanitizar_entrada` (trim, then `htmlspecialchars` with `ENT_QUOTES`) and the name tables;
- the `$_SESSION` rules: start, inactivity timeout, logout, CSRF token and the authenticated test, as a class over a map;
- the `.env` loader: line parsing, first value wins, prioritised lookup, `getBool`, `getInt`, `has` and `validateRequired`;
- the user table of classes/Usuario.php: login validation, creation, authentication, the session it opens and the current-user lookup;
- the page pages/calendario.php: month and year clamping, previous/next links, the CSRF-guarded save/delete dispatch, the one-shot success message and the rendering of each day button;
- the browser side: `parseInt` with no radix (ECMAScript section 19.2.5), `formatearFecha`, reading the rendered buttons back into `datosCalendario`, and the dialog as a class with its handlers (option click, show, hidden, `limpiarFormulario`, `cargarDatosExistentes`, `validarFormulario`, submit, Eliminar, Limpiar, keyboard).

Dates are the extended calendar-date text `YYYY-MM-DD` of ISO 8601:2004 section 4.1.2.2. Weekdays are numbered Monday = 1 to Sunday = 7, as in ISO 8601:2004 section 4.1.4.

Modules, one file each: `Base` (base.dfy), `Text` (text.dfy: PHP `trim`, `explode`/`implode`, `sprintf('%0Nd')`, `(int)`, `strlen`, `empty`, string order), `Gregorian` (gregorian.dfy), `MonthGrid` (month_grid.dfy), `Helpers` (helpers.dfy), `DayStore` (day_store.dfy), `Statistics` (statistics.dfy), `Session` (session.dfy), `EnvLoading` (env_loader.dfy), `Users` (users.dfy), `CalendarPage` (calendar_page.dfy), `ModalForm` (modal_form.dfy).

### Parameters in place of the environment

- **Clock and today's date:** the clock (`time()`, `NOW()`) is the parameter `now`. Today's date (`date('Y-m-d')`) is the parameter `today`, and the current month and year are `current`.
- **Database:** a statement that fails is the parameter `dbOk = false`. A failed query of the statistics is `dbOk = false` as well.
- **Passwords:** `password_hash` is the parameter `hash`, and `password_verify` is a function parameter `verify`.
- **Random token:** the token `random_bytes` would draw is the parameter `drawn`.
- **`.env` files:** the file contents are `Option<seq<string>>`, where `None` means the file does not exist.
- **Browser input:** the answers to `confirm()`, the page's CSRF token and the key event are parameters.
- **Forms:** a form the script submits is the POST value it sends.

### Behaviour of the source worth knowing

- **Empty statistics are not all zeros:** with no matching rows the statistics query succeeds, `total` becomes 0, and `minimo`, `maximo` and `dias_con_observaciones` stay SQL NULL. The all-zero dictionaries are returned only when the query fails.
- **Notes of spaces do not count:** a note counts when it is not NULL and not `''`. The table's `utf8mb4_unicode_ci` collation ignores trailing spaces, so a note made only of spaces is `''` and does not count (`Statistics.HasNote`). The page trims every note before saving it, so a note it stored is blank only when it is empty (`Statistics.SanitizedNoteBlank`).
- **Rating range differs by layer:** the database constraint allows ratings 1..10, and a doc comment in classes/Calendario.php says the same. The application accepts 1..5, and the model follows the application.
- **Year clamping:** a year outside 2020..2030 is replaced by the current year, and the current year itself is not range-checked.
- **A note of "0" is lost on re-save:** the page draws a tooltip only when PHP's `empty()` is false, so a note that is exactly `0` never reaches the dialog. Saving the day again from the dialog then stores an empty note (`ModalForm.NotesZeroHidden`).
- **Out-of-range stored ratings:** a stored rating outside 1..5 opens the dialog with option 1 selected, since no option matches.
- **Escaping:** `sanitizar_entrada` is not idempotent on `&`, because escaping twice changes the text again.
- **Logout inside the timeout check:** `verificar_timeout_sesion` calls `cerrar_sesion`. In the model that call ends the session with `Destroy`, because the session is already started and `iniciar_sesion_segura` does nothing more.

## Model

| member | source | states |
|---|---|---|
| Text.Trim | includes/functions.php:94 | the result is the input with a run of PHP trim characters removed at each end, and has none left at either end |
| Text.TrimIdempotent | includes/functions.php:94 | trimming twice is trimming once |
| Text.TrimOfTrimmed | includes/functions.php:94 | text with no trim character at either end is left unchanged |
| Text.Split | includes/functions.php:143 | `explode` gives at least one piece, no piece holds the separator, and joining the pieces gives the input back |
| Text.SplitJoin | includes/functions.php:143 | splitting undoes joining when no piece holds the separator |
| Text.FormatInt | includes/functions.php:148 | `sprintf('%0Nd')` of a non-negative number is digits only, at least N wide; a negative one starts with `-` |
| Text.FormatIntFixed | includes/functions.php:148 | zero padding a number that fits in N digits gives exactly its N low digits |
| Text.DigitsOf | assets/js/calendario.js:244 | the decimal text of a number: digits only, no leading zero |
| Text.ValueOfDigitsOf | assets/js/calendario.js:244 | reading the decimal text of `n` back gives `n` |
| Text.ValueOfFixed | includes/functions.php:148 | reading back the N zero-padded digits of `n` gives `n` |
| Text.FixedOfValue | includes/functions.php:148 | re-padding the value of a digit string to its own width gives the string back |
| Text.IntvalOfDigits | includes/env_loader.php:119 | the `(int)` cast reads the run of digits at the front of a string |
| Text.ByteLength | classes/Usuario.php:190 | `strlen` counts UTF-8 bytes: between one and four per character, one exactly for ASCII |
| Text.AsciiLower | includes/env_loader.php:107 | `strtolower` keeps the length |
| Text.LexLeAppend | classes/Calendario.php:32 | byte-wise comparison of two strings with equal-length first parts is decided by those parts, then by the rest |
| Text.FixedLe | classes/Calendario.php:32 | on fixed-width digit fields the byte-wise order is the numeric order |
| Gregorian.DaysInMonth | classes/Calendario.php:157 | `date('t')`: every month has 28 to 31 days |
| Gregorian.IsoWeekday | classes/Calendario.php:158 | `date('N')` gives a weekday from 1 to 7 |
| Gregorian.WeekdayOfNextDay | classes/Calendario.php:158 | the weekday steps by one, Sunday back to Monday, from each day to the next |
| Gregorian.NextMonthStart | classes/Calendario.php:205-213 | the first of the next month is the first of this month plus its number of days |
| Gregorian.KnownWeekdays | classes/Calendario.php:158 | 2024-01-01 was a Monday and 2025-01-01 a Wednesday |
| Gregorian.PrevMonth | classes/Calendario.php:164-170 | the month before is `m - 1`, and January goes to December of the year before |
| Gregorian.NextMonth | classes/Calendario.php:207-213 | the month after is `m + 1`, and December goes to January of the next year |
| Gregorian.PrevNextInverse | pages/calendario.php:94-106 | previous and next month undo each other |
| Gregorian.FormatDateFixed | classes/Calendario.php:179 | a date with a four-digit year prints as ten characters of fixed layout |
| Gregorian.FormatDateDayInjective | classes/Calendario.php:189 | in one month, different days print differently |
| Gregorian.FormatDateLe | classes/Calendario.php:29-33 | printed dates compare as text exactly as they compare in time |
| Gregorian.DashedLe | classes/Calendario.php:29-33 | texts of three dash-joined fields, of equal widths on both sides, compare field by field |
| MonthGrid.LeadCount | classes/Calendario.php:158-175 | the previous-month padding is 0 to 6 cells |
| MonthGrid.MonthLength | classes/Calendario.php:157 | the month shown has 28 to 31 days |
| MonthGrid.PrevMonthLength | classes/Calendario.php:164-172 | the previous month has 28 to 31 days |
| MonthGrid.TrailCount | classes/Calendario.php:206-227 | the next-month padding is 0 to 6 cells |
| MonthGrid.CellCount | classes/Calendario.php:160-232 | the grid is whole weeks, 28 to 42 cells, and the last week holds at least one day of the month |
| MonthGrid.WholeWeeks | classes/Calendario.php:206-227 | padding 0..6 leading cells plus 28..31 days up to a multiple of seven gives four to six whole weeks, the last one not all padding |
| MonthGrid.GridCells | classes/Calendario.php:155-233 | the specification has exactly `CellCount` cells |
| MonthGrid.LeadingCell | classes/Calendario.php:164-183 | leading cells are the last days of the previous month, in order up to its last day, never in the month, never today |
| MonthGrid.MonthCell | classes/Calendario.php:185-196 | cell `k` of the month is day `k - lead + 1` with its own printed date, and it is today exactly when that date is today |
| MonthGrid.TrailingCell | classes/Calendario.php:205-227 | trailing cells are days 1, 2, … of the next month, never in the month, never today |
| MonthGrid.LeadingDays | classes/Calendario.php:175-183 | the first loop builds exactly the leading cells of the specification |
| MonthGrid.MonthDays | classes/Calendario.php:188-203 | the second loop flushes only full weeks of seven cells and leaves fewer than seven behind, all matching the specification |
| MonthGrid.TrailingDays | classes/Calendario.php:206-230 | the third loop fills the last week to exactly seven cells, matching the specification |
| MonthGrid.BuildMonth | classes/Calendario.php:155-233 | the result is four to six weeks of seven cells that, laid end to end, are the specified cells; the first and last weeks hold days of the month |
| MonthGrid.InMonthCells | classes/Calendario.php:188-196 | exactly the cells `lead .. lead + len - 1` belong to the month, and they show days 1 .. len with their own dates |
| MonthGrid.TodayCells | classes/Calendario.php:181-223 | a cell is today if and only if it is in the month with today's date; at most one cell is today, and one is exactly when today falls in the month |
| MonthGrid.TodayCellsIff | classes/Calendario.php:181-223 | a cell is today if and only if it is in the month with today's date, and then it is the cell of that day |
| MonthGrid.TodayCellsUnique | classes/Calendario.php:185-196 | no two cells are today |
| MonthGrid.TodayCellsExist | classes/Calendario.php:185-196 | some cell is today exactly when today is the printed date of a day of the month |
| MonthGrid.TrailingPadding | classes/Calendario.php:205-230 | there is no trailing padding exactly when the month ends on a Sunday |
| MonthGrid.MktimeMonthLength | classes/Calendario.php:156-157 | outside `mktime`'s two-digit year range, month lengths agree in both readings of the year |
| MonthGrid.CellDateContiguous | classes/Calendario.php:155-233 | the cells show consecutive real days, and cell `k` falls on weekday `k mod 7 + 1` |
| MonthGrid.WeekColumn | classes/Calendario.php:199-202 | cell `j` of week `i` is cell `7i + j`, and it falls on weekday `j + 1`, Monday first |
| MonthGrid.WeekCell | classes/Calendario.php:199-202 | the weeks laid end to end are the view, so cell `j` of week `i` is cell `7i + j` |
| MonthGrid.CellWeekday | classes/Calendario.php:155-233 | cell `7i + j` falls on ISO weekday `j + 1` |
| Helpers.ValidNumberIff | includes/functions.php:194-196 | `validar_numero_1_a_5` accepts exactly the values equal to one of the integers 1 to 5 |
| Helpers.ValidFractionIsInteger | includes/functions.php:194-196 | an accepted float is a whole number from 1 to 5 |
| Helpers.IntegerFractionIsValid | includes/functions.php:194-196 | every whole float from 1 to 5 is accepted |
| Helpers.ValidNumberExamples | includes/functions.php:194-196 | 0, 6 and 2.5 are rejected; 3 and 3.0 are accepted |
| Helpers.ValidDateIff | includes/functions.php:128-131 | `validar_fecha` accepts exactly the printed real dates with years 0 to 9999 |
| Helpers.ValidDateIsPrinted | includes/functions.php:128-131 | an accepted text is the printing of the real date its three fields spell, with a year of at most four digits |
| Helpers.ValidDateOfFields | includes/functions.php:128-131 | four, two and two digits that spell a real date, joined by dashes, are accepted |
| Helpers.PrintedDateIsValid | includes/functions.php:128-131 | every printed real date with a four-digit year is accepted |
| Helpers.ValidDateExamples | includes/functions.php:128-131 | 2024-02-29 is accepted, 2023-02-29 and an unpadded month are not |
| Helpers.InMonthRange | classes/Calendario.php:26-32 | for a valid date, lying between the first and last day of a month as text means being a day of that month |
| Helpers.InYearRange | classes/Calendario.php:318-329 | for a valid date, lying between `Y-01-01` and `Y-12-31` means being a day of year `Y` |
| Helpers.DateEsToMysql | includes/functions.php:138-149 | the result is empty if and only if the input is empty by PHP's `empty()` or does not have exactly three `/` parts |
| Helpers.DateMysqlToEs | includes/functions.php:156-167 | the result is empty if and only if the input is empty by PHP's `empty()` or does not have exactly three `-` parts |
| Helpers.IntvalOfFixed | includes/functions.php:148 | `(int)` reads a zero-padded field back |
| Helpers.EsToMysqlOfText | includes/functions.php:138-149 | `dd/mm/yyyy` with fixed-width fields converts to the `yyyy-mm-dd` of the same date |
| Helpers.MysqlToEsOfDate | includes/functions.php:156-167 | `yyyy-mm-dd` with fixed-width fields converts to the `dd/mm/yyyy` of the same date |
| Helpers.EsMysqlRoundTrip | includes/functions.php:138-167 | a well-formed `dd/mm/yyyy` converts to the matching `yyyy-mm-dd` and back to itself |
| Helpers.MysqlEsRoundTrip | includes/functions.php:138-167 | a well-formed `yyyy-mm-dd` converts to the matching `dd/mm/yyyy` and back to itself |
| Helpers.HtmlEscape | includes/functions.php:94 | the result has no raw `< > " '`, is no shorter, and starts and ends as the first and last characters demand |
| Helpers.UnescapeEscape | includes/functions.php:94 | decoding the five entities gives the escaped text back |
| Helpers.EscapePlain | includes/functions.php:94 | text with none of the five escaped characters is left unchanged |
| Helpers.Sanitize | includes/functions.php:88-98 | strings stay strings, non-string scalars are returned unchanged, and arrays keep their length |
| Helpers.SanitizeArray | includes/functions.php:89-91 | an array keeps its keys in order and each value is sanitized on its own |
| Helpers.SanitizeString | includes/functions.php:93-94 | a sanitized string has no raw `< > " '`, no trim character at either end, and decodes to the trimmed input |
| Helpers.EscapeEdges | includes/functions.php:94 | escaping adds no whitespace at either end |
| Helpers.EscapeGrows | includes/functions.php:94 | a string holding one of `& < > " '` grows when escaped and gains an `&` |
| Helpers.SanitizeNotIdempotent | includes/functions.php:88-98 | sanitizing twice differs from sanitizing once when the trimmed text holds an escaped character |
| Helpers.EscapeTwice | includes/functions.php:94 | escaping text that holds an escaped character, having trimmed it, makes it longer again |
| Helpers.MonthNames | includes/functions.php:173-179 | the month table has exactly the keys 1 to 12, from Enero to Diciembre |
| Helpers.WeekdayNames | includes/functions.php:185-187 | the weekday table has seven names, from Lunes to Domingo |
| DayStore.UniqueCons | install_.php:70 | a row in front of a table keeps the key unique exactly when its key is not yet in the table |
| DayStore.Find | classes/Calendario.php:64-85 | `obtener_datos_dia` finds no row if and only if no row holds the key; a row found holds it |
| DayStore.FindUnique | classes/Calendario.php:64-85 | under the unique key, the row found is the one row holding the key |
| DayStore.Updated | classes/Calendario.php:102-106 | the `UPDATE` keeps the number of rows |
| DayStore.Removed | classes/Calendario.php:133-138 | a row survives the delete if and only if it does not hold the key |
| DayStore.UpsertedKey | classes/Calendario.php:95-116 | after a save exactly one row holds the key, with the new rating, notes and modification time, keeping its creation time |
| DayStore.UpsertedOthers | classes/Calendario.php:95-116 | a save leaves every row of another key in place and adds at most one row, of this key |
| DayStore.UpsertedIdempotent | classes/Calendario.php:95-116 | saving the same data again changes nothing |
| DayStore.RemovedKey | classes/Calendario.php:133-138 | after a delete no row holds the key and the key stays unique |
| DayStore.RemovedIdempotent | classes/Calendario.php:133-138 | deleting twice is deleting once |
| DayStore.DayTable.constructor | install_.php:70 | the table starts empty with a unique key |
| DayStore.DayTable.SaveDay | classes/Calendario.php:95-125 | `guardar_datos_dia` returns whether the statement reached the database, and then the rows are the upsert of the old rows; otherwise they are unchanged |
| DayStore.DayTable.DeleteDay | classes/Calendario.php:133-147 | `eliminar_datos_dia` returns whether the statement reached the database, and then the key's rows are removed; otherwise nothing changes |
| DayStore.DayMap | classes/Calendario.php:37-44 | the map has an entry for a date if and only if some selected row has that date |
| DayStore.SelectRange | classes/Calendario.php:29-33 | a row is selected if and only if it belongs to the user and its date lies in the range |
| DayStore.DayMapValue | classes/Calendario.php:39-44 | with one row per date, each entry holds that row's rating and notes |
| DayStore.SelectRangeKeys | classes/Calendario.php:29-33 | the selection keeps the key unique |
| DayStore.SelectRangeUnique | classes/Calendario.php:29-33 | the selected rows have distinct dates |
| DayStore.MonthDataSpec | classes/Calendario.php:24-47 | `obtener_datos_mes` has an entry for a date if and only if the user has a row there inside the month's range, and the entry is that row's data |
| DayStore.RangeDataSpec | classes/Calendario.php:29-44 | for any range, the map has an entry for a date if and only if the user has a row there inside the range, and the entry is that row's data |
| DayStore.SelectedRow | classes/Calendario.php:29-44 | every map entry comes from the user's stored row of that date |
| DayStore.MonthDataDays | classes/Calendario.php:24-47 | for a valid date, the map has an entry if and only if the user has a row there and the date is a day of the month |
| DayStore.ValidateData | classes/Calendario.php:241-255 | `validar_datos` gives the number error and then the date error; none exactly when both checks pass |
| Statistics.Values | classes/Calendario.php:271 | the rating column of the selected rows, in order |
| Statistics.MinOf | classes/Calendario.php:272 | SQL `MIN` is NULL over no rows, otherwise the smallest value present |
| Statistics.MaxOf | classes/Calendario.php:273 | SQL `MAX` is NULL over no rows, otherwise the largest value present |
| Statistics.NotedCount | classes/Calendario.php:274 | the count of rows with a note is zero if and only if no row has one, and the full count if and only if every row has one |
| Statistics.SumLower | classes/Calendario.php:271 | values at least `lo` sum to at least `lo` times their count |
| Statistics.SumUpper | classes/Calendario.php:271 | values at most `hi` sum to at most `hi` times their count |
| Statistics.RoundTenths | classes/Calendario.php:337 | `round(n / d, 1)` in tenths rounds to the nearest tenth, halves away from zero |
| Statistics.RoundTenthsUnique | classes/Calendario.php:337 | only one value meets the rounding bounds |
| Statistics.RoundTenthsExamples | classes/Calendario.php:337 | 13/12 shows 1.1, 100/3 shows 33.3, 1/4 rounds up to 0.3 and -1/4 down to -0.3 |
| Statistics.NullToZero | classes/Calendario.php:283 | a NULL sum becomes 0 and any other is kept |
| Statistics.Aggregate | classes/Calendario.php:269-283 | the count is the number of rows; no rows give `total` 0 and NULL for the rest; otherwise minimum ≤ maximum and the note count is at most the row count |
| Statistics.MonthStatistics | classes/Calendario.php:264-307 | a failed query gives the all-zero dictionary; otherwise the count is the number of the user's rows in the month |
| Statistics.MonthlyAverage | classes/Calendario.php:337 | `promedio_mensual` is 0 for a zero total, otherwise the total over 12 rounded to tenths, halves away from zero |
| Statistics.MonthlyAverageTie | classes/Calendario.php:337 | a total of 3, a monthly 0.25, rounds to 0.3, and -3 to -0.3 |
| Statistics.YearStatistics | classes/Calendario.php:316-363 | a failed query gives zeros; otherwise the count is the number of the user's rows in the year, with no average when the total is 0 |
| Statistics.UserRows | classes/Calendario.php:379 | a row is selected if and only if it belongs to the user |
| Statistics.Years | classes/Calendario.php:376-377 | `YEAR(fecha)` of each selected row |
| Statistics.YearsWithData | classes/Calendario.php:389-392 | the count of years is last − first + 1 when both are truthy, otherwise 0 |
| Statistics.YearlyAverage | classes/Calendario.php:395-396 | `promedio_anual` is the total over the years rounded to tenths when both are positive, otherwise 0 |
| Statistics.TotalStatistics | classes/Calendario.php:371-421 | a failed query gives zeros and NULL years; otherwise the count is the user's rows, and the years are NULL exactly when there are none |
| Statistics.MonthStatisticsNoRows | classes/Calendario.php:281-306 | with no rows the query gives `total` 0 and NULL aggregates, which differs from the failure dictionary |
| Statistics.AggregateBounds | classes/Calendario.php:269-274 | with ratings 1..5, the total lies between the count and five times the count, and min and max bound every rating |
| Statistics.YearRange | classes/Calendario.php:376-377 | over stored years 0..9999, `MIN` and `MAX` exist, are in order and stay in range |
| Statistics.NotedDaysCount | classes/Calendario.php:274 | a note counts exactly when it is present and not `''` in the PAD SPACE collation, that is, when it holds a character other than a space |
| Statistics.SanitizedNoteBlank | pages/calendario.php:55 | a note the page sanitised is equal to `''` in the collation only when it is empty |
| Statistics.MonthRowsSpec | classes/Calendario.php:266-277 | for stored dates, the month statistics cover exactly the user's rows on days of that month |
| Statistics.YearRowsSpec | classes/Calendario.php:318-329 | for stored dates, the year statistics cover exactly the user's rows in that year |
| Statistics.DayMapSize | classes/Calendario.php:39-44 | rows with distinct dates give as many map entries as rows |
| Statistics.MonthCountMatchesMap | classes/Calendario.php:24-47 | `total_dias` of the month equals the number of entries of the month map |
| Statistics.YearOfValidDate | classes/Calendario.php:376-377 | `YEAR` of a stored date is its four-digit year |
| Statistics.TotalStatisticsYears | classes/Calendario.php:371-396 | for valid stored dates, first year ≤ last year ≤ 9999, the year count is 1..9999, and `promedio_anual` is the total over that count in tenths; no rows give 0 |
| Session.AfterTimeoutCheck | includes/functions.php:53-59 | an expired session becomes inactive and empty; otherwise every entry is kept and the access time becomes now |
| Session.AfterStart | includes/functions.php:12-29 | starting a session that is already started changes nothing |
| Session.WithCsrf | includes/functions.php:114-120 | an existing token is kept; otherwise the drawn token is stored and nothing else changes |
| Session.TimeoutBoundary | includes/functions.php:54 | exactly `SESSION_TIMEOUT` seconds of inactivity is not expired, one more second is |
| Session.StartExpired | includes/functions.php:12-57 | starting an expired session ends it, empty and logged out |
| Session.StartFresh | includes/functions.php:12-58 | starting a live session keeps every entry and whether it is authenticated, and refreshes the access time |
| Session.RestartAfterExpiry | includes/functions.php:12-81 | after an expiry, the next start opens a fresh session holding only the marker and the access time |
| Session.CsrfRoundTrip | includes/functions.php:105-120 | the token `generar_csrf` returns validates and is the only one that does, and asking again returns the same token |
| Session.Store.constructor | includes/functions.php:12-18 | a saved session, not yet started |
| Session.Store.Start | includes/functions.php:12-29 | `iniciar_sesion_segura` leaves the session as `AfterStart` says |
| Session.Store.VerifyTimeout | includes/functions.php:53-59 | `verificar_timeout_sesion` leaves the session as `AfterTimeoutCheck` says |
| Session.Store.Destroy | includes/functions.php:67-80 | the session is emptied and ended |
| Session.Store.Close | includes/functions.php:64-81 | `cerrar_sesion` always ends with an empty, inactive session |
| Session.Store.IsAuthenticated | includes/functions.php:35-38 | after starting the session, the result is whether both the user id and name are set |
| Session.Store.ValidateCsrf | includes/functions.php:105-108 | after starting the session, the result is whether a token is stored and equals the given one |
| Session.Store.GenerateCsrf | includes/functions.php:114-120 | after starting the session, the stored token is kept or the drawn one stored, and that token is returned |
| EnvLoading.Unquote | includes/env_loader.php:140-149 | the value is unchanged, or it had a matching pair of quotes and exactly that pair was removed |
| EnvLoading.ParseLine | includes/env_loader.php:36-45 | `#` lines and lines without `=` give nothing; a key never holds `=` |
| EnvLoading.ParseAtFirstEquals | includes/env_loader.php:41-48 | a line is cut at its first `=`, giving the trimmed key and the trimmed, unquoted value, which may hold `=` |
| EnvLoading.UnquoteMatching | includes/env_loader.php:136-150 | one enclosing pair of matching quotes is removed, and only one |
| EnvLoading.KeepMismatched | includes/env_loader.php:136-150 | mismatched quotes are kept |
| EnvLoading.Parsed | includes/env_loader.php:34-48 | each line gives its own parse, in order |
| EnvLoading.ApplyAllKeeps | includes/env_loader.php:51-55 | keys already in `$_ENV` or `$_SERVER` keep their values |
| EnvLoading.ApplyAllDomain | includes/env_loader.php:51-55 | a key not in `$_SERVER` ends up defined exactly when it was defined before or some line gives it |
| EnvLoading.ApplyAllFirstWins | includes/env_loader.php:51-55 | for a new key, the first entry giving it decides its value |
| EnvLoading.LoadedKeeps | includes/env_loader.php:34-57 | `load` never overwrites `$_ENV` or `$_SERVER` |
| EnvLoading.LoadedFirstWins | includes/env_loader.php:34-57 | for a new key, the first line that gives it decides its value in `$_ENV` and `$_SERVER` |
| EnvLoading.LoadedUndefined | includes/env_loader.php:34-57 | a key that nobody defined and no line gives stays undefined |
| EnvLoading.IgnoredLines | includes/env_loader.php:36-41 | a comment line or a line without `=` changes nothing |
| EnvLoading.EnvLoader.constructor | includes/env_loader.php:7 | the loader over the three given maps |
| EnvLoading.EnvLoader.Load | includes/env_loader.php:14-67 | `load` returns false exactly when neither `.env` nor `.env.local` exists, and then nothing changes; otherwise the state is the first existing file's lines applied in order |
| EnvLoading.EnvLoader.ApplyEntry | includes/env_loader.php:51-55 | one parsed line updates `$_ENV`, `$_SERVER` and the environment as `Apply` says, leaving keys already in `$_ENV` or `$_SERVER` alone |
| EnvLoading.EnvLoader.Get | includes/env_loader.php:75-91 | `get` looks in `$_ENV`, then `$_SERVER`, then the environment, then gives the default |
| EnvLoading.EnvLoader.HasIff | includes/env_loader.php:127-129 | `has` holds if and only if one of the three maps defines the key |
| EnvLoading.EnvLoader.GetBool | includes/env_loader.php:99-109 | a missing key gives the default; a defined one is true exactly when its trimmed, lower-cased value is loosely (PHP 8 `==`) one of `true`, `1`, `yes`, `on` |
| EnvLoading.InArrayLoose | includes/env_loader.php:108 | `in_array` without the strict flag holds exactly when some element is loosely equal to the needle |
| EnvLoading.LooseWithText | includes/env_loader.php:107-108 | against a text that is not numeric, PHP 8 `==` is plain equality of texts |
| EnvLoading.LooseWithNumber | includes/env_loader.php:107-108 | against a numeric text, PHP 8 `==` holds exactly when the other text is numeric with the same value |
| EnvLoading.NumericOfDigits | includes/env_loader.php:107-108 | a run of digits is a numeric string whose value is those digits |
| EnvLoading.NumericOfPoint | includes/env_loader.php:107-108 | digits, a point and digits form a numeric string scaled down by the digits after the point |
| EnvLoading.NumericOfExponent | includes/env_loader.php:107-108 | digits, `e`, an optional `-` and digits form a numeric string scaled by that power of ten |
| EnvLoading.LetterStart | includes/env_loader.php:107-108 | a text starting with a letter other than `e` is not numeric, so `true`, `yes` and `on` compare as text |
| EnvLoading.StripSpaced | includes/env_loader.php:107-108 | white space around a numeric string does not change it |
| EnvLoading.PlusKeepsValue | includes/env_loader.php:107-108 | a leading `+` does not change a numeric string's value |
| EnvLoading.MinusNeverOne | includes/env_loader.php:107-108 | a numeric string written with `-` is never equal to one |
| EnvLoading.DecimalIsOne | includes/env_loader.php:107-108 | a numeric value is one exactly when it is positive and its digits are one followed by as many zeros as its scale removes |
| EnvLoading.BoolOfIff | includes/env_loader.php:106-108 | a text is true for `getBool` exactly when, trimmed and lower-cased, it is `true`, `yes`, `on` or a numeric string whose value is one |
| EnvLoading.BoolOfNumberText | includes/env_loader.php:106-108 | a text of digits and points is true exactly when it is numeric with value one |
| EnvLoading.LeadingZerosAreOne | includes/env_loader.php:107-108 | `0…01` is a numeric string with the value one |
| EnvLoading.TrailingZerosAreOne | includes/env_loader.php:107-108 | `1.0…0` is a numeric string with the value one |
| EnvLoading.ScaledDownIsOne | includes/env_loader.php:107-108 | `10…0e-k` with `k` zeros is a numeric string with the value one |
| EnvLoading.LeadingZerosTrue | includes/env_loader.php:106-108 | `getBool` takes `0…01` for true although it is not in the word list |
| EnvLoading.TrailingZerosTrue | includes/env_loader.php:106-108 | `getBool` takes `1.0…0` for true although it is not in the word list |
| EnvLoading.EnvLoader.GetInt | includes/env_loader.php:117-120 | a missing key gives the default; a defined one gives the `(int)` cast of its value |
| EnvLoading.EnvLoader.MissingKeys | includes/env_loader.php:158-164 | a key is missing if and only if it is required and `has` rejects it |
| EnvLoading.EnvLoader.ValidateRequired | includes/env_loader.php:157-169 | an error exactly when a required key is undefined, with the missing keys listed in input order |
| Users.UserNameErrors | classes/Usuario.php:188-192 | an empty name gives only the "obligatorio" error, a short non-empty one only the length error, and a name of at least 3 bytes none |
| Users.PasswordErrors | classes/Usuario.php:194-198 | an empty password gives only the "obligatoria" error, a short non-empty one only the length error, and one of at least 6 bytes none |
| Users.ValidateLogin | classes/Usuario.php:185-201 | at most two errors, the user-name error first; none exactly when the name has at least 3 bytes and the password at least 6 |
| Users.LoginErrorOrder | classes/Usuario.php:185-201 | when the name is too short, its error comes first, and a second error is there exactly when the password is short |
| Users.ByteLengthCounts | classes/Usuario.php:190 | lengths count bytes: "ñá" is four bytes and passes |
| Users.FindActiveByName | classes/Usuario.php:25-31 | the first active user with the name, or none exactly when there is none |
| Users.FindActiveById | classes/Usuario.php:94-101 | an active user with the id, or none exactly when there is none |
| Users.LoggedIn | classes/Usuario.php:58-64 | after `crear_sesion` the session is authenticated with the user's id, name and access time |
| Users.UserTable.constructor | classes/Usuario.php:10-15 | an empty user table |
| Users.UserTable.Create | classes/Usuario.php:120-177 | `crear_usuario` succeeds exactly when the name is new and the database answers, and then appends one active user with the next id; otherwise nothing changes |
| Users.UserTable.Authenticate | classes/Usuario.php:23-52 | success exactly for the first active user of the name whose password verifies; the result has no hash, only that user's last access becomes now, and ids and names stay unique |
| Users.UserTable.CreateSession | classes/Usuario.php:58-68 | the session is started and then holds the user and the access time |
| Users.UserTable.Current | classes/Usuario.php:88-113 | nobody unless the session is authenticated; otherwise the active user with the session's id, if the query answers |
| Users.AuthenticatedIsActive | classes/Usuario.php:25-32 | the user `autenticar` picks is active and has the given name |
| Users.FindActiveByNameUnique | classes/Usuario.php:25-31 | with unique names, the user found is the only one with that name |
| Users.SessionLifecycle | classes/Usuario.php:58-64 | after `crear_sesion` the session is authenticated, after `cerrar_sesion` it is not |
| CalendarPage.ClampMonth | pages/calendario.php:27-32 | the month parameter is used when it casts to 1..12, otherwise the current month |
| CalendarPage.ClampYear | pages/calendario.php:26-35 | the year parameter is used when it casts to 2020..2030, otherwise the current year |
| CalendarPage.ClampedInRange | pages/calendario.php:26-35 | the month shown is 1..12; the year is 2020..2030 or the current one; "13" falls back to the current month |
| CalendarPage.NavigationLinks | pages/calendario.php:94-106 | January's previous month is December of the year before, December's next is January of the next year, otherwise ±1, and the two undo each other |
| CalendarPage.SanitizedField | pages/calendario.php:52-55 | a missing field reads as `''`, and every field is trimmed and escaped |
| CalendarPage.PlainSanitized | pages/calendario.php:52-55 | plain text with no trim character at either end is read unchanged |
| CalendarPage.ReadPost | pages/calendario.php:52-55 | the action, date and notes are sanitized, and the rating is the `(int)` cast of the field or 0 |
| CalendarPage.KindOf | pages/calendario.php:57-73 | the action is a save exactly when it is `guardar_dia` and a delete exactly when it is `eliminar_dia` |
| CalendarPage.HandlePost | pages/calendario.php:47-84 | the outcome, the table and the session are those of the dispatch rule on the old table and session |
| CalendarPage.PerformAction | pages/calendario.php:57-82 | the outcome, the table and the session are those the accepted action gives |
| CalendarPage.PerformSave | pages/calendario.php:57-66 | a save with valid data is written, the success message is put in the session, and the page redirects |
| CalendarPage.DispatchAccepted | pages/calendario.php:47-55 | with an action and a matching token, the page performs the request read from the POST |
| CalendarPage.CsrfGuardsChanges | pages/calendario.php:49-50 | without a matching token nothing is written and the session is unchanged, and an action gets the token error |
| CalendarPage.RedirectIffWritten | pages/calendario.php:57-82 | the page redirects exactly when a valid save or a delete reached the database; then only the success message is added, and otherwise nothing changes |
| CalendarPage.SavedDayIsValid | pages/calendario.php:57-66 | a save that redirects stored a rating 1..5 at a valid date, as the single row of the key |
| CalendarPage.DeletedDayIsGone | pages/calendario.php:73-78 | a delete that redirects leaves no row for the date |
| CalendarPage.TakeSuccessMessage | pages/calendario.php:41-44 | the success message is returned once and removed from the session |
| CalendarPage.SaveNeedsValidData | pages/calendario.php:54-61 | a missing or zero rating, or a date that is not canonical, never saves |
| CalendarPage.RenderCell | pages/calendario.php:244-262 | `otro-mes`, `hoy` and `con-datos` follow the cell and the month map; the value shows exactly with data; the tooltip shows exactly for a note that is not `empty()`, escaped |
| CalendarPage.CellShowsStoredDay | pages/calendario.php:247-260 | a cell shows data exactly when the user has a row for its date inside the month, and then shows that row's rating |
| ModalForm.ParseIntOfDigits | assets/js/calendario.js:39 | `parseInt` reads a run of decimal digits up to the first character that is not one |
| ModalForm.ParseIntSkipsSpace | assets/js/calendario.js:39 | leading white space is skipped |
| ModalForm.ParseIntNaN | assets/js/calendario.js:39 | a text that starts with no space, sign or digit gives NaN |
| ModalForm.ParseIntShow | assets/js/calendario.js:39 | `parseInt` reads back every integer written out in decimal |
| ModalForm.MonthAt | assets/js/calendario.js:229-244 | `meses[k - 1]` is the month name for 1..12 and `undefined` otherwise |
| ModalForm.DisplayDateOfDate | assets/js/calendario.js:227-245 | a printed date shows as the day without leading zero, the month's name and the four-digit year |
| ModalForm.DisplayDateNoDashes | assets/js/calendario.js:227-245 | text without dashes shows as "NaN de undefined de" followed by the text |
| ModalForm.ButtonOf | pages/calendario.php:244-262 | a drawn button keeps the cell's date and carries data and a value exactly when the map has the date; its title is the drawn attribute as the HTML parser reads it, newlines and NULs normalized and entities decoded |
| ModalForm.Buttons | pages/calendario.php:242-263 | one button per cell, in order |
| ModalForm.Scraped | assets/js/calendario.js:30-43 | `datosCalendario` has an entry for a date if and only if some button with data and a value has that date |
| ModalForm.EntryOfButton | assets/js/calendario.js:33-41 | a drawn button with data gives the stored rating and the stored note, trimmed and with CR LF, CR and NUL normalized by the parser, unless `empty()` |
| ModalForm.ParserNormalizedPlain | assets/js/calendario.js:35 | the parser leaves a title without CR or NUL as it is |
| ModalForm.ParserNormalizedClean | assets/js/calendario.js:35 | a title the script reads holds no CR and no NUL |
| ModalForm.ParserNormalizedIdempotent | assets/js/calendario.js:35 | normalizing the newlines twice is normalizing them once |
| ModalForm.NormalizedEscape | pages/calendario.php:252 | the parser's normalization commutes with `htmlspecialchars`, so the decoded title is the normalized note |
| ModalForm.CrLfNoteShown | assets/js/calendario.js:35 | a stored note of two lines joined by CR LF reaches `datosCalendario` joined by LF |
| ModalForm.FormNewlinesNormalized | pages/calendario.php:378-403 | the CR LF a form submission writes for each newline is read back by the parser as the original newline |
| ModalForm.TypedNoteRoundTrip | pages/calendario.php:378-403 | a note typed into the textarea, which holds no CR or NUL, is unchanged by the submission's CR LF followed by the parser's normalization |
| ModalForm.ScrapedValue | assets/js/calendario.js:30-43 | the entry for a date holds the stored rating and the stored note of that date as the parser hands it over |
| ModalForm.ScrapedRendered | assets/js/calendario.js:30-43 | `datosCalendario` has a date exactly when the month map has it and the grid shows it, with the stored rating and the stored note as the parser hands it over |
| ModalForm.NotesZeroHidden | pages/calendario.php:250 | a note that is exactly "0" never reaches the dialog, while " 0 " arrives as "0" |
| ModalForm.OptionFor | assets/js/calendario.js:184-186 | an option matches exactly the texts "1" to "5", and it is the option of that number |
| ModalForm.OptionForNumber | assets/js/calendario.js:184-186 | the option found for a number is the one with that number when it is 1..5, otherwise none |
| ModalForm.FormErrors | assets/js/calendario.js:204-220 | at most two errors, none exactly when both fields are filled, one per empty field, the number error first |
| ModalForm.Stacked | assets/js/calendario.js:260-262 | each alert goes on top, so the last one emitted shows first, above the earlier ones |
| ModalForm.AlertOrder | assets/js/calendario.js:204-262 | with both fields empty, the date alert ends up above the number alert |
| ModalForm.ShortcutKeys | assets/js/calendario.js:347-349 | the one-character keys that pass the string test are the digits 1 to 5, and each selects its own option |
| ModalForm.DayDialog.constructor | assets/js/calendario.js:26-43 | the page loads with `datosCalendario` read from the buttons and an empty dialog |
| ModalForm.DayDialog.Select | assets/js/calendario.js:46-59 | clicking option `k` selects it alone and copies its value into the number field; nothing else changes |
| ModalForm.DayDialog.Clear | assets/js/calendario.js:159-175 | `limpiarFormulario` empties the number and notes, clears the selection and validation, and hides Eliminar |
| ModalForm.DayDialog.LoadExisting | assets/js/calendario.js:182-198 | `cargarDatosExistentes` selects the matching option if there is one, loads non-empty notes, and shows Eliminar |
| ModalForm.DayDialog.Show | assets/js/calendario.js:62-84 | opening sets the title and date, shows Eliminar if and only if the date has data, loads its note, and selects its rating when 1..5, otherwise option 1 |
| ModalForm.DayDialog.Hidden | assets/js/calendario.js:87-89 | closing clears the form |
| ModalForm.DayDialog.Validate | assets/js/calendario.js:204-220 | the result is true exactly when there are no errors, and the errors are stacked on the alerts; nothing else changes |
| ModalForm.DayDialog.Submit | assets/js/calendario.js:92-100 | the form is sent exactly when it validates, as the save POST of the dialog's fields |
| ModalForm.DayDialog.DeleteClicked | assets/js/calendario.js:103-121 | once confirmed, a delete of the dialog's date is sent, and only then |
| ModalForm.DayDialog.ClearClicked | assets/js/calendario.js:124-154 | unconfirmed does nothing; confirmed clears the form, then sends a delete if the date had data and otherwise shows the message |
| ModalForm.DayDialog.KeyDown | assets/js/calendario.js:339-369 | Escape hides; 1..5 outside the notes select their option; Enter outside the notes submits exactly when the form validates |
| ModalForm.DateCharacters | classes/Calendario.php:189 | a printed date is ten digits and dashes with a digit at each end |
| ModalForm.SanitizedDate | pages/calendario.php:53 | a printed date goes through `sanitizar_entrada` unchanged |
| ModalForm.SaveActionPlain | pages/calendario.php:52 | the action `guardar_dia` goes through `sanitizar_entrada` unchanged |
| ModalForm.ReadSavePost | pages/calendario.php:52-55 | the server reads the Guardar form as a save of the selected rating, with the notes as submitted, newlines written as CR LF |
| ModalForm.SelectedNumberRead | pages/calendario.php:54 | a selected option's value casts back to its rating |
| ModalForm.SavePostRequest | pages/calendario.php:52-55 | for a printed date, the Guardar form reads back as a save of that date with the selected rating and the submitted notes |
| ModalForm.SavePostAccepted | pages/calendario.php:47-50 | the Guardar form carries the page's token, so it passes the token check when the session holds that token |
| ModalForm.DialogSaveAccepted | pages/calendario.php:57-66 | such a save of a real date with a rating 1..5 is written as the upsert, with the success message and a redirect |

## Left out

- **Output of the pages:** HTML output, HTTP headers, redirects and `exit`. A redirect is the outcome `Redirected`, and the page body is reduced to what each day button shows.
- **Statistics panel:** how pages/calendario.php displays the statistics, beyond the values themselves.
- **Database layer:** includes/database.php (the PDO singleton, SQL text, transactions). The tables are sequences of rows. A failed statement is `dbOk = false`, and the `DEBUG_MODE` branches that rethrow are modelled as the failure result.
- **Database collation:** the model compares dates byte-wise and matches user names exactly. The database's collation, with its case and accent folding, is not modelled. The one exception is `observaciones != ''`, where the collation's padding of trailing spaces is modelled. Characters the collation ignores entirely are not modelled there either.
- DayStore.DayTable.DeleteDay: `DATE(fecha) = ?` converts the date parameter to a DATE, so a text such as `2024-2-5` or `2024/02/05` deletes the row of 2024-02-05 in the source. The model matches the date key as exact text. `guardar_datos_dia` has the same gap: its lookup and `UPDATE` use the same condition, and its `INSERT` converts the text the same way.
- **Concurrency:** requests are modelled one at a time. Two concurrent first saves of one day both find no row between the `SELECT` and the `INSERT`, and the unique key on (user, date) makes one of them fail (classes/Calendario.php:95-116). The model does not capture this race.
- **Other files:** install_.php, verificar_sistema.php, debug_produccion.php, config_desarrollo.php, env.php, includes/config.php, index.php and pages/logout.php are not part of this model. They hold schema creation, diagnostics, configuration, the login page and logout. The only fact taken from them is the unique (user, date) key of install_.php:70.
- **`requerir_autenticacion`:** it only sends a header and exits, so it is not modelled.
- **`mostrar_error` and `mostrar_exito`:** they print HTML, so they are not modelled.
- **PHP session internals:** `session_start`, `session_regenerate_id`, `configurar_sesiones_seguras`, `session_name` and the session cookie. The model keeps only the `$_SESSION` map and whether the session is started.
- **`actualizar_ultimo_acceso` failure:** a failure of this update is ignored by the source. The model always updates.
- **Date library functions:** `mktime`, `date`, `strtotime` and `DateTime::createFromFormat` are replaced by the Gregorian functions. `validar_fecha` is modelled for four-digit years.
- **`mktime` years:** `mktime` reads years 0 to 100 as 1970 to 2069. The grid's day counts use that reading (`MonthGrid.MktimeYear`), and the lemmas that compare dates assume years outside 0..100.
- **Floating point:** `round(x, 1)` is modelled in integer tenths, rounding half away from zero.
- **Integer width:** integers are unbounded. PHP's integer overflow and JavaScript's loss of precision above 2^53 in `parseInt` are not modelled.
- Helpers.ValidNumber1to5: numeric strings and floats are given as the `Number` datatype (an integer, an exact fraction or non-numeric). PHP's loose string-to-number rules are not modelled.
- Text.PhpIntval: models the `(int)` cast of decimal strings: leading white space, an optional sign and the digits after it. Exponents and hexadecimal are not modelled.
- Text.LexLe: compares code points. JavaScript compares UTF-16 units and MySQL uses the column collation. The two orders differ only for characters outside the Basic Multilingual Plane.
- ModalForm.ParseInt: reads decimal and `0x` hexadecimal text as ECMAScript does. JavaScript strings are sequences of code points here, not UTF-16 units, and `-0` is the integer 0.
- ModalForm.DayDialog.Show: the dialog reads the button's text content. White space around the number that the browser adds is covered only for leading white space (`ModalForm.ParseIntSkipsSpace`).
- ModalForm.ButtonOf: of the HTML parser's input handling, only the normalization of CR LF, CR and NUL is modelled. Character references other than the five `htmlspecialchars` writes cannot occur in the drawn title. Form submission writes newlines as CR LF only in the notes, because the other fields of the Guardar form never hold a newline.
- Helpers.Sanitize: PHP strings are taken to be valid UTF-8, as sequences of code points. `htmlspecialchars` without `ENT_SUBSTITUTE` returns `''` for a text holding an invalid UTF-8 sequence, so a posted note such as `%FF` is saved empty and such a user name is reported as missing. That path is not modelled.
- EnvLoading.EnvLoader.Load: `putenv` with an empty or ill-formed key, and the exception path of `file()`, are not modelled. `FILE_SKIP_EMPTY_LINES` is immaterial, because an empty line has no `=`.
- EnvLoading.EnvLoader.GetBool: a numeric string here equals `1` only when its exact decimal value is one. PHP compares the two as doubles, so a text that rounds to 1.0, such as `0.99999999999999999`, is true in the source and false in the model. Hexadecimal and other non-decimal forms are not numeric strings in PHP 8 and are not here either.
- **Browser internals:** DOM rendering, Bootstrap's modal, tooltips, toasts, timers and fades, hover scaling, the loading overlay (`mostrarLoading`, `ocultarLoading`) and the Ctrl+arrow month navigation. The Escape key's hide is the effect `Hide`.
- **Secrets:** `random_bytes`, `password_hash` and `password_verify` are parameters.
