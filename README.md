# D-1 / D0 reminder mailer, modelled in Dafny

The system is a Google Apps Script that a daily trigger runs over one sheet tab.
Each data row of the tab holds an event date and a few text fields. On the day
before the event (D-1) and on the day of the event (D0), the script sends one
reminder e-mail per row. It then appends a token (`D1SENT` or `D0SENT`) to
the row's status column, so a later run does not send the same reminder again.

This project models the core of `app.js`:

- **Clock**: the text-to-24-hour conversion `parseTimeTo24h`.
- **DateText**: the text branches of `parseDateIfNeeded`, with the three date
  patterns built through `new Date(y, m - 1, d)` and its day rollover.
- **Calendar**: `sameDay` and `addDays` on calendar days, plus the
  `MM-dd-yyyy` rendering of `formatDate`.
- **StatusLedger**: the status ledger `appendStatus` and the
  "already sent" test of the main loop.
- **Headers**: `normalize`, `buildHeaderMap`, `getColIndex`, and the
  setup of the status and event-date columns.
- **Recipients**: `getBccList`.
- **Message**: `safe`, `createMessage`, and the subject and body of each
  reminder.
- **Scheduler**: the row loop of `sendD1D0`.

The row loop is a class, `Scheduler.ReminderPass`:

- The status cells are an `array<string>` that the pass updates in place.
- The e-mails sent and the cells written are recorded in order in a ghost
  `trace` of `Effect`s.
- `Run` is proved against pure specification functions:
  - `NewStatuses` gives the final status column;
  - `PassTrace` gives the sequence of effects;
  - `MailCount` gives the number of mails sent.
- Lemmas about those functions state what the script promises:
  - a reminder goes out exactly when it is due;
  - each row gets at most one mail per pass;
  - rows that are not due are left alone;
  - a second run on the same day sends nothing;
  - a D-1 reminder does not block the D0 reminder the next day.

Modules:

- `wrappers.dfy`: Option and Result.
- `text.dfy`: trim, includes, ASCII case mapping, digit strings and `padStart`.
- `calendar.dfy`
- `sheet.dfy`: cell values.
- `clock.dfy`
- `datetext.dfy`
- `status.dfy`
- `headers.dfy`
- `recipients.dfy`
- `message.dfy`
- `scheduler.dfy`

The model follows what the code computes, including behaviour its comments do
not mention:

- **The status cell is normalised when it is rewritten.** The status column
  is there to prevent repeated e-mails (app.js:10). The code does not keep the
  cell's text verbatim: it writes back `appendStatus(statusVal, flag)`
  (app.js:116, 142, 164), where `statusVal` is the cell trimmed and upper-cased. So a note such as
  `"manual note"` comes back as `"MANUAL NOTE | D1SENT"`. `Marked` models
  exactly that. `MarkedKeeps` proves that the tokens already recorded survive.
- **Out-of-range date fields roll over.** A date whose fields are out of range
  (`02-30-2026`) is not rejected. `new Date(y, m - 1, d)` rolls it over, to
  2 March, and `Calendar.MakeDate` models that rollover.
  - Years 0 to 99 are read as 1900 to 1999, as `new Date(y, m, d)` does
    (`FullYear`), so `01-05-0024` is 5 January 1924 (`DateText.TwoDigitYear`).
  - The `...InRange` lemmas state the plain reading of each pattern as
    (year, month, day), with that rule applied to the year, for a day that exists.
- **`startOfDay` reads the day again through `new Date(y, m - 1, d)`.** A day
  in the years 0 to 99 therefore moves to 1900 to 1999 (`Calendar.StartOfDay`).
  The model applies it to today and to every event day, as the loop does
  (app.js:95, 113).
- **An AM/PM hour above 12 is not rejected.** `"13:00 PM"` becomes `"25:00"`
  (`Clock.ThirteenPm`). That is what the code computes.

## Model

| member | source | states |
|---|---|---|
| Text.Trim | app.js:214 | the result is no longer than the input, has no white space at either end, and is empty exactly when the input is all white space |
| Text.TrimAround | app.js:256 | trimming text that has no white space at its ends, with any white space around it, gives back exactly that text |
| Text.TrimIdempotent | app.js:256 | trimming twice is trimming once |
| Text.Contains | app.js:126 | `includes` is true exactly when the needle occurs at some index of the text |
| Clock.ScanClock | app.js:310 | a recognised clock splits the text exactly into 1-2 hour digits, ':', two minute digits, an optional ':ss' and the rest; without seconds the rest does not start with ':' |
| Clock.ScanClockFinds | app.js:310 | every text of that shape is recognised, with exactly those fields |
| Clock.Hour24 | app.js:315-316 | PM adds 12 except to 12; AM maps 12 to 0 and keeps every other hour |
| Clock.AmPmResult | app.js:310-317 | an h:mm[:ss] text with optional white space and AM or PM in any case gives the two-digit converted hour, ':' and the minutes |
| Clock.BareResult | app.js:321-323 | an h:mm[:ss] text gives the hour padded to two digits, ':' and the minutes, dropping the seconds |
| Clock.RecognizesOnlyClocks | app.js:306-327 | the result is non-empty exactly when the text is an AM/PM clock or a 24-hour clock |
| Clock.SixPmWithSeconds | app.js:301 | "6:00:00 PM" gives "18:00" |
| Clock.SixPm | app.js:302 | "6:00 PM" gives "18:00" |
| Clock.EighteenWithSeconds | app.js:303 | "18:00:00" gives "18:00" |
| Clock.Eighteen | app.js:304 | "18:00" gives "18:00" |
| Clock.MidnightAm | app.js:316 | "12:00 AM" gives "00:00" |
| Clock.NoonLowerCase | app.js:310-315 | "12:30 pm" gives "12:30": the meridiem is case-insensitive and 12 PM stays 12 |
| Clock.ThirteenPm | app.js:315 | "13:00 PM" gives "25:00": the hour is not range-checked |
| Clock.NotATime | app.js:306-327 | the empty text and a text that is no clock give "" |
| Calendar.SameDay | app.js:249-253 | true exactly when the two days are equal |
| Calendar.NextDay | app.js:243-247 | the next day of an existing day exists and is a different day |
| Calendar.NextDayIsOneDayLater | app.js:243-247 | the next day is exactly one day later in an independent day count |
| Calendar.NextDayOfPrevDay | app.js:243-247 | stepping back one day and then forward one day returns to the same day |
| Calendar.PrevDayOfNextDay | app.js:243-247 | stepping forward one day and then back one day returns to the same day |
| Calendar.AddDays | app.js:243-247 | adding k days to an existing day gives an existing day exactly k days later in an independent day count |
| Calendar.MakeDate | app.js:277-290 | new Date(y, m - 1, d): the day d - 1 days after the first of month m, counted from the year (with the two-digit rule) plus the whole years in m - 1; an existing (year, month, day) is built unchanged |
| Calendar.FullYear | app.js:277-290 | the Date constructor's year rule: a year from 0 to 99 becomes 1900 to 1999, any other year is kept, so the year it gives is never in 0 to 99 |
| Calendar.StartOfDay | app.js:237-241 | a day outside the years 0 to 99 is kept; a day in them is read again as the same day of 1900 to 1999 when that day exists, and otherwise rolls over as in MakeDate (29 February of the year 0 becomes 1 March 1900) |
| Calendar.StartOfDayTwoDigitYear | app.js:237-241 | 31 December of the year 99 becomes 31 December 1999 |
| Calendar.AddDaysInMonth | app.js:243-247 | inside one month, adding days only moves the day of the month |
| Calendar.FormatDate | app.js:230-232 | the rendered date has no white space at its ends |
| DateText.Scan | app.js:276 | a scanned text is exactly three digit fields of the pattern's widths joined by its separator |
| DateText.ScanFinds | app.js:276 | every text of a pattern's shape is scanned into exactly its three fields |
| DateText.ScanIsMatch | app.js:276-284 | the scanner returns some fields exactly when the text has that pattern's shape with those fields |
| DateText.DashExcludesIso | app.js:276-281 | a text of the M-d-yyyy shape never has the yyyy-M-d shape |
| DateText.IsoExcludesDash | app.js:276-281 | a text of the yyyy-M-d shape never has the M-d-yyyy shape |
| DateText.ParseDateIfNeeded | app.js:269-273 | a date cell is returned as it is; a blank or all-space value gives no date; any other value is parsed from its trimmed text |
| DateText.ParseAround | app.js:272 | white space around a date text does not change the parsed date |
| DateText.ParseText | app.js:275-296 | no date comes out only when the text fits none of the three patterns and the engine's parser rejects it too |
| DateText.TwoDigitYear | app.js:276-277 | "01-05-0024" gives 5 January 1924: a four-digit year field below 100 gets the two-digit rule |
| DateText.DashDate | app.js:276-277 | M-d-yyyy text gives new Date(yyyy, M - 1, d) |
| DateText.DashDateInRange | app.js:276-277 | M-d-yyyy text of an existing day gives exactly that (year, month, day), years below 100 moved to 1900 to 1999 |
| DateText.IsoDate | app.js:280-281 | yyyy-M-d text gives new Date(yyyy, M - 1, d) |
| DateText.IsoDateInRange | app.js:280-281 | yyyy-M-d text of an existing day gives exactly that (year, month, day), years below 100 moved to 1900 to 1999 |
| DateText.SlashDate | app.js:284-291 | a/b/yyyy text is read day-first when a > 12, month-first otherwise |
| DateText.SlashDay | app.js:286-290 | with the first number above 12 the text is read day-first, otherwise month-first, each giving that exact day when it exists |
| DateText.SlashDateInRange | app.js:284-291 | on an existing day, a/b/yyyy gives (yyyy, b, a) when a > 12 and (yyyy, a, b) otherwise, years below 100 moved to 1900 to 1999 |
| DateText.FallbackOnlyForOtherText | app.js:293-296 | the engine's own parser decides only texts that fit none of the three patterns |
| DateText.FormatDateReadsBack | app.js:230-232 | a day of the years 100 to 9999 rendered as MM-dd-yyyy parses back to the same day |
| StatusLedger.AppendStatus | app.js:255-260 | the result holds the flag and starts with the trimmed status; it is the status unchanged when the flag is in it, the flag alone when the status is blank, and otherwise status, " \| " and the flag |
| StatusLedger.AppendStatusKeeps | app.js:255-260 | every text the trimmed status contained is still contained afterwards |
| StatusLedger.AppendStatusIdempotent | app.js:255-260 | appending the same flag twice gives the same status as once |
| StatusLedger.AppendStatusPresent | app.js:258 | "D1SENT" with flag "D1SENT" stays "D1SENT" |
| StatusLedger.AppendStatusEmpty | app.js:257 | "" with flag "D0SENT" becomes "D0SENT" |
| StatusLedger.AppendStatusNote | app.js:259 | "MANUAL NOTE" with flag "D1SENT" becomes "MANUAL NOTE \| D1SENT" |
| StatusLedger.HasSentIgnoresSpaceAndCase | app.js:116-126 | whether a reminder counts as sent does not depend on white space around the status or on its letter case, and is whether the upper-cased status includes the token |
| StatusLedger.Marked | app.js:141-142 | the status written after reminder m records m as sent |
| StatusLedger.MarkedIsNormal | app.js:116 | trimming and upper-casing the written status changes nothing |
| StatusLedger.MarkedKeeps | app.js:141-142 | a reminder recorded before is still recorded after another is marked |
| StatusLedger.MarkedKeepsAbsent | app.js:141-142 | marking one reminder never makes the other one look sent |
| StatusLedger.MarkedIdempotent | app.js:141-142 | marking the same reminder twice gives the same status as once |
| Headers.Normalize | app.js:213-215 | a normalised name is lower-case with no white space at its ends, and empty exactly when the name is all white space |
| Headers.NormalizeIdempotent | app.js:213-215 | normalising twice is normalising once |
| Headers.NormalizeIgnoresSpaceAndCase | app.js:213-215 | surrounding white space and upper case do not change a normalised name |
| Headers.ColumnMap | app.js:205-211 | every normalised header is a key, and each key maps to a 1-based column whose header normalises to it |
| Headers.ColumnMapLastWins | app.js:207-209 | for duplicate headers the last column wins |
| Headers.GetColIndex | app.js:218-222 | the lookup succeeds exactly when the normalised name maps to a non-zero column, and then gives that column less one; otherwise it fails with a header-not-found error naming the header asked for |
| Headers.BuildHeaderMap | app.js:205-211 | the loop builds exactly the map of normalised headers to their 1-based columns |
| Headers.ColIndexOfKeys | app.js:218-222 | on a header map, the lookup fails exactly when no header normalises to the name, and otherwise gives the 0-based column of its last occurrence |
| Headers.SettledIsColumnMap | app.js:61-66 | the settled map is the map the header row would give with the status header entered after the last column when it was added |
| Headers.FieldColumnsOfKeys | app.js:78-85 | the six field columns are found exactly when each field name normalises to some header's key, and each found column is the last one carrying that key |
| Headers.LookupAll | app.js:78-85 | looking names up one after another succeeds exactly when every name resolves, giving each name's index in order; otherwise the error names the first name, in order, that does not resolve |
| Headers.FieldColumns | app.js:78-85 | the six field indices are found exactly when each of the six names resolves, each index is that name's lookup, and otherwise the error names the first missing header in the script's order: email address, any, other, column, you, need |
| Headers.LayoutFieldColumns | app.js:78-85 | on a layout that resolves, each field's index is the last column of the settled header row whose key is the field's normalised name |
| Headers.SettleStatusColumn | app.js:61-66 | an existing status header keeps its column; a missing one gets the column after the last, it is added to the map, and the header is marked to be written |
| Headers.StatusColumnAdded | app.js:61-66 | a status column is added exactly when no header normalises to the status header |
| Headers.ResolveLayout | app.js:57-90 | the status and event-date columns lie within the width read; on success the status column is the settled one, the event-date column is the settled map's entry for the event-date header, the fields are the six lookups in the settled map and the width is max(lastCol, statusCol); it fails with the event-date error exactly when that header is not in the settled map |
| Headers.LayoutResolves | app.js:57-85 | the layout resolves exactly when the event-date header and the six field names each normalise to a header of the settled row |
| Headers.SettledColumnsAreLast | app.js:61-70 | the settled status column and the event-date column are the last columns of the settled row carrying those headers' names |
| Headers.FieldsWithinWidth | app.js:78-90 | every field column found lies within the width read |
| Headers.SettledColumnsRead | app.js:88-90 | every column of the settled header map lies within the width read |
| Recipients.JoinComma | app.js:202 | joining no entries gives ""; otherwise the text starts with the first entry and ends with the last |
| Recipients.Split | app.js:199 | the pieces are never empty as a list and contain no '\n' and no ','; a lone '\r' stays in its piece |
| Recipients.SplitAtLineBreak | app.js:199 | a piece without separators followed by "\n" (when it does not end with '\r') or by "\r\n" splits off as it is |
| Recipients.SplitKeepsText | app.js:199 | the pieces joined back together are the text without its separators |
| Recipients.SplitOfJoin | app.js:199-202 | splitting a comma-joined list of plain entries gives back the entries |
| Recipients.Clean | app.js:200-201 | the entries kept are non-empty and trimmed, and there are no more of them than pieces |
| Recipients.CleanOne | app.js:200-201 | one piece gives its trimmed text, or no entry when it is all white space |
| Recipients.CleanAppend | app.js:200-201 | the entries of two lists of pieces are those of the first followed by those of the second, so the entries are the trimmed non-blank pieces in order |
| Recipients.CleanKeepsEntries | app.js:200-201 | every piece that is not all white space is kept, trimmed |
| Recipients.BccEntries | app.js:198-201 | every entry is non-empty, trimmed and has no separator |
| Recipients.GetBccList | app.js:196-203 | the list is empty exactly when the setting has no entry |
| Recipients.BccEntriesOfList | app.js:196-203 | reading the joined list again gives the same entries |
| Recipients.GetBccListIdempotent | app.js:196-203 | cleaning an already clean list changes nothing |
| Sheet.CellString | app.js:271 | String(v ?? "") of a cell that is not a date: "" for a blank, a text as it is, "true" or "false" for a boolean, and a number as decimal digits without leading zeros, after a minus sign when negative, that read back as the number |
| Message.Safe | app.js:224-228 | a missing value gives "", a date gives its MM-dd-yyyy text, anything else its trimmed text, and the result has no outer white space |
| Message.FinalHour | app.js:182-183 | a clock time becomes its non-empty 24-hour form; any other text is kept as it is |
| Message.HourDisplay | app.js:182 | the hour text has no white space at its ends |
| Message.CreateMessage | app.js:176-190 | the message opens with the quoted Any field, ends with the quoted final hour, and quotes the Other, Column and You fields |
| Message.TemplateParts | app.js:185-189 | the template starts with its head, ends with its tail and contains each middle field |
| Message.Body | app.js:128-132 | the body names the event day and contains the whole message |
| Message.Reminder | app.js:127-161 | the mail goes to the given recipient and Bcc list under the milestone's subject, and its body names the event day and carries the row's message |
| Message.SubjectTellsMilestone | app.js:127-149 | the two reminders have different subjects |
| Message.ReminderMentions | app.js:127-139 | each reminder goes to the given address and Bcc list under its milestone's subject, and its body names the event day, carries the row's message and quotes the Other, Column and You fields |
| Scheduler.Prepare | app.js:52-101 | no data row stops the run; a missing event-date or field header fails with the layout's error; otherwise the pass gets the trimmed address, the Bcc list, today through startOfDay, and exactly the layout's event-date column, status column, width and field columns; the status header is written exactly when it was missing |
| Scheduler.EventDay | app.js:109-113 | a row has no event day exactly when its event-date cell does not parse, so a blank cell has none; a date outside the years 0 to 99, whether held by the cell or parsed from its text, is the event day itself |
| Scheduler.DueDay | app.js:95-119 | D-1 is due on the day after today, one day number later, and D0 today; only D0's day is today |
| Scheduler.Due | app.js:109-148 | a reminder is due only for a row with an event day, and that day is today exactly when the reminder is D0 (D-1 is due on the day after, as DueDay states) |
| Scheduler.DueExclusive | app.js:116-148 | the two reminders are never due for a row on the same day, and a due reminder is no longer due once its token is appended to the status |
| Scheduler.Decide | app.js:109-148 | when a reminder is chosen it is due; when any reminder is due, it is the one chosen, so D-1 and D0 never both go out for one row |
| Scheduler.StatusAfter | app.js:141-164 | a row whose reminder is due ends with its status marked with that reminder, which then reads as sent; a row with nothing due keeps its status |
| Scheduler.NewStatuses | app.js:104-167 | the status column after the pass holds, row by row, what each row's status becomes |
| Scheduler.PassTrace | app.js:104-167 | every effect of the pass is about one of the data rows |
| Scheduler.MailThenItsWrite | app.js:134-164 | every e-mail of the pass is followed at once by the write of its marked status to the same row |
| Scheduler.RowEffects | app.js:123-166 | a row yields two effects and one mail when a reminder is chosen, and nothing otherwise |
| Scheduler.SendsDayBefore | app.js:126-144 | an event tomorrow without D1SENT yields the D-1 e-mail and then the status with D1SENT appended |
| Scheduler.SendsDayOf | app.js:148-166 | an event today without D0SENT, when no D-1 applies, yields the D0 e-mail and then the status with D0SENT appended |
| Scheduler.SendsNothing | app.js:109-121 | no parsable event date, no recipient, or no pending milestone leaves the row without effect and its status as it was |
| Scheduler.RerunSendsNothing | app.js:116-148 | after the pass has processed a row, nothing is due for it that day |
| Scheduler.RerunIsQuiet | app.js:104-167 | a second pass on the same day sends nothing and leaves every status as it is |
| Scheduler.NoRecipientNoMail | app.js:121 | without a recipient no mail is sent and no status changes |
| Scheduler.RowMailIsDue | app.js:126-165 | a row's mail is for a due milestone, carries that milestone's reminder and is followed by the write of the marked status |
| Scheduler.MailedOnlyWhenDue | app.js:104-167 | every mail of the pass is for a due row, carries its reminder, and is matched by the write of that row's marked status |
| Scheduler.MailedWhenDue | app.js:104-167 | every due row gets its reminder and its status write in the pass, and its final status is marked |
| Scheduler.OneSendPerRow | app.js:125-166 | mails appear in strictly increasing row order, so each row gets at most one mail per pass |
| Scheduler.NotDueUntouched | app.js:109-121 | a row with neither reminder due keeps its status and has no effect in the pass |
| Scheduler.SentCountsDueRows | app.js:102-169 | the number of mails sent equals the number of rows with a reminder due |
| Scheduler.DayBeforeThenDayOf | app.js:118-148 | a fresh row whose event is tomorrow gets D-1 today, and its marked status still lets D0 go out tomorrow |
| Scheduler.SendD1D0 | app.js:52-169 | when the layout resolves, the count is the number of mails of the specified pass and the status column is the specified one; otherwise nothing is mailed and no status cell is written, and a header failure is returned as the error thrown; the status header is reported written exactly when there are data rows and it was missing |
| Scheduler.ReminderPass.constructor | app.js:87-92 | the pass starts from the rows and status texts read, with an empty trace |
| Scheduler.ReminderPass.RowStep | app.js:105-166 | the effects and the new status of one row, following each branch of the loop body, are those of the specification |
| Scheduler.ReminderPass.ProcessRow | app.js:104-167 | reports a mail exactly when a reminder is chosen, writes only cell i, with the row's new status, and appends the row's effects to the trace |
| Scheduler.ReminderPass.Record | app.js:141-165 | a row with effects has them appended to the trace and its status cell written with the new text; a row without effects leaves both as they were |
| Scheduler.ReminderPass.Advance | app.js:104-167 | one loop turn extends the processed prefix of the status column and of the trace by row i |
| Scheduler.ReminderPass.Run | app.js:95-169 | the pass leaves exactly the specified status column, appends exactly the specified effects to the trace, and returns the number of mails sent |

## Left out

- The spreadsheet, mail and log services (`SpreadsheetApp`, `MailApp`, `Logger`) are not modelled as services. The rows are parameters, the status column is an array, the e-mails and writes are the ghost trace, and the logged count is `Run`'s result.
- The missing-tab error (app.js:50) is left out: the model starts from a sheet that exists.
- The `lastRow <= headerRow` test becomes `rowCount == 0`, because the header row's position is a placeholder in CONFIG.
- The CONFIG placeholders become parameters: `Settings` holds the address, the Bcc text and the two header names. `FIELDS` is the constant `Headers.Fields`.
- Reading the header and data ranges is not modelled; the headers are text and the rows are given.
- The thrown errors of `getColIndex` and of the missing event-date column are the `HeaderFailure` result of `Prepare`. A header row that is not text is not modelled.
- Timezones are left out. `startOfDay` and `formatDate` render dates in the configured timezone; here every date is already a calendar day (`Calendar.Date`), and a date cell is its day. `startOfDay` is modelled only for the two-digit-year rule it applies when it rebuilds the day.
- Calendar.StartOfDay: the year 0 is read as 1900 and days before the year 0 are kept unchanged. The engine's era-based `yyyy` rendering writes the year 0 as 0001 and earlier years as positive era years, so it would give other days; that rendering is not modelled.
- Headers.ColumnMap: the script's header map is a plain object, so a name whose normalised form is an inherited property such as "constructor" resolves to a truthy value even when no column carries it (app.js:61-62 and 69-70); the model's map holds only the keys the header row entered, so such a name is not found.
- `today` is a parameter, because `new Date()` reads the clock.
- The `new Date(string)` fallback of `parseDateIfNeeded` is a parameter (`fallback`), because it is the engine's own date parser.
- A status cell that holds a number or a date is not modelled: status cells are text, and a number or date in one would be its `String()` form. The status texts are given beside the rows rather than read from their cells, because `String(Date)` is not modelled.
- Clock.ParseTimeTo24h carries no contract of its own; `RecognizesOnlyClocks`, `AmPmResult` and `BareResult` state its result for every input.
- Non-integer numbers in cells are not modelled, because the cells hold unbounded integers. `Text.IntToString` is JavaScript's `String` only for integers below 1e21 in magnitude and within 2^53: the exponent form and the loss of precision beyond those are not modelled.
- Upper- and lower-casing map ASCII letters only, because Unicode case mapping is not modelled.
- Calendar.FormatDate: years outside 1 to 9999 are rendered as padded decimals (the year 0 as 0000); the engine's era-based rendering of such years is not modelled.
- Mail transport failures are not modelled: `sendEmail` always succeeds, and an exception part-way through a pass is not modelled.
- The trigger installer `criarGatilhoDiario` (app.js:332-347) is not modelled, because it only manages the time trigger.
