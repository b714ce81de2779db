# Astronomy ephemeris: a verified model of the daily-entry reader and generator

This project models the two halves of an astronomy "ephemeris of the day"
site.

- **Reader** (`lib/ephemeris-data.ts`). It turns a stored row into the
  entry the page shows:
  - the `MM-DD` key;
  - a title and a Spanish sentence "El {día} de {mes} de {año}, …" built from the row's `event` text;
  - a category chosen by keywords in the title.

  It looks a date up by month and day, then by `YYYY-MM-DD`. If the store fails or has no match, it falls back to a built-in table of seven entries.
- **Generator** (`generate-ephemeris.mjs`). It does the following:
  - asks a text-generation service for a `"Título - Descripción"` reply;
  - parses the reply into a record for the store, reading the historical year off the first `1xxx`/`20xx` token of the description;
  - skips days that already have an entry;
  - summarises a batch of days;
  - dispatches on its command line: `tomorrow`, `week`, `month`, `multiple N`.

Modules and files:

| file | module | contents |
|---|---|---|
| `wrappers.dfy` | `Wrappers` | `Option` |
| `js_strings.dfy` | `JsStrings` | the JavaScript built-ins the core relies on (listed below) |
| `schema.dfy` | `Schema` | the stored row, calendar dates, store answers, the `MM-DD` and `YYYY-MM-DD` keys, and the store's equality filters with `limit(1)` |
| `ephemeris_data.dfy` | `EphemerisData` | the reader |
| `generator.dfy` | `Generator` | the generator |
| `round_trip.dfy` | `RoundTrip` | lemmas that follow a generated record through the store into the reader |

The JavaScript built-ins in `JsStrings` are: `indexOf`, `includes`, `split` and `join` on a literal separator, `trim`, `toLowerCase`, `String(n)`, `padStart`, `substring`, `parseInt`, and `||` on numbers.

The outside world is passed in as values:

- A store query's answer is a `QueryResult`: an error object, a thrown exception, or `data` (possibly null).
- A completion is a `Completion`: the reply's content, or a failure.
- For the batch and the command line, a `Services` value gives each call's answer as a function of its argument.
- `dateOf(i)` is the calendar date `i` days after today.

The model follows the code in these details:

- **Fallback index.** The entry picked when no key matches uses `getMonth()`, which is 0-based: `((month - 1) * 31 + day) % 7`. It is used only after an exact `MM-DD` search of the table.
- **`||` on numbers.** Both halves use `||` for missing historical fields and for the `multiple` count. So a stored `0` also falls back, and `multiple 0` runs 7 days.
- **The reader keeps only the second piece.** It shows only the text between the first and second `" - "` of the event. The generator keeps everything after the first one. `RoundTrip.ReaderBaseTruncates` states exactly when the two differ.
- **Empty store versus null data.** `getAllEphemeris` returns `[]` when the store answers with no rows, and the built-in table when `data` is null or the query fails.
- **Insert reads as failed without rows.** `insertEphemeris` reports failure when the insert answers with null or empty data. Its success log reads `data[0].id`, which then throws, and the exception is caught.
- **The title can be empty.** The title is the text before the first `" - "`. An event that is empty or starts with `" - "` is shown with an empty title (`EphemerisData.EmptyTitle`).
- **An earlier year's row hides a new one.** The generator checks for an entry with the target's day, month and year, so it writes a new row for a month and day that already has one from an earlier year. The page looks rows up by month and day only and shows the first the store returns, so the earlier row stays on the page (`RoundTrip.GeneratedShadowed`, `EphemerisData.ResolveFirstStored`). `RoundTrip.ResolveGenerated` covers the case where the generated row is the only one for its month and day.

## Model

| member | source | states |
|---|---|---|
| JsStrings.OrElse | lib/ephemeris-data.ts:103 | `a \|\| b` on a number: the first operand when it is present and non-zero, otherwise the second |
| JsStrings.IndexOf | lib/ephemeris-data.ts:131 | the result is an occurrence of the pattern and no earlier index is one; `None` means no occurrence anywhere |
| JsStrings.Split | lib/ephemeris-data.ts:98 | `split(" - ")` yields at least one piece |
| JsStrings.SplitSingleIff | lib/ephemeris-data.ts:100 | a split has exactly one piece when, and only when, the separator does not occur |
| JsStrings.JoinSplit | generate-ephemeris.mjs:93 | joining the pieces of a split with the same separator gives back the text |
| JsStrings.Join | generate-ephemeris.mjs:93 | `parts.join(sep)`; `JoinSplit` states that it inverts `Split` |
| JsStrings.SplitPiecesFree | lib/ephemeris-data.ts:98-100 | no piece of a split contains the separator |
| JsStrings.TrimStart | generate-ephemeris.mjs:87 | drops leading whitespace, leaving a suffix of the text that does not start with whitespace |
| JsStrings.TrimStartDropsWhiteSpace | generate-ephemeris.mjs:87 | everything dropped at the front is whitespace |
| JsStrings.TrimEnd | generate-ephemeris.mjs:87 | drops trailing whitespace, leaving a prefix of the text that does not end with whitespace |
| JsStrings.TrimEndDropsWhiteSpace | generate-ephemeris.mjs:87 | everything dropped at the back is whitespace |
| JsStrings.Trim | generate-ephemeris.mjs:87 | `trim()` as `TrimEnd` after `TrimStart`; `TrimEnds` and `TrimIdempotent` state what it yields |
| JsStrings.TrimEnds | generate-ephemeris.mjs:87 | `trim()` neither starts nor ends with whitespace |
| JsStrings.TrimIdempotent | generate-ephemeris.mjs:87 | trimming twice is trimming once |
| JsStrings.ToLowerCaseIdempotent | lib/ephemeris-data.ts:125 | lower-casing twice is lower-casing once |
| JsStrings.NatToString | lib/ephemeris-data.ts:94 | `String(n)` of a natural number is a non-empty run of decimal digits |
| JsStrings.ValueOfNatToString | lib/ephemeris-data.ts:94 | the digits of `String(n)` read back as `n` |
| JsStrings.PadStart | lib/ephemeris-data.ts:94 | `padStart(w, c)` has length max(len, w), ends with the input and is filled with `c` before it |
| JsStrings.Pad2Digits | lib/ephemeris-data.ts:94-95 | for 0..99 the padded text is exactly two digits whose value is the number |
| JsStrings.Pad2Injective | lib/ephemeris-data.ts:212-214 | distinct numbers below 100 pad to distinct texts |
| JsStrings.Prefix | generate-ephemeris.mjs:253 | `substring(0, n)` has length min(n, len) and is a prefix of the text |
| JsStrings.LeadingDigits | generate-ephemeris.mjs:296 | `parseInt` reads the longest run of digits: all of it are digits and the next character is not |
| JsStrings.ParseInt | generate-ephemeris.mjs:296 | `parseInt` without a radix: leading whitespace, a sign, a `0x` prefix, the longest digit run, NaN as `None`; `ParseIntOfIntToString`, `UndefinedIsNaN` and the dispatch lemmas state its values |
| JsStrings.ParseIntOfIntToString | generate-ephemeris.mjs:296 | `parseInt(String(n))` is `n` for every integer |
| JsStrings.DigitsAreLeading | generate-ephemeris.mjs:296 | a text made only of digits is read to its end |
| Schema.DateKeyRoundTrip | lib/ephemeris-data.ts:154 | the `MM-DD` key of a month and day below 100 is well formed and its two fields read back as that month and day |
| Schema.DateKeyInjective | lib/ephemeris-data.ts:214 | different month-day pairs give different keys |
| Schema.DateKey | lib/ephemeris-data.ts:212-214 | the `MM-DD` key of a month and day; `DateKeyRoundTrip` and `DateKeyInjective` state that it is well formed, reads back, and tells dates apart |
| Schema.DisplayDate | lib/ephemeris-data.ts:184-186 | the `YYYY-MM-DD` of a date; `DisplayDateHasKey` states its shape |
| Schema.DisplayDateHasKey | generate-ephemeris.mjs:104 | a `display_date` is the year's numeral, a dash and the date's `MM-DD` key, and is longer than the key |
| Schema.Filter | lib/ephemeris-data.ts:167-171 | an equality query returns exactly the stored rows that match, and no more than are stored |
| Schema.Limit1 | lib/ephemeris-data.ts:172 | `limit(1)` keeps at most one row, the first, and keeps one exactly when there was one |
| Schema.FilterFirst | lib/ephemeris-data.ts:167-172 | the first row an equality query keeps is the first stored row that matches |
| EphemerisData.Convert | lib/ephemeris-data.ts:153-159 | a converted row always has a year and never a constellation or magnitude |
| EphemerisData.ReaderTitle | lib/ephemeris-data.ts:98-99 | `event.split(" - ")[0]`; `ReaderSplit` and `EmptyTitle` state what it is |
| EphemerisData.ReaderBase | lib/ephemeris-data.ts:98-100 | the second piece of the split, or the first when there is one; `ReaderSplit` states what it is |
| EphemerisData.ConvertDate | lib/ephemeris-data.ts:94-95 | the converted key is well formed and reads back as the row's month and day |
| EphemerisData.ConvertDateIgnoresHistory | lib/ephemeris-data.ts:154 | the key depends only on the row's month and day, not on its historical fields |
| EphemerisData.ReaderSplit | lib/ephemeris-data.ts:98-100 | the title is the text before the first separator. The base description is the second piece: the rest up to its next separator, or all of the rest when it has none; it holds no separator. Without a separator both are the whole event |
| EphemerisData.EmptyTitle | lib/ephemeris-data.ts:98-99 | the shown title is empty exactly when the event is empty or starts with the separator |
| EphemerisData.ConvertYear | lib/ephemeris-data.ts:103 | the year is the historical year when present and non-zero, otherwise the row's year |
| EphemerisData.MonthNameValid | lib/ephemeris-data.ts:122-123 | the month name is one of the twelve Spanish names exactly for months 1..12, and then the month's own |
| EphemerisData.ConvertDescription | lib/ephemeris-data.ts:121-125 | the description is "El {day} de {month} de {year}, " on the historical-or-row fields, followed by the lower-cased base description |
| EphemerisData.Classify | lib/ephemeris-data.ts:128-151 | the keyword chain on a lower-cased title; `ClassifyIsFirstMatch` and `ClassifyOutcomes` state which label it gives |
| EphemerisData.CategoryOf | lib/ephemeris-data.ts:128-129 | the chain applied to the lower-cased title; `CategoryIgnoresCase` and `ShowerBeatsOpposition` state its behaviour |
| EphemerisData.ClassifyIsFirstMatch | lib/ephemeris-data.ts:128-151 | the category chain equals "first rule whose keyword list hits", over the six rules in source order |
| EphemerisData.ClassifyOutcomes | lib/ephemeris-data.ts:128-151 | for each of the six labels, when (and only when) the title yields it, in terms of which keywords it contains |
| EphemerisData.LabelsDistinct | lib/ephemeris-data.ts:128-150 | the six category labels are pairwise different |
| EphemerisData.ShowerBeatsOpposition | lib/ephemeris-data.ts:133-136 | a title naming both a meteor shower and an opposition (and no conjunction) is a meteor shower |
| EphemerisData.CategoryIgnoresCase | lib/ephemeris-data.ts:129 | the category does not depend on the title's case |
| EphemerisData.FindByDate | lib/ephemeris-data.ts:216 | `find` returns the first entry with the key, or none when no entry has it |
| EphemerisData.TableKeys | lib/ephemeris-data.ts:28-90 | the built-in table has seven entries keyed 01-01 to 01-07 in order |
| EphemerisData.Fallback | lib/ephemeris-data.ts:211-225 | the fallback is always an entry of the built-in table |
| EphemerisData.FallbackKeyMatch | lib/ephemeris-data.ts:211-220 | the table holds the date's key exactly for 1..7 January, at position day - 1 |
| EphemerisData.KeyedTableSearch | lib/ephemeris-data.ts:214-216 | in a seven-entry table keyed 01-01 to 01-07, a date's key is found exactly for 1..7 January, at position day - 1 |
| EphemerisData.FallbackChoice | lib/ephemeris-data.ts:211-224 | 1..7 January gives that day's entry; any other date gives entry `((month - 1) * 31 + day) % 7` |
| EphemerisData.GetEphemerisForDate | lib/ephemeris-data.ts:161-208 | the month-day query, then the `display_date` query, then the fallback; `GetEphemerisForDateCases` states its three outcomes |
| EphemerisData.GetEphemerisForDateCases | lib/ephemeris-data.ts:161-207 | first row by month and day if any; otherwise the first row by display date if the first query answered; otherwise the fallback, which is a table entry |
| EphemerisData.DisplayDateConsultedOnlyWhenEmpty | lib/ephemeris-data.ts:174-181 | when the month-day query fails or has rows, the display-date answer does not matter |
| EphemerisData.ResolveEmptyStore | lib/ephemeris-data.ts:202-203 | against an empty store the page shows the fallback |
| EphemerisData.ResolveStoredDay | lib/ephemeris-data.ts:179-180 | when a stored row has the date's month and day, the page shows the conversion of such a row, keyed by that month and day |
| EphemerisData.ResolveOnlyRow | lib/ephemeris-data.ts:167-180 | when exactly one stored row has the date's month and day, the page shows its conversion |
| EphemerisData.ResolveFirstStored | lib/ephemeris-data.ts:167-180 | the page shows the conversion of the first stored row with the date's month and day, whatever its year |
| EphemerisData.ResolvedKeyWellFormed | lib/ephemeris-data.ts:161-207 | with calendar-valid rows the shown key is always a well-formed `MM-DD` |
| EphemerisData.GetAllEphemerisShape | lib/ephemeris-data.ts:227-249 | any `data`, even empty, maps one-to-one through the conversion; an error, exception or null data gives the built-in table |
| EphemerisData.GetAllEphemeris | lib/ephemeris-data.ts:227-249 | every returned row converted, or the table on an error, an exception or null data; `GetAllEphemerisShape` states this |
| Generator.GeneratorSplit | generate-ephemeris.mjs:91-93 | title and description are the text around the first separator and re-join to the text; the title holds no separator; without one both are the text |
| Generator.GeneratorTitle | generate-ephemeris.mjs:91-92 | the first piece of the reply's split; `GeneratorSplit` states what it is |
| Generator.GeneratorDescription | generate-ephemeris.mjs:91-93 | the pieces after the first, re-joined, or the whole text; `GeneratorSplit` states what it is |
| Generator.FirstYearTokenFrom | generate-ephemeris.mjs:96 | a position found is one where `\b(1\d{3}\|20\d{2})\b` matches |
| Generator.FirstYearTokenLeftmost | generate-ephemeris.mjs:96 | the position found is the leftmost match, and none is found only when nothing matches |
| Generator.HistoricalYear | generate-ephemeris.mjs:96-97 | the value of the first year token, or the target year; `HistoricalYearRange` states its range |
| Generator.HistoricalYearRange | generate-ephemeris.mjs:96-97 | the historical year is the target year when nothing matched, otherwise the token's value, in 1000..1999 or 2000..2099 by its first digits |
| Generator.GenerateEphemerisWithAI | generate-ephemeris.mjs:87-113 | a record is produced exactly when the completion yields content; otherwise the function throws |
| Generator.RecordFields | generate-ephemeris.mjs:99-108 | the record carries the target date, the trimmed reply, the target's `YYYY-MM-DD`, the target day and month as historical ones, and a year that is the target's or in 1000..2099 |
| Generator.EphemerisExists | generate-ephemeris.mjs:123-143 | true exactly when the query answered with at least one row |
| Generator.InsertSucceeded | generate-ephemeris.mjs:150-171 | true exactly when the insert answered with at least one row |
| Generator.ExistsIffStored | generate-ephemeris.mjs:125-138 | against a store, the existence check holds exactly when some row has that day, month and year |
| Generator.Excerpt | generate-ephemeris.mjs:253 | the summary excerpt is at most 50 of the event's first characters followed by "..." (`ExcerptLength` gives the exact count) |
| Generator.ExcerptLength | generate-ephemeris.mjs:253 | the excerpt keeps exactly min(50, length) characters of the event |
| Generator.DayOutcome | generate-ephemeris.mjs:237-265 | one day of the batch as a value; `DayOutcomeStatus` and `SkippedIffNotCalled` state its cases |
| Generator.SkippedIffNotCalled | generate-ephemeris.mjs:238-243 | a day is skipped exactly when the generator is not called for it |
| Generator.DayOutcomeStatus | generate-ephemeris.mjs:237-265 | skipped, error, success and failed each hold exactly in their case, and only success and failure carry an excerpt |
| Generator.GenerateDay | generate-ephemeris.mjs:230-265 | one loop iteration yields that day's outcome and calls the generator exactly when the day is not skipped |
| Generator.GenerateMultipleDays | generate-ephemeris.mjs:224-275 | the loop yields one result per day 1..days (none when days <= 0), result k being day k+1's outcome, and calls the generator for exactly the unskipped days in order |
| Generator.BatchAt | generate-ephemeris.mjs:227-266 | a batch of n days has one entry per day, the k-th being day k+1's outcome |
| Generator.BatchResultsAt | generate-ephemeris.mjs:229-266 | the batch specification has one entry per day, entry k being day k+1's outcome |
| Generator.CallsPlusSkippedFor | generate-ephemeris.mjs:237-248 | when a day is skipped exactly when the generator is not called for it, calls plus skipped days equal the number of days |
| Generator.CallsPlusSkipped | generate-ephemeris.mjs:237-248 | generator calls plus skipped days equal the number of days |
| Generator.ThreeDaysSecondExists | generate-ephemeris.mjs:229-266 | with only the second of three days stored: one skip, and the generator called for days one and three |
| Generator.GenerateTomorrowEphemeris | generate-ephemeris.mjs:177-217 | skip an existing entry, else generate and insert; `TomorrowAgreesWithBatch` and `TomorrowSkipsGenerator` state its result |
| Generator.TomorrowAgreesWithBatch | generate-ephemeris.mjs:177-217 | the single-day run succeeds exactly when a one-day batch would report skipped or success |
| Generator.TomorrowSkipsGenerator | generate-ephemeris.mjs:192-196 | when tomorrow already has an entry the run succeeds whatever the generator and insert would answer |
| Generator.Dispatch | generate-ephemeris.mjs:279-319 | the command chosen from the arguments; the `Dispatch…` lemmas state each case |
| Generator.DispatchDefault | generate-ephemeris.mjs:280-285 | no argument, an empty one or `tomorrow` runs the single-day generation |
| Generator.DispatchFixedCounts | generate-ephemeris.mjs:287-293 | `week` runs 7 days and `month` 30, whatever follows |
| Generator.DispatchMultiple | generate-ephemeris.mjs:295-297 | `multiple n` runs n days for any non-zero integer n |
| Generator.DispatchMultipleDefault | generate-ephemeris.mjs:296 | `multiple` with no count, a count that is not a number, or 0 runs 7 days |
| Generator.UndefinedIsNaN | generate-ephemeris.mjs:296 | a missing count reads as "undefined", which does not parse |
| Generator.DispatchUnknown | generate-ephemeris.mjs:300-318 | any other non-empty command prints the usage |
| Generator.RunCommand | generate-ephemeris.mjs:278-320 | the run's outcome and generator calls follow the dispatched command |
| RoundTrip.ReaderBaseTruncates | lib/ephemeris-data.ts:100 | the reader's base description is a prefix of the generator's description, equal to it exactly when that holds no further separator |
| RoundTrip.ReadBack | lib/ephemeris-data.ts:93-160 | a stored generated record is shown under the target's key, with the reply's first piece as title and its category, the record's year, and a sentence on the target day and month ending in the lower-cased base description |
| RoundTrip.ReadBackRecord | lib/ephemeris-data.ts:103-125 | a record whose historical day and month are its own and whose historical year is non-zero or its year converts to that date, title, year and sentence |
| RoundTrip.ResolveGenerated | lib/ephemeris-data.ts:167-180 | when the generated row is the only one stored for its month and day, the page shows its conversion |
| RoundTrip.GeneratedShadowed | generate-ephemeris.mjs:125-131 | with a row from an earlier year on the same month and day, the existence check does not stop the generation, and the page still shows the earlier row |

## Left out

- Logging, the console output of the summary, and the usage text are left out: they are output only. The model keeps the summary's entries and the `UsagePrinted` outcome.
- The 2-second pause between batch generations is left out: it only delays.
- The environment-variable guard and `process.exit` are left out, as is the fatal-error handler around `main`. They are process control outside the core.
- `Date` arithmetic is not modelled. Today and "i days from now" are the input `dateOf`, and each date's calendar fields are a `CalendarDate`.
- The Supabase and OpenAI clients are modelled as oracles. Their answers are inputs, deterministic in the call's argument. The prompt text and model parameters are not modelled, because they do not affect the control flow.
- The store's `order("month").order("day")` in `getAllEphemeris` is not modelled: the rows are taken in the order the store returns them.
- JsStrings.ToLowerCase: covers ASCII and the Latin-1 capitals U+00C0..U+00DE. It does not cover full Unicode case mapping, since the keywords and labels need only these.
- JsStrings.Prefix: counts characters, not UTF-16 code units. The two differ only for characters outside the Basic Multilingual Plane.
- JsStrings.ParseInt: returns an unbounded integer. It does not model the loss of precision of `parseInt` above 2^53.
- `app/page.tsx` is not part of this model.
