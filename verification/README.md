# covid-cz scraper core, in Dafny

This models the pure core of the covid-cz scraper (`src/main.js`). The scraper reads the Czech health
ministry's COVID-19 page once per run. It builds one record from the page: the three headline counters,
the two cumulative chart series, the per-region table, the report URL, the page's last-updated time, the
run stamp and the secondary news source's figures. It then compares that record with the one kept under
the `LATEST` key of a key-value store. The record is appended to a history dataset only when it differs in
something other than its run stamp. `LATEST` is always overwritten, and the record is pushed to the default
dataset.

The modules follow the program's pieces:

- `Wrappers`: `Option`, and a `Result` whose error is the JavaScript exception that ends the run
  (`TypeError`, `RangeError`, `SyntaxError`, or the secondary source's failure).
- `Numerals`, `JsText`, `ParseInt`: the string builtins the scraper relies on:
  - `trim` (ECMAScript white space and line terminators);
  - `replace` with a string pattern, which replaces the first occurrence only;
  - `replace(/ /g, "")`;
  - `split`;
  - `parseInt` (section 19.2.5 of ECMA-262);
  - the scraper's `toNumber` and the counter conversion `toNumber(text.replace(" ", ""))`.
- `Civil`: the ECMAScript day and time arithmetic (MakeDay, MakeDate, TimeClip) on civil date-time
  records. It includes the previous-day and minus-one-hour rollover that `Date.UTC(.., hours - 1, ..)`
  performs.
- `IsoDate`: `Date.prototype.toISOString` (section 21.4.4.36 of ECMA-262), the reading of that text back,
  and the `RangeError` on an invalid date.
- `DateText`: the host's `new Date(string)` for the month-first shapes the scraper builds, `parseDateToUTC`,
  and the conversion of the page's `DD.MM.YYYY vHH.MMh` into a UTC instant one hour earlier.
- `Json`: JavaScript values as JSON sees them, with property read, `delete`, assignment, object spread, and
  the JSON round trip `JSON.parse(JSON.stringify(v))`.
- `JsonText`: `JSON.stringify` as text (section 25.5.2 of ECMA-262) and a reader for that text.
- `Series`: `connectDataFromGraph` and the region projection.
- `Snapshot`: the record, with the order in which its parts may throw.
- `Persist`: the compare, push and overwrite step, and whole runs.

The page after the DOM lookups, the parsed chart attributes, the clock and the secondary source's result
are inputs. The key-value store and the two datasets are a small immutable state. They keep JSON text, so
each holds the JSON round trip of what was written.

## Model

| member | source | states |
|---|---|---|
| ParseInt.ParseIntDecimal | src/main.js:5 | after leading white space, a run of decimal digits followed by a non-digit reads as the number those digits denote |
| ParseInt.ParseIntNoDigit | src/main.js:5 | text whose first non-space character is not a digit or sign gives `NaN` (`None`) |
| ParseInt.ParseIntMinus | src/main.js:5 | a leading minus negates the magnitude read after it |
| ParseInt.ParseIntHex | src/main.js:5 | a `0x` prefix switches to hexadecimal digits |
| ParseInt.ToNumberDigits | src/main.js:4-6 | a plain run of digits converts to its value |
| ParseInt.ToNumberFirstComma | src/main.js:5 | only the first comma is removed before `parseInt` |
| ParseInt.ToNumberOneComma | src/main.js:4-6 | digits with one comma between them convert to the number of all the digits joined |
| ParseInt.ToNumberSecondComma | src/main.js:4-6 | with two commas, only the digits before the second comma count |
| ParseInt.CounterFirstSpace | src/main.js:50-52 | the counter drops only the first space, then applies `toNumber` |
| ParseInt.CounterSpaceAndComma | src/main.js:50-52 | a counter grouped as `a b,c` converts to the number of all its digits |
| ParseInt.CounterTwoSpaces | src/main.js:50-52 | with two spaces, only the digits before the second space count |
| ParseInt.CounterNotNumeric | src/main.js:50-52 | a counter that does not start with a digit, space, comma or sign is `NaN` |
| JsText.Trim | src/main.js:35-38 | the result is the input without leading and trailing white space, and it neither starts nor ends with white space |
| JsText.TrimAround | src/main.js:35-38 | white space around a text that neither starts nor ends with white space is exactly what `trim` removes |
| JsText.ReplaceAtFirst | src/main.js:5 | `replace` with a string pattern substitutes at the first occurrence only, leaving the rest as it was |
| JsText.ReplaceAbsent | src/main.js:5 | without an occurrence, `replace` changes nothing |
| JsText.RemoveAll | src/main.js:38 | the global removal leaves no no-break space, keeps every other character with its count, and is the identity when there is none |
| JsText.Split | src/main.js:9 | the pieces hold no separator and join back to the input |
| JsText.SplitNoSeparator | src/main.js:9 | text without the separator splits into itself alone |
| JsText.SplitAtFirst | src/main.js:9 | the first piece ends at the first separator and the rest splits on its own |
| JsText.SplitOfJoin | src/main.js:9 | splitting pieces joined by a separator they do not contain gives back the pieces |
| JsText.Field | src/main.js:10 | a missing piece is written into the template as `undefined` |
| Civil.PrevDay | src/main.js:46 | the previous day is a valid date whose day number is one less |
| Civil.NextDay | src/main.js:45 | the next day is a valid date whose day number is one more, in the same year or the next |
| Civil.PrevNextDay | src/main.js:46 | the previous day of the next day is the day itself |
| Civil.RollDay | src/main.js:10 | a day past the month's end rolls into the next month at the same day number; an existing date is kept |
| Civil.MinusOneHour | src/main.js:46 | one hour earlier on the time line; the minute is unchanged; at hour 0 the result is 23:MM of the previous calendar day |
| Civil.TruncateToMinute | src/main.js:58 | the same year, month, day, hour and minute with seconds and milliseconds zero, at most one minute before the instant |
| Civil.TimeValueInjective | src/main.js:46 | two valid date-times with the same time value are equal |
| Civil.DayNumberInjective | src/main.js:11 | two valid dates with the same day number are equal |
| Civil.UtcFields | src/main.js:11 | `Date.UTC` keeps the fields of a date-time from year 100 on; a year from 0 to 99 is moved to 1900 to 1999 with the same time of day, on the same day when that year has it. Every date the host parses is from year 100 on, so there it changes nothing |
| Civil.InRangeYear | src/main.js:18 | a valid `Date` has a year from -271821 to 275760, so its ISO year has at most six digits |
| Civil.DayFromYearStep | src/main.js:46 | the first day of the next year comes one year length after the first day of this one |
| IsoDate.IsoRoundTrip | src/main.js:18 | reading the ISO text back gives the date-time it was written from |
| IsoDate.IsoCanonical | src/main.js:18 | every text the reader accepts is the ISO text of what it reads |
| IsoDate.IsoOf | src/main.js:18 | an invalid date throws a `RangeError`; a valid one gives text that reads back as it |
| DateText.Build | src/main.js:10 | the host gives a date only for months 1 to 12, days 1 to 31, hours 0 to 23 with minutes 0 to 59 or the time 24:00, and only when TimeClip accepts it; before 24:00 the hour and the year are kept, and 24:00 is hour 0 |
| DateText.BuildMeaning | src/main.js:10 | the date exists exactly when the fields are in range and TimeClip accepts them; it is the instant of those fields; a real calendar date is kept as it is, and at 24:00 it becomes midnight of the next day |
| DateText.HostParseDate | src/main.js:10 | the text `a/b/c` is read as month `a`, day `b` and year `c` at midnight, or as year, month and day when `a` cannot be a day, with years 0 to 49 meaning 2000 to 2049 and 50 to 99 meaning 1950 to 1999 |
| DateText.HostParseDateTime | src/main.js:45 | the text `a.b.c  H:MM` is read as the same composed date at that time, 24:00 included |
| DateText.HostParse | src/main.js:10 | every date the host reads is a valid `Date` from year 100 on, with seconds and milliseconds zero |
| DateText.ParseDateToUtc | src/main.js:8-12 | a converted date is a valid UTC midnight |
| DateText.ParseDateToUtcOf | src/main.js:8-12 | `DD.MM.YYYY` is read day first, as the host reads those numbers month first; the date exists exactly when the host composes one, and it is that date at midnight, which `Date.UTC` keeps because its year is at least 100 |
| DateText.ParseDateToUtcCalendar | src/main.js:8-12 | for a real calendar date in the windowed year, the result has that year, month and day and is midnight UTC |
| DateText.ShortYearExample | src/main.js:8-12 | `01.03.20` converts to 1 March 2020 |
| DateText.PaddedYearExample | src/main.js:8-12 | `01.03.0020` converts to 1 March 2020, as the window goes by the year's value |
| DateText.LateShortYearExample | src/main.js:8-12 | `01.03.75` converts to 1 March 1975 |
| DateText.SplitOnV | src/main.js:39 | the last-updated text splits on `v` into the date part (with its trailing space) and the time part |
| DateText.SourceDateTimeTextOf | src/main.js:39-45 | the page's `DD.MM.YYYY vHH.MMh` becomes the month-first text handed to `new Date` |
| DateText.CleanLastModifiedOf | src/main.js:38 | white space, the label and no-break spaces are stripped, leaving the date-time text |
| DateText.SourceTimestamp | src/main.js:45-46 | the source time is a valid instant with seconds and milliseconds zero |
| DateText.SourceTimestampOfFields | src/main.js:45-46 | the source time exists exactly when the host read the fields and the instant one hour earlier is in range; it is that instant |
| DateText.SourceTimestampCalendar | src/main.js:45-46 | for a real local date-time, the source time is that date-time minus one hour, rolling day, month and year back at hour 0 |
| DateText.SourceTimestampDayEnd | src/main.js:45-46 | a text the host reads as 24:00 of a real day gives 23:00 of that day |
| DateText.LastUpdatedOf | src/main.js:38-46 | the page's `DD.MM.YYYY vHH.MMh` for a real local time gives that local time minus one hour, in the windowed year |
| DateText.LastUpdatedDayEnd | src/main.js:38-46 | the page's `DD.MM.YYYY v24.00h` gives 23:00 UTC of that day, in the windowed year |
| DateText.LastUpdatedExample | src/main.js:39-46 | `05.03.2020 v14.30h` gives 13:30 on 5 March 2020 |
| DateText.DayEndExample | src/main.js:39-46 | `05.03.2020 v24.00h` gives 23:00 on 5 March 2020 |
| DateText.PageExample | src/main.js:38-46 | `Poslední aktualizace: 05.03.2020 v14.30h` gives 13:30 on 5 March 2020 |
| Json.Get | src/main.js:16-18 | a property read throws a `TypeError` on `null` and `undefined` and gives `undefined` for a missing property |
| Json.GetMember | src/main.js:17 | an object's property reads as its member's value |
| Json.Delete | src/main.js:71-73 | `delete` throws a `TypeError` on `null` and `undefined`; on an object the key is gone afterwards |
| Json.DeleteKeepsOthers | src/main.js:71-73 | deleting one key leaves every other property's value as it was |
| Json.LookupAt | src/main.js:17 | in an object with unique keys, each property reads as its own value |
| Json.RemoveAbsent | src/main.js:71-73 | deleting a key the object does not have changes nothing |
| Json.RemoveCommutes | src/main.js:71-73 | deleting two keys in either order gives the same object |
| Json.RemoveIdempotent | src/main.js:71-73 | deleting a key twice is deleting it once |
| Json.RemoveSameExcept | src/main.js:71-73 | objects that differ only under the deleted key are equal after the delete |
| Json.PutReads | src/main.js:64 | after an assignment the key reads as the new value and other keys are unchanged |
| Json.PutKeys | src/main.js:64 | after an assignment the keys are the old ones, with the new key added at the end when it was not there |
| Json.PutAppends | src/main.js:64 | assigning a key that no property has appends that property after the others |
| Json.PutNew | src/main.js:64 | assigning a key the object does not have appends it as the last property |
| Json.Spread | src/main.js:64-66 | spread gives an object: an object's own members, an array's or string's elements by index, nothing for other values |
| Json.SpreadArray | src/main.js:64-66 | a spread array has unique keys and its element `i` under the key `"i"` |
| Json.CanonIsCanonical | src/main.js:79 | the JSON round trip gives a value JSON holds as it is |
| Json.CanonOfCanonical | src/main.js:70 | a value JSON holds as it is survives the round trip unchanged |
| Json.CanonIdempotent | src/main.js:70-79 | a second JSON round trip changes nothing |
| Json.DeleteCanon | src/main.js:70-73 | deleting the stamp before or after the JSON round trip gives the same value |
| JsonText.Stringify | src/main.js:75 | `JSON.stringify` gives no text for `undefined` and text for everything else |
| JsonText.ParseOfStringify | src/main.js:70 | reading back what `JSON.stringify` wrote gives the JSON round trip of the value |
| JsonText.TextOfCanon | src/main.js:75 | the JSON round trip does not change a value's text |
| JsonText.SameText | src/main.js:75 | two values have the same JSON text exactly when their JSON round trips are equal |
| JsonText.SameStringify | src/main.js:75 | the same for `JSON.stringify` on values other than `undefined` |
| Series.MapAllOk | src/main.js:16 | `map` succeeds exactly when the callback succeeds on every element, and element `i` is the callback's result on element `i` |
| Series.MapAllFirstError | src/main.js:16 | when the callback throws, `map` throws what the first throwing element threw |
| Series.PointDate | src/main.js:18 | a non-string `x` throws a `TypeError`, an invalid date a `RangeError`; otherwise the text reads back as `parseDateToUTC(x)` |
| Series.Point | src/main.js:16-19 | a point becomes `{value: y, date}`; it fails exactly when the point is `null`/`undefined` or its date cannot be written |
| Series.ConnectDataFromGraph | src/main.js:14-20 | a series has one element per chart point |
| Series.ConnectMeaning | src/main.js:14-20 | the series succeeds exactly when every point converts, and element `i` is point `i` converted |
| Series.ConnectFirstError | src/main.js:14-20 | the series throws what its first failing point throws |
| Series.ConnectEmpty | src/main.js:14-20 | no chart points give an empty series |
| Series.ConnectNotArray | src/main.js:16 | a `values` that is not an array throws a `TypeError` |
| Series.PointOfDay | src/main.js:16-19 | a point dated `DD.MM.YYYY` on a real day in the windowed year gets the ISO text of that day's UTC midnight |
| Series.Region | src/main.js:55 | an entry keeps exactly `name` and `value`, in that order; `null`/`undefined` throws a `TypeError` |
| Series.ProjectRegions | src/main.js:55 | a non-array throws a `TypeError`; an array gives one entry per element |
| Series.ProjectMeaning | src/main.js:55 | the table succeeds exactly when no entry is `null`/`undefined`, and entry `i` holds element `i`'s `name` and `value` |
| Series.RegionOfEntry | src/main.js:55 | an entry with `name` and `value` members projects to exactly those values |
| Snapshot.Counter | src/main.js:35-37 | a counter is the trimmed text's converted number, or `NaN` when it has none |
| Snapshot.Parsed | src/main.js:40-42 | an attribute that is not JSON throws a `SyntaxError` |
| Snapshot.UrlValue | src/main.js:34 | a missing report URL is `undefined` |
| Snapshot.SourceText | src/main.js:38-45 | a last-updated text without a `v` throws a `TypeError` at `parts[1]` |
| Snapshot.Stamp | src/main.js:58 | the run stamp reads back as the `Date.UTC` of the clock's fields down to the minute, with seconds and milliseconds zero; from year 100 on that is the clock truncated to the minute |
| Snapshot.ReadInputs | src/main.js:38-45 | the charts parse in order, and then the time text is split; a bad chart throws a `SyntaxError` first, and otherwise a missing `v` throws a `TypeError` |
| Snapshot.ComputeParts | src/main.js:53-57 | the two series, the region table and the source time succeed exactly when each does, with the values those pieces give |
| Snapshot.RecordLayout | src/main.js:49-64 | the record's properties come in the order the code lists them, with `fromBabisNewspapers` last |
| Snapshot.RecordAssigned | src/main.js:64 | assigning `fromBabisNewspapers` to the object literal appends it as the last property |
| Snapshot.BuildRecord | src/main.js:35-66 | the record fails with `SyntaxError`, `TypeError` or the secondary source's fault in the code's order; otherwise it carries the URL, the read-me link, a stamp that reads back as the `Date.UTC` of the clock's fields down to the minute, and the spread secondary figures |
| Snapshot.BuildFields | src/main.js:50-57 | the record's counters, series, region table and source time are the ones the page gives |
| Snapshot.BuildStampOnly | src/main.js:48-58 | runs at two clocks over the same inputs both succeed or both fail, and then differ at most in the stamp |
| Snapshot.StampOnly | src/main.js:71-73 | records that differ only in the stamp are equal once the stamp is deleted |
| Persist.Latest | src/main.js:70 | a missing `LATEST` reads as `null` |
| Persist.Save | src/main.js:70-80 | a missing `LATEST` throws a `TypeError` before any write; otherwise `LATEST` holds the new record, the default dataset gains it, and the history gains it or stays as it was |
| Persist.SaveStored | src/main.js:76-80 | saving keeps every stored value one that JSON holds as it is |
| Persist.SaveAppends | src/main.js:70-77 | the record goes to the history exactly when, without its stamp, it differs from the stored record without its stamp |
| Persist.SaveAgain | src/main.js:70-77 | saving again a record that differs from the saved one only in its stamp adds nothing to the history |
| Persist.SaveKeepsHistory | src/main.js:76 | the history is only ever extended, by at most one record |
| Persist.Run | src/main.js:35-80 | a run that cannot build its record throws that record's fault; a successful run leaves the new record under `LATEST` |
| Persist.RunKeepsHistory | src/main.js:76 | a run never removes or rewrites what the history already holds |
| Persist.RunWithoutLatest | src/main.js:70-71 | without a value under `LATEST`, every run throws |
| Persist.RunAgain | src/main.js:48-79 | a second run over the same page and secondary figures, at any clock, adds nothing to the history |

## Left out

- The HTTP request, the proxy, the actor start-up and the cheerio DOM lookups (`src/main.js:24-34`) are network I/O and HTML. Their results are the fields of `Snapshot.Page`.
- `JSON.parse` of the three chart attributes (`src/main.js:40-42`) is an input: the parsed value, or `None` for text that is not JSON.
- `getDataFromIdnes` (`src/main.js:3, 63`): the module `src/idnes.js` is not part of this model. Its result is the input `supplemental`, whose value is spread into `fromBabisNewspapers`.
- The key-value store, the datasets and `Apify.pushData` (`src/main.js:25-26, 70, 76, 79-80`) are modelled as `Persist.Store`. Concurrency and storage failures are not modelled.
- The clock (`src/main.js:48`) is the parameter `now`.
- The local time zone is taken to be UTC. So `getFullYear`, `getHours` and the other getters give the UTC fields.
- JsonText: numbers are integers. Fractions, exponents, `-0` and `Infinity` are not modelled. `NaN` is written as `null`, as `JSON.stringify` does.
- JsonText: the reader only reads the text `JSON.stringify` writes: no white space, integers only, surrogate `\u` escapes refused. It is the partner of the writer, not a full `JSON.parse`.
- Json: objects keep their properties in insertion order. The earlier placement of integer-like keys that ECMAScript prescribes is not modelled. The record's and the regions' keys are not integer-like.
- Json.Lookup: the first member wins. Duplicate keys cannot arise from the object literals modelled here.
- DateText.HostParse: the host's date-string fallback is modelled for the shapes the scraper builds: three numbers, then optionally `hours:minutes`. Month names, seconds, AM/PM, time-zone suffixes and the other formats the host also accepts are not modelled.
- Civil: years are unbounded integers. TimeClip is what limits a valid `Date`.
- ParseInt.JsParseInt: gives the exact integer the digits denote. `parseInt` gives an IEEE double, so a value above 2^53 is rounded and a very long digit run is `Infinity`, which `JSON.stringify` writes as `null`. The counters on the page are far below 2^53.
- ParseInt.ParseIntDecimal: states the exact value of the digits, with the same limit as `ParseInt.JsParseInt`.
- Persist.Save: a stored `LATEST` that is a non-object primitive is compared as it is; `delete` on a primitive is not an error.
- Counters: the code strips one space and one comma only. A counter grouped with two spaces or two commas keeps the digits before the second one. This is modelled as written.
- A missing `LATEST` makes `delete latest.lastUpdatedAtApify` throw. The code does not treat a first run as a change. This is modelled as written.
- A failing secondary source aborts the run, because the code has no `catch`. This is modelled as written.
- The comparison is between `JSON.stringify` texts, so two records with the same properties in a different order count as different. This is modelled as written.
