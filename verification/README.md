# Web-analytics dashboard core, modelled in Dafny

This project models the analytics core of the dashboard in
`src/analytics.ts`. The core is pure, synchronous logic over access
reports that have already been fetched:

- **The timestamp codec.** It parses the colon-delimited wire form
  `Y:M:D:H:MM:SS.:mmm` used as report keys, renders an instant back to
  that form, renders the sortable 14-digit form `YYYYMMDDHHMMSS`, and
  sorts wire timestamps by the instant they denote.
- **The record filters.** The per-visitor bot filter keeps every report
  of a visitor with at least one confirmed report. The range filter keeps
  the reports whose timestamp lies in a closed interval.
- **The time bucketers.** They produce one bucket per calendar day or
  hour from the start's unit to the end's unit, and file every report
  under the key of its own unit.
- **The three group-bys.** They group by country, visitor uuid or source
  address.

## Design

- An instant is a calendar tuple `Calendar.Instant`: year, 0-based month,
  day, hour, minute, second and millisecond.
  - `Calendar.Valid` is the proleptic Gregorian calendar.
  - `Calendar.Before` (lexicographic on the fields) stands in for `<` on
    JavaScript `Date` values.
  - Day and hour arithmetic go through day numbers (`Calendar.DayNumber`,
    `Calendar.HourNumber`). `NextDay` and `NextHour` are the rollover
    steps.
- Strings are `seq<char>`.
  - `Text.Split` is JavaScript's `String.prototype.split` with a
    one-character separator.
  - `Text.ToNumber` is unary `+` on a field: all-digit text, and the empty
    text reads as 0.
  - `Text.PadStart` is `padStart`.
- A JavaScript `Map` is an insertion-ordered sequence of pairs with
  distinct keys (`OrderedMap`).
  - `Set` is `map.set`.
  - `AppendUnder` is the get-or-create-then-push of the bucketers.
  - `Gather` appends a sequence of `(key, value)` items in order.
- Parsing is partial (`Option`). A timestamp the model cannot turn into
  a valid date gives `None`. The range filter and the bucketers return a
  `Result` whose failure names the offending text
  (`Reports.MalformedTimestamp`). `Timestamp.SortTimestamps` and
  `Timestamp.Comparator` instead require every text to parse.
- Results are keyed by `Buckets.Key` tuples. `Buckets.Render` turns them
  into the `YYYY/MM/DD[/HH]` strings through `Buckets.FormatKey`, which is
  proved injective.

The modules follow the program's layers:

| layer | modules |
|---|---|
| helpers | `Wrappers`, `Text`, `Calendar`, `OrderedMap` |
| codec | `Timestamp` |
| filters | `Reports` |
| group-bys | `Grouping` |
| bucketers | `Buckets` |

`Scenarios` holds worked examples: the two-day hourly walk, empty days,
and a small bot-filter case.

### Two timestamp forms

- **Range endpoints.** `FetchAccessReportsByRecentMonths`
  (`src/analytics.ts:131`) sends `FormatTimeToScore` output as range
  bounds. `GetReportsInRange` and the bucketers parse their `start` and
  `end` with `ParseTimestamp`, which splits on `:`. A sortable 14-digit
  text has no colon, so it never parses
  (`Timestamp.ScoreIsNotWireForm`), and those operations reject it.
- **The wire form does not round-trip exactly.**
  `ParseTimestamp(DateToTimestamp(t))` returns `t` with milliseconds 0.
  - The milliseconds are written after `.:`, so they land in the seventh
    colon field, which is never read. The text after the `.` in the sixth
    field is empty, which reads as 0.
  - Years 0–99 come back as 1900–1999 (the `Date` constructor's legacy
    rule).
  - `0:2:29` (29 February of year 0, a leap day) would become 29
    February 1900, which is not a date. `Date` rolls it over to 1 March
    1900, and the model does not parse it.

  `Timestamp.ParseDateToTimestamp` and `Timestamp.ParseTwoDigitYear` state
  exactly this.
- **Non-wire texts can carry milliseconds.** A text whose sixth field has
  digits after its `.` does carry milliseconds: `2024:1:1:0:0:0.5` parses
  to 5 ms, in the source and in the model alike.

## Model

| member | source | states |
|---|---|---|
| Text.Split | src/analytics.ts:25-26 | `split` on one separator yields at least one piece. No piece contains the separator, and joining the pieces with it gives back the input. |
| Text.SplitJoin | src/analytics.ts:25-26 | Splitting the join of separator-free pieces gives back exactly those pieces, so `split` inverts `join`. |
| Text.ToNumber | src/analytics.ts:28 | Unary `+` on a field succeeds exactly when the field is all digits. The empty field reads as 0. The value read is the one the field spells digit by digit, leading zeros included (`Text.WrittenAs`), so `"05"` reads as 5. |
| Text.DigitsOfDigitsToNat | src/analytics.ts:28 | Any digit run, zero-padded or not, is the fixed-width form of the value read from it, and that value has no more digits than the field. |
| Text.WrittenAsDigits | src/analytics.ts:28 | A text spells `v` digit by digit exactly when it is all digits, `v` has no more digits than it, and it is the zero-padded form of `v` at its own length. |
| Text.ToNumberOfNatToString | src/analytics.ts:28 | Reading back the decimal text of `n` gives `n`. |
| Text.NatToString | src/analytics.ts:98-103 | `String(n)` is a non-empty run of decimal digits. It has one digit exactly when `n < 10`, and it starts with `0` only for `n == 0`. |
| Text.DigitsToNatOfNatToString | src/analytics.ts:98-103 | The decimal rendering `String(n)` is inverted by reading its digits. |
| Text.NatToStringInjective | src/analytics.ts:98-103 | Different numbers render to different decimal texts. |
| Text.PadTwoIsDigits | src/analytics.ts:110-114 | `String(n).padStart(2, '0')` for `n < 100` is the two-digit zero-padded rendering of `n`. |
| Text.DigitsOrder | src/analytics.ts:119-123 | Fixed-width zero-padded renderings compare lexicographically exactly as the numbers compare. They are equal exactly when the numbers are equal. |
| Calendar.BeforeIsStrictTotalOrder | src/analytics.ts:33 | The instant order standing in for `Date` `<` is irreflexive, asymmetric, total and transitive. |
| Calendar.DayNumberOrder | src/analytics.ts:190 | Day numbers order calendar dates chronologically and are distinct for distinct dates. |
| Calendar.NextDay | src/analytics.ts:190 | `setDate(getDate() + 1)` gives a valid instant on the next day number, with the same time of day, across month and year ends. |
| Calendar.NextHour | src/analytics.ts:221 | `setHours(getHours() + 1)` gives a valid instant one hour number later, with the same minutes, seconds and milliseconds. |
| Calendar.NextDayIsSuccessor | src/analytics.ts:190 | The next day is later, and no valid date lies strictly between a day and its next day. |
| Timestamp.MakeDate | src/analytics.ts:28 | `new Date(y, m, d, h, mi, s, ms)` on in-range components is that valid instant, with years 0–99 read as 1900–1999. |
| Timestamp.ParseTimestamp | src/analytics.ts:24-29 | A parse result is always a valid instant with year at least 100. Text with fewer than six colon-separated sections never parses. |
| Timestamp.SplitWireForm | src/analytics.ts:105 | The wire form splits into exactly seven sections: the six unpadded numbers, with the sixth followed by `.`, then the milliseconds. |
| Timestamp.ParseWireFields | src/analytics.ts:24-29 | Parsing a wire form rebuilds the date from its year, month, day, hour, minute and second, with milliseconds 0. |
| Timestamp.ParseDateToTimestamp | src/analytics.ts:96-106 | For years from 100 on, parsing `DateToTimestamp(t)` gives back `t` with the milliseconds set to 0. |
| Timestamp.ParseTwoDigitYear | src/analytics.ts:96-106 | For years 0–99, parsing `DateToTimestamp(t)` gives `t` shifted to 1900–1999 with milliseconds 0. The one exception is 29 February of year 0, which does not parse. |
| Timestamp.FormatTime | src/analytics.ts:108-117 | The year is the unpadded decimal year. The month (1-based), day, hour, minutes and seconds are each two zero-padded digits. |
| Timestamp.FormatTimeToScore | src/analytics.ts:119-123 | The sortable form is all digits, 10 characters longer than the year's digits. |
| Timestamp.ScoreIsNotWireForm | src/analytics.ts:24-29 | A sortable-form text never parses as a timestamp. |
| Timestamp.ScoreDigitsOrder | src/analytics.ts:119-123 | The concatenated zero-padded fields compare lexicographically exactly as the instants (ignoring milliseconds) compare chronologically. |
| Timestamp.ScoreOrder | src/analytics.ts:119-123 | For four-digit years the sortable form has 14 digits. Its lexicographic order is the chronological order of the instants up to the second, and equal texts mean equal instants up to the second. |
| Timestamp.Comparator | src/analytics.ts:32-37 | The sort's comparator never answers 0: it answers -1 or 1. |
| Timestamp.ComparatorTies | src/analytics.ts:32-37 | On distinct instants the comparator is antisymmetric. On equal instants it answers 1 both ways, which is why the order among ties is unspecified. |
| Timestamp.InsertOn | src/analytics.ts:31-38 | Inserting into a sequence that is sorted by instant keeps it sorted and adds exactly that element. |
| Timestamp.SortOn | src/analytics.ts:31-38 | The result is a permutation of the input, non-decreasing by instant. |
| Timestamp.SortTimestamps | src/analytics.ts:31-38 | The sorted timestamps are a permutation of the input and their parsed instants never decrease. The source's comparator answers 1 ("not before") for every later element against every earlier one. |
| Reports.GetHumanUuidsSpec | src/analytics.ts:40-44 | A uuid is a human one exactly when some report with `confirmed == 1` carries it. |
| Reports.KeepVisitorsSpec | src/analytics.ts:49 | An entry survives exactly when it is an input entry whose uuid is kept. No key is invented, and distinct keys stay distinct. |
| Reports.FilterBotReports | src/analytics.ts:46-51 | An entry is kept exactly when it is an input entry whose visitor has a confirmed report. The result is no longer than the input and keeps distinct keys distinct. |
| Reports.BotFilterIsPerVisitor | src/analytics.ts:46-51 | One confirmed report keeps every report of that visitor, confirmed or not. A visitor with no confirmed report vanishes entirely. |
| Reports.FilterKeepsHumans | src/analytics.ts:46-51 | Filtering does not change the set of human visitors. |
| Reports.FilterBotReportsIdempotent | src/analytics.ts:46-51 | Filtering twice is filtering once. |
| Reports.HumansOfKept | src/analytics.ts:48-49 | Keeping the visitors in a set `U` leaves exactly the human visitors that are in `U`. |
| Reports.Stamp | src/analytics.ts:167-168 | Parsing every key succeeds exactly when every key parses, and then pairs each entry with its instant, in order. Otherwise it names an unparsable key of the map. |
| Reports.StampUnstamp | src/analytics.ts:167-168 | Re-parsing the keys of faithfully stamped entries gives back the same stamped entries. |
| Reports.KeepInRangeSpec | src/analytics.ts:167-172 | A stamped entry is kept exactly when it is an input entry whose instant lies in the closed interval. Distinct keys stay distinct. |
| Reports.KeepInRangeKeepsAll | src/analytics.ts:169 | When every entry is in range, nothing is dropped. |
| Reports.GetReportsInRange | src/analytics.ts:161-175 | It succeeds exactly when start, end and every key parse. It then keeps exactly the entries with `start <= key <= end`, both ends included, and keeps keys distinct. A failure names an unparsable start, end or key. |
| Reports.GetReportsInRangeIdempotent | src/analytics.ts:161-175 | Applying the range filter to its own result changes nothing. |
| OrderedMap.Set | src/analytics.ts:137 | `map.set` replaces the value under an existing key in place, or appends a new key at the end. Other entries are untouched. |
| OrderedMap.AppendUnder | src/analytics.ts:202-203 | Get-or-create-then-push appends the value to that key's list, creating the key at the end when absent. Other entries are untouched. |
| OrderedMap.Preset | src/analytics.ts:137 | Setting an empty list under each key in turn yields the distinct keys in first-seen order, each with an empty list. |
| OrderedMap.DedupFirstSeen | src/analytics.ts:137 | The distinct keys come in the order of their first occurrence. |
| OrderedMap.GatherEntry | src/analytics.ts:138 | Pushing items whose keys are all present extends each entry by exactly its key's items, in order, and adds no key. |
| OrderedMap.PartitionSize | src/analytics.ts:138 | When every item's key is present and each list holds exactly its key's items, the list lengths add up to the number of items. |
| Grouping.GroupBy | src/analytics.ts:134-141 | The groups have distinct keys, which are the field values in first-seen order. Each holds exactly the reports with that value, in input order. |
| Grouping.GroupByMembership | src/analytics.ts:134-141 | A report is in a group exactly when it is an input report with that group's value. |
| Grouping.GroupByKeys | src/analytics.ts:137 | A value is a group key exactly when some input report has it. |
| Grouping.GroupByFirstSeen | src/analytics.ts:137 | Earlier groups are the values that occur first earlier in the input. |
| Grouping.GroupBySize | src/analytics.ts:138 | The group sizes add up to the number of input reports. |
| Grouping.GetCountryReports | src/analytics.ts:134-141 | The keys are exactly the countries that occur. Each list holds exactly that country's reports, in input order. |
| Grouping.GetReportsByUniqueVisitor | src/analytics.ts:143-150 | The keys are exactly the uuids that occur. Each list holds exactly that visitor's reports, in input order. |
| Grouping.GetReportsByUniqueIP | src/analytics.ts:152-159 | The keys are exactly the source addresses that occur. Each list holds exactly that address's reports, in input order. |
| Buckets.KeyOf | src/analytics.ts:200-201 | The key of an instant's day or hour is a well-formed key of that granularity. |
| Buckets.KeyNumberOrder | src/analytics.ts:190 | Key numbers order keys chronologically and are distinct for distinct keys. |
| Buckets.Floor | src/analytics.ts:180-183 | Resetting hours (by day), minutes and seconds gives the start of the same unit, not after the instant, with the milliseconds unchanged. |
| Buckets.Ceil | src/analytics.ts:185-188 | Setting hour 23 (by day), minute 59 and second 59 gives the last second of the same unit, not before the instant, with the milliseconds unchanged. |
| Buckets.Step | src/analytics.ts:190 | One cursor step moves to the next unit and keeps the cursor at a unit start. |
| Buckets.CursorCondition | src/analytics.ts:190 | With the cursor at a unit start and the end at a unit's last second, `cursor <= endDate` holds exactly while the cursor's unit is not after the end's. |
| Buckets.Walk | src/analytics.ts:190-193 | The pre-fill loop creates one key per unit from the start's unit to the end's, consecutive and in order. It creates none when the end's unit comes first. |
| Buckets.WalkCovers | src/analytics.ts:190-193 | An instant's key is created by the walk exactly when its unit lies between the start's and the end's. |
| Buckets.KeyedMembership | src/analytics.ts:196-205 | A report is filed under a key exactly when it lies in the widened interval and that key is its own unit's. |
| Buckets.Bucketize | src/analytics.ts:177-208 | It succeeds exactly when start, end and every key parse. It then produces one bucket per unit from the start's to the end's, consecutive and distinct, each holding exactly the in-interval reports of that unit in map order. A failure names the unparsable text. |
| Buckets.DefensiveInsertAddsNoKey | src/analytics.ts:202 | The defensive `if (!has(key)) set(key, [])` never fires: the result's keys are exactly the walked keys. |
| Buckets.BucketForEveryUnit | src/analytics.ts:190-193 | There is a bucket for an instant's unit exactly when that unit lies between the start's and the end's, and it sits at the unit's offset from the start. |
| Buckets.BucketsChronological | src/analytics.ts:190-193 | Buckets are in chronological order, and bucket `j` lies exactly `j - i` units after bucket `i`. |
| Buckets.BucketMembership | src/analytics.ts:196-205 | A report is in a bucket exactly when it is a report of the map whose timestamp lies in the widened interval and falls in that bucket's unit. |
| Buckets.BucketTotal | src/analytics.ts:196-205 | The bucket sizes add up to the number of reports inside the widened interval, so each in-range report is filed exactly once. |
| Buckets.WidenedInterval | src/analytics.ts:180-188 | The widened interval holds only instants in the units from the start's to the end's. Conversely it holds every such instant whose milliseconds lie between the start's and the end's. |
| Buckets.FormatKey | src/analytics.ts:192 | A key renders as the unpadded year, the two-digit 1-based month and the two-digit day (and the two-digit hour), separated by `/`. |
| Buckets.FormatKeyOfTime | src/analytics.ts:200-201 | The rendered key of an instant's unit is the `/`-join of `FormatTime`'s year, month, day (and hour). |
| Buckets.FormatKeyInjective | src/analytics.ts:192 | Distinct keys of one granularity render to distinct strings. |
| Buckets.Render | src/analytics.ts:192 | Rendering the keys keeps the buckets, their order and their lists, and keeps keys distinct. |
| Buckets.RenderedBuckets | src/analytics.ts:196-205 | The rendered result has distinct keys and one entry per unit. Entry `i` is the rendered key `i` units after the start's, with exactly that unit's reports. |
| Buckets.GetDailyReports | src/analytics.ts:177-208 | It succeeds exactly when start, end and every key parse. It then has one entry per calendar day from the start's day to the end's day, in order. Each entry is that day's `YYYY/MM/DD` key with exactly that day's in-interval reports. |
| Buckets.GetHourlyReports | src/analytics.ts:210-238 | It succeeds exactly when start, end and every key parse. It then has one entry per hour from the start's hour to the end's hour, in order. Each entry is that hour's `YYYY/MM/DD/HH` key with exactly that hour's in-interval reports. |
| Scenarios.ParseOfSections | src/analytics.ts:24-29 | A text whose colon sections read as year, 1-based month, day, hour and minute, and whose sixth section is the seconds followed by `.`, parses to that date with the month made 0-based and the milliseconds 0, whatever the seventh section holds. |
| Scenarios.ParseStart | src/analytics.ts:24-29 | `2024:1:1:0:00:00.:0` parses to 1 January 2024, 00:00:00. |
| Scenarios.ParseEnd | src/analytics.ts:24-29 | `2024:1:2:23:59:59.:0` and `2024:1:3:23:59:59.:0` parse to the last second of 2 and 3 January 2024. |
| Scenarios.HourlyTwoDays | src/analytics.ts:210-224 | An hourly range from 00:00:00 on 1 January to 23:59:59 on 2 January yields 48 buckets. |
| Scenarios.DailyEmptyBuckets | src/analytics.ts:177-193 | A daily range over three days with no reports yields three buckets, all empty. |
| Scenarios.NoReportsEmptyDays | src/analytics.ts:190-193 | With no reports, every bucket exists and is empty. |
| Scenarios.BotFilterExample | src/analytics.ts:46-51 | An unconfirmed report of a confirmed visitor survives the filter. A visitor with no confirmed report is dropped. |

## Left out

- The `Fetch*` functions and `FetchAccessReportsByRecentMonths`
  (`src/analytics.ts:53-94`, `:125-132`) are left out. They are network
  I/O, HTTP status handling, JSON parsing and `Date.now()`.
- The `Server` class is left out because it holds credentials and no logic.
- `src/common.ts` is not part of this model.
  - `ObjectToMap` is taken as given: a collection is already the sequence
    of `(timestamp, report)` entries.
- Time zones and daylight saving are left out. `Date` is local wall-clock
  time; the model is a naive proleptic-Gregorian clock with no DST, so
  hourly stepping across a DST change is not modelled.
- JavaScript `Date` normalisation is left out. A component out of range
  (month 13, day 32, hour 24, and equally month 0 or day 0, which step
  back to the previous year or month) would be carried into a neighbouring
  unit; here it makes the parse fail.
- Number-conversion edge cases are left out. `+` accepts signs, spaces,
  exponents and hexadecimal; the model reads plain digit strings only,
  and the empty string as 0.
- The range of `Date` (about ±275,000 years) is not modelled; years are
  unbounded naturals.
- Reports.Stamp: a key that does not parse aborts the whole operation
  with `MalformedTimestamp`. The source differs:
  - a key with fewer than six colon fields makes it throw a `TypeError`;
  - a key whose sixth field has no `.`, or with a field unary `+` reads
    as `NaN`, gives `Invalid Date`. Every comparison with `Invalid Date`
    is false, so that entry is silently dropped;
  - a key with an out-of-range component (`2024:1:32:0:0:0.:0`) is a
    valid `Date` in the source, rolled over into the next unit (here 1
    February 2024), and is kept when it falls in range;
  - so is a key with a field that unary `+` accepts but that is not plain
    digits (`" 5"`, `"1e3"`).

  Such keys fail only in the model.

  The same applies to `Reports.GetReportsInRange`, `Buckets.Bucketize`,
  `Buckets.GetDailyReports` and `Buckets.GetHourlyReports`, and to an
  unparsable `start` or `end`.
- Timestamp.SortTimestamps: requires every timestamp to parse. With
  `Invalid Date` the comparator is inconsistent and the native sort's
  result depends on its algorithm.
  - `Array.prototype.sort` itself is modelled by an insertion sort
    (`SortOn`), specified only by its permutation and ordering
    postcondition.
  - The relative order of equal instants is left unspecified.
- Buckets.WidenedInterval: the milliseconds of `start` and `end` are not
  reset by the source's floor and ceiling. The lemma therefore promises
  only a conditional converse, for instants whose milliseconds lie
  between the bounds'.
  - Wire-form texts (`...S.:mmm`) always parse with milliseconds 0, so
    for them the condition always holds.
  - A `start` whose sixth field carries milliseconds (`...:0.5`) keeps
    them after the floor. Reports in the first second of the first unit
    whose milliseconds are smaller are then excluded.
- `AccessReport.timestamp` and the other text fields are carried through
  unchanged. No operation of the core reads them except `uuid`,
  `country`, `source_ip` and `confirmed`.
