# RAST common utilities, modelled in Dafny

This project models the shared Python utilities of RAST, a tool that collects performance
data of a web system under load and turns it into training data:

- **SwitchAggFlowStats**: a per-second aggregator of the bytes and packets a network switch
  forwards. Samples are keyed by the time of day, cut to whole seconds. A JSON encoder writes
  the two maps with `HH:MM:SS` keys. The decoder's `object_hook` method reads them back when
  it is passed to `json.loads` as the hook. Passing the decoder class as `cls=` runs no hook,
  so the snapshot stays a plain dict (see Findings).
- **readResponseTimesFromLogFile**: builds a table from timestamps to response times out of
  a load-test log. A timestamp that is already taken moves forward 100 µs at a time until
  it is free.
- **The training-data store**:
  - `TrainingDataRow`, a mutable row adapter over the two entity versions, V1 and the
    current one with three switch columns;
  - the dicts that `insert_training_data` hands to the database;
  - the "data exists for this log file's day" query, and the inclusive `YYYY MM DD` text
    range query;
  - the read-all reader.
- **read_all_performance_metrics_from_db**, in two variants:
  - the newer `main` one codes request types with a fresh map on every call and emits
    13 columns;
  - the older one keeps its map at module level, so codes persist across calls, and emits
    10 columns.
- **The log scanners**: the date in a file name, the timestamp after a `]` in a log line,
  and the choice between `%S` and `%S.%f` when that timestamp is parsed.

Other conventions:

- The database table is a sequence of entities.
- The clock and `datetime.timestamp()` are parameters.
- The regular expressions are a small pattern language with Python's backtracking semantics
  for the constructs used:
  - `\d*` and `\s*`, greedy;
  - `\.` and `\.?`;
  - the `(?<=\])` lookbehind;
  - `re.search`, which takes the leftmost match.
- The schema version `SELECTED_VERSION` is a parameter `selected`. When it is V1, the class
  `TrainingDataEntity` does not exist and every use of it is a `NameError`; under the
  current version the same holds for `TrainingDataEntityV1`.

Modules:

- `Wrappers`: `Option`, `Result` and the Python exception kinds.
- `Dicts`: insertion-ordered dicts.
- `Text`: digits, `str.strip`, and text order.
- `DateTimes`:
  - the calendar and `weekday()`;
  - `strftime`/`strptime` for the shapes used;
  - `str(time)` and `time.fromisoformat`.
- `Regex`: the pattern language.
- `StringUtils`, `FileUtils`, `SwitchAggFlowStats`: one module per Python file.
- `Version`, `TrainingDatabase`, `OrdinalEncoding`:
  - `OrdinalEncoding` holds the request-type coding shared by both exporters.
- `TrainingDatabaseUtils`: the `main` exporter.
- `LegacyTrainingDatabaseUtils`: the older exporter, as a class that holds the module-level
  map.

## Model

| member | source | states |
|---|---|---|
| SwitchAggFlowStats.SwitchAggFlowStats.constructor | rast_common/SwitchAggFlowStats.py:9-12 | a new instance has the given switch id and two empty maps |
| SwitchAggFlowStats.SwitchAggFlowStats.AddAggFlowStats | rast_common/SwitchAggFlowStats.py:14-23 | the clock reading, cut to whole seconds, is the key. An unseen second gets exactly the given bytes and packets in both maps; a seen one adds them to what is stored. The switch id is unchanged, every other second reads as before, and the two maps keep equal key sets |
| SwitchAggFlowStats.AddSampleEffect | rast_common/SwitchAggFlowStats.py:14-23 | adding a sample keeps both maps over the same valid, whole-second keys. It adds the sample's second to both key sets, stores the values for a new second or sums them into a seen second, and leaves every other key's values unchanged |
| SwitchAggFlowStats.SameSecondSamplesAccumulate | rast_common/SwitchAggFlowStats.py:21-23 | (100, 10) then (50, 5) in one second read back as (150, 15) |
| SwitchAggFlowStats.AggregateSums | rast_common/SwitchAggFlowStats.py:14-37 | after any sequence of samples, each second reads back as the sum of the samples taken in that second, and 0 when there are none |
| SwitchAggFlowStats.SecondKeyIgnoresDateAndMicroseconds | rast_common/SwitchAggFlowStats.py:15-16 | two timestamps share a key exactly when their hour, minute and second agree, whatever their dates and microseconds |
| SwitchAggFlowStats.SwitchAggFlowStats.GetBytesPerSecondFor | rast_common/SwitchAggFlowStats.py:25-30 | 0 for a second never sampled, the stored sum otherwise; it reads the object and changes nothing |
| SwitchAggFlowStats.SwitchAggFlowStats.GetPacketsPerSecondFor | rast_common/SwitchAggFlowStats.py:32-37 | 0 for a second never sampled, the stored sum otherwise; it reads the object and changes nothing |
| SwitchAggFlowStats.Initial | rast_common/SwitchAggFlowStats.py:9-12 | the state of a new instance is consistent: two empty maps with equal key sets |
| SwitchAggFlowStats.EncodeItems | rast_common/SwitchAggFlowStats.py:48-49 | each `(time, value)` item becomes `(str(time), value)`, in the same order |
| SwitchAggFlowStats.EncoderDefault | rast_common/SwitchAggFlowStats.py:44-51 | a stats object becomes a dict with exactly the keys `switch_id`, `bytes_per_second_received` and `packets_per_second_received`, in that order; any other object goes to the base class, which fails |
| SwitchAggFlowStats.DecodeItems | rast_common/SwitchAggFlowStats.py:59-60 | decoding succeeds exactly when every key is text `time.fromisoformat` accepts, and fails otherwise with a ValueError. The decoded dict has valid time keys, holds the time of every item, and keeps each value whatever its JSON type |
| SwitchAggFlowStats.DecodeItemsOfParsed | rast_common/SwitchAggFlowStats.py:59-60 | a successful decode is the dict comprehension over the items with their keys read as times |
| SwitchAggFlowStats.DecodedValues | rast_common/SwitchAggFlowStats.py:59-60 | each decoded time holds the value of the last item whose key reads as that time, as a dict comprehension assigns |
| SwitchAggFlowStats.ObjectHook | rast_common/SwitchAggFlowStats.py:55-62 | a dict lacking any of the three fields is returned unchanged. One with all three is rebuilt exactly when both map fields are objects whose keys are all times, as a stats object holding the `switch_id` value as given and the two decoded maps. Otherwise `.items()` on a field that is no object is an AttributeError and a key that is no time a ValueError, the bytes field first |
| SwitchAggFlowStats.DecodeEncodedItems | rast_common/SwitchAggFlowStats.py:48-60 | decoding the encoded items rebuilds the map they came from, each value as the JSON integer written for it |
| SwitchAggFlowStats.EncodedItems | rast_common/SwitchAggFlowStats.py:48-49 | the encoded map lists one `str(k)` per key, in the original order, with no duplicate keys |
| SwitchAggFlowStats.TimesRoundTrip | rast_common/SwitchAggFlowStats.py:48-60 | a time-keyed map comes back with the same keys in the same order and the same integer values |
| SwitchAggFlowStats.EncodeDecodeRoundTrip | rast_common/SwitchAggFlowStats.py:43-61 | the `object_hook` method, called directly as the hook of `json.loads`, rebuilds an encoded object field by field: the same switch id, and both maps with the same seconds in the same order, each holding the same integer |
| SwitchAggFlowStats.InnerDictsPassThrough | rast_common/SwitchAggFlowStats.py:56-62 | when the `object_hook` method is the hook, the inner time-keyed dicts, which it sees first, come back from it unchanged |
| SwitchAggFlowStats.DecoderClassLeavesPlainDict | rast_common/SwitchAggFlowStats.py:54-62 | decoding with `cls=SwitchAggFlowStatsDecoder` as written leaves the encoded snapshot a plain dict whose maps keep their `HH:MM:SS` text keys, which differs from what the `object_hook` method returns for it |
| SwitchAggFlowStats.MalformedKeyIsParseError | rast_common/SwitchAggFlowStats.py:59-60 | a snapshot with a key that is not a time, at any position in either map, is a ValueError, unless `.items()` has already failed on a field that is no object |
| DateTimes.ParseIsoTime | rast_common/SwitchAggFlowStats.py:59 | `time.fromisoformat`: the result is a valid time, and text that is not a time is a ValueError |
| DateTimes.ParseIsoTimeRoundTrip | rast_common/SwitchAggFlowStats.py:48-59 | `time.fromisoformat(str(t)) == t` for every valid time |
| DateTimes.IsoTimeInjective | rast_common/SwitchAggFlowStats.py:48 | two valid times with the same `str()` are the same time, so encoding merges no keys |
| FileUtils.ReadResponseTimesFromLogFile | src/rast_common/main/FileUtils.py:12-28 | the loops build exactly the table that the line-by-line definition of the shift and the filter gives |
| FileUtils.Shift | src/rast_common/main/FileUtils.py:20-24 | the key the shift loop ends at is free, and it is not before the parsed timestamp |
| FileUtils.ShiftIsLeastFreeStep | src/rast_common/main/FileUtils.py:20-24 | a colliding timestamp t is stored under t + 100·k µs for the least k whose key is free: every earlier step is taken |
| FileUtils.KeysFromShrink | src/rast_common/main/FileUtils.py:20-24 | every shift step leaves fewer taken keys ahead, so the loop ends |
| FileUtils.IgnoredLineAddsNothing | src/rast_common/main/FileUtils.py:14-15 | a line without "Response time" leaves the table as it was |
| FileUtils.AcceptedLineAddsOneKey | src/rast_common/main/FileUtils.py:20-26 | an accepted line adds exactly one key, which is free and not before its timestamp, with the line's response time in seconds. Every earlier key keeps its value |
| FileUtils.OneKeyPerAcceptedLine | src/rast_common/main/FileUtils.py:14-26 | the table has exactly one key per accepted line |
| FileUtils.EntriesNeverOverwritten | src/rast_common/main/FileUtils.py:20-26 | once stored, a key keeps its value through every later line |
| FileUtils.SameTimestampTwice | src/rast_common/main/FileUtils.py:20-26 | two accepted lines with timestamp T are stored under T and T + 100 µs |
| StringUtils.GetDateFromString | src/rast_common/main/StringUtils.py:7-8 | `get_date_from_string`: a failed search is the AttributeError of `.group()` on None, and a found date is a match of `\d*-\d*-\d*` that `strip` leaves unchanged; `GetDateFromStringFinds` and `GetDateFromStringLeftmost` say which match |
| StringUtils.GetDateFromStringFails | src/rast_common/main/StringUtils.py:8 | `get_date_from_string` fails exactly when no substring matches `\d*-\d*-\d*`, and then with the AttributeError of `.group()` on None |
| StringUtils.GetDateFromStringFinds | src/rast_common/main/StringUtils.py:8 | the result is the matched text itself: it holds only digits and exactly two `-`, so `strip` leaves it unchanged |
| StringUtils.GetDateFromStringLeftmost | src/rast_common/main/StringUtils.py:8 | the match is the leftmost one, and its first and last digit runs are as long as the text allows |
| StringUtils.DateMatchNoSpace | src/rast_common/main/StringUtils.py:8 | `strip` leaves every match of the date pattern unchanged |
| StringUtils.DateRunsWhole | src/rast_common/main/StringUtils.py:8 | the greedy `\d*` runs take the whole digit runs around the date: the match neither starts right after a digit nor stops right before one |
| StringUtils.GetTimestampFromString | src/rast_common/main/StringUtils.py:15-16 | `get_timestamp_from_string`: a failed search is the AttributeError of `.group()` on None, and a found timestamp starts right after a `]`; `GetTimestampFromStringFinds` gives its text |
| StringUtils.GetTimestampFromStringFails | src/rast_common/main/StringUtils.py:16 | `get_timestamp_from_string` fails exactly when no match follows a `]`, and then with an AttributeError |
| StringUtils.GetTimestampFromStringFinds | src/rast_common/main/StringUtils.py:16 | the match starts right after a `]`. The result is the match without its leading whitespace, which is what `strip` leaves; it matches the date-time body and holds exactly two `-` and two `:` |
| StringUtils.GetTimestampFromStringLeftmost | src/rast_common/main/StringUtils.py:16 | the timestamp is the leftmost one after a `]`, and its last digit run is whole |
| StringUtils.TimestampTextLaidOut | src/rast_common/main/StringUtils.py:21-23 | a timestamp written with `%Y-%m-%d %H:%M:%S` or `%Y-%m-%d %H:%M:%S.%f` has digits everywhere except its separators `-`, `-`, ` `, `:`, `:` and, with a fraction, `.` |
| StringUtils.TextAfterFirstBracket | src/rast_common/main/StringUtils.py:16 | after a first `]`, spaces, a timestamp text and a rest that cannot extend it, the matched and stripped text is exactly that timestamp text |
| StringUtils.TextFractionAfterFirstBracket | src/rast_common/main/StringUtils.py:12 | in that line a fractional timestamp is detected, and a whole-second one is not when no other `]` follows |
| StringUtils.ContainsTimestampWithMs | src/rast_common/main/StringUtils.py:11-12 | when `contains_timestamp_with_ms` holds, `get_timestamp_from_string` finds a timestamp too |
| StringUtils.ContainsTimestampWithMsMeaning | src/rast_common/main/StringUtils.py:12 | `contains_timestamp_with_ms` holds exactly when some `]` in the line is followed by a match of its pattern |
| StringUtils.MillisecondsImpliesTimestamp | src/rast_common/main/StringUtils.py:12-16 | `contains_timestamp_with_ms(line)` implies that `get_timestamp_from_string(line)` succeeds, starting no later than the fractional match |
| StringUtils.GetTimestampFromLine | src/rast_common/main/StringUtils.py:19-28 | `get_timestamp_from_line` gives a valid datetime or fails with an AttributeError or a ValueError; the AttributeError comes only from a line with no timestamp, for which the fractional format was not chosen |
| StringUtils.GetTimestampFromLineErrors | src/rast_common/main/StringUtils.py:19-28 | `get_timestamp_from_line` fails with an AttributeError exactly when there is no timestamp after a `]`, and otherwise only with the ValueError of `strptime` |
| StringUtils.TimestampAfterFirstBracket | src/rast_common/main/StringUtils.py:16 | after the first `]` and any whitespace, a timestamp that strftime wrote is read back as exactly its own text |
| StringUtils.FractionAfterFirstBracket | src/rast_common/main/StringUtils.py:12-23 | for such a line, the fractional format is chosen when the timestamp has a fraction, and the whole-second one when it has none and no later `]` follows |
| StringUtils.GetTimestampFromLineRoundTrip | src/rast_common/main/StringUtils.py:19-28 | `get_timestamp_from_line` reads back the datetime that strftime wrote after the first `]`, in either format, provided no later `]` follows a whole-second timestamp |
| StringUtils.FractionalTimestampLaterInLine | src/rast_common/main/StringUtils.py:11-28 | on `]T1 ]T2.f`, the format is chosen from T2 but the text read is T1, so the code as written fails. Choosing by the text read returns T1 |
| StringUtils.FirstTimestampRead | src/rast_common/main/StringUtils.py:16-28 | in the line `]t1 ]t2` with a whole-second `t1`, the text read is `t1`, and parsing it with the whole-second format gives `t1`'s datetime |
| StringUtils.LaterFractionSeen | src/rast_common/main/StringUtils.py:12 | in the line `]t1 ]t2` with a fractional `t2`, a fractional timestamp is detected whatever `t1` is |
| StringUtils.GetTimestampFromLineAsWritten | src/rast_common/main/StringUtils.py:19-28 | when a fractional timestamp is detected, the line's datetime is the text read parsed with `%Y-%m-%d %H:%M:%S.%f` |
| StringUtils.GetTimestampFromLineByTextRoundTrip | src/rast_common/main/StringUtils.py:19-28 | choosing the format by the text read, every strftime-written timestamp after the first `]` is read back, whatever follows it |
| StringUtils.ContainsTimestampWithMsFrom | src/rast_common/main/StringUtils.py:12 | a match of the fractional pattern after any `]` of the line is enough |
| DateTimes.ParseTimestamp | src/rast_common/main/StringUtils.py:25-28 | `strptime` with either format gives a valid datetime, or a ValueError |
| DateTimes.ParseTimestampRoundTrip | src/rast_common/main/StringUtils.py:21-28 | `strptime` reads back what `strftime` writes with the same format |
| DateTimes.ParseTimestampNeedsFraction | src/rast_common/main/StringUtils.py:21-28 | `'%S.%f'` rejects a timestamp without a fraction |
| DateTimes.TimestampTextHasDot | src/rast_common/main/StringUtils.py:21-23 | only the fractional format writes a `.` |
| Regex.SearchFromLeftmost | src/rast_common/main/StringUtils.py:8-16 | `re.search` returns the leftmost start at which the pattern matches after the lookbehind character |
| Regex.SearchSome | src/rast_common/main/StringUtils.py:8-16 | a found match is a real match at that place, and no match starts further left |
| Regex.SearchNone | src/rast_common/main/StringUtils.py:8-16 | no result means no match anywhere |
| Regex.MatchFromSound | src/rast_common/main/StringUtils.py:8-16 | the backtracking matcher only returns real matches |
| Regex.MatchFromComplete | src/rast_common/main/StringUtils.py:8-16 | it finds a match wherever one exists |
| Regex.MatchFromIsGreedy | src/rast_common/main/StringUtils.py:8-16 | for the three patterns, the backtracking match is the greedy one, taking each digit and space run whole |
| Regex.TryStarSound | src/rast_common/main/StringUtils.py:8-16 | a backtracking star that succeeds ends on a match of the star followed by the rest |
| Regex.TryStarComplete | src/rast_common/main/StringUtils.py:8-16 | if the rest matches after some shorter run of the star, the backtracking star succeeds |
| Regex.GreedySound | src/rast_common/main/StringUtils.py:8-16 | the greedy choices, when they succeed, end on a match of the pattern |
| Text.Strip | src/rast_common/main/StringUtils.py:8-16 | `str.strip`: the result is no longer than the input and neither starts nor ends with whitespace |
| Text.StripSpan | src/rast_common/main/StringUtils.py:8-16 | `str.strip` removes whitespace only: the result is the contiguous piece of the input after some leading whitespace, and all that follows it is whitespace |
| Text.StripAround | src/rast_common/main/StringUtils.py:16 | whitespace around a text whose ends are not whitespace is removed, leaving the text |
| Text.ZeroPaddedInjective | src/rast_common/main/TrainingDatabase.py:237 | two numbers that fit the width render alike with zero padding only when they are equal |
| Text.LexLeDigits | src/rast_common/main/TrainingDatabase.py:301-311 | on digit strings of one length, string order is numeric order, both ways |
| TrainingDatabase.EntityClass | src/rast_common/main/TrainingDatabase.py:18-46 | naming an entity class succeeds exactly for the selected schema version; otherwise it is a NameError |
| TrainingDatabase.RowOfEntity | src/rast_common/main/TrainingDatabase.py:75-88 | a row built from an entity has no property None |
| TrainingDatabase.RowOfV1Entity | src/rast_common/main/TrainingDatabase.py:85-87 | a row built from a V1 entity copies its nine columns and has 0 for the three switch columns |
| TrainingDatabase.TrainingDataRow.constructor | src/rast_common/main/TrainingDatabase.py:49-88 | without an entity, the class-level defaults; with one, the entity's columns. A current entity's twelve are copied verbatim, and 0 is used where a column is absent |
| TrainingDatabase.TrainingDataRow.FromLogfileEntry | src/rast_common/main/TrainingDatabase.py:63-73 | a fresh row whose value is that of `LogfileEntryRow` |
| TrainingDatabase.LogfileEntryRow | src/rast_common/main/TrainingDatabase.py:50-73 | the row from a log-file entry has no property None. CPU, RPS, RPM and the three switch columns keep their defaults of 0 |
| TrainingDatabase.TrainingDataRow.SetTimestamp | src/rast_common/main/TrainingDatabase.py:154-156 | the setter changes `timestamp` only |
| TrainingDatabase.TrainingDataRow.SetParallelRequestsStart | src/rast_common/main/TrainingDatabase.py:158-160 | the setter changes `number_of_parallel_requests_start` only |
| TrainingDatabase.TrainingDataRow.SetParallelRequestsEnd | src/rast_common/main/TrainingDatabase.py:162-164 | the setter changes `number_of_parallel_requests_end` only |
| TrainingDatabase.TrainingDataRow.SetParallelRequestsFinished | src/rast_common/main/TrainingDatabase.py:166-168 | the setter changes `number_of_parallel_requests_finished` only |
| TrainingDatabase.TrainingDataRow.SetRequestType | src/rast_common/main/TrainingDatabase.py:170-172 | the setter changes `request_type` only |
| TrainingDatabase.TrainingDataRow.SetSystemCpuUsage | src/rast_common/main/TrainingDatabase.py:174-176 | the setter changes `system_cpu_usage` only |
| TrainingDatabase.TrainingDataRow.SetRequestsPerSecond | src/rast_common/main/TrainingDatabase.py:178-180 | the setter changes `requests_per_second` only |
| TrainingDatabase.TrainingDataRow.SetRequestsPerMinute | src/rast_common/main/TrainingDatabase.py:182-184 | the setter changes `requests_per_minute` only |
| TrainingDatabase.TrainingDataRow.SetSwitchId | src/rast_common/main/TrainingDatabase.py:186-188 | the setter changes `switch_id` only |
| TrainingDatabase.TrainingDataRow.SetBytesPerSecond | src/rast_common/main/TrainingDatabase.py:190-192 | the setter changes `bytes_per_second_transmitted_through_switch` only |
| TrainingDatabase.TrainingDataRow.SetPacketsPerSecond | src/rast_common/main/TrainingDatabase.py:194-196 | the setter changes `packets_per_second_transmitted_through_switch` only |
| TrainingDatabase.TrainingDataRow.SetRequestExecutionTimeMs | src/rast_common/main/TrainingDatabase.py:198-200 | the setter changes `request_execution_time_ms` only |
| TrainingDatabase.RecordOf | src/rast_common/main/TrainingDatabase.py:247-260 | the dict for one row has exactly the twelve column names as keys |
| TrainingDatabase.InsertTrainingData | src/rast_common/main/TrainingDatabase.py:245-262 | under the current schema: one dict per row, in order, each column equal to the row's getter. Under V1: the NameError of the missing `TrainingDataEntity` |
| TrainingDatabase.InsertThenRead | src/rast_common/main/TrainingDatabase.py:245-262 | an inserted row is stored exactly when no column is None (negative values are stored as given, since the SQLite table the engine creates enforces no unsigned flag), and reading the stored entity back with the row constructor of lines 75-88 gives the same row |
| TrainingDatabase.ReadThenInsert | src/rast_common/main/TrainingDatabase.py:245-262 | reading a current entity with the row constructor of lines 75-88 and inserting the row stores the same entity |
| TrainingDatabase.LogfileEntryStored | src/rast_common/main/TrainingDatabase.py:245-262 | a row from any log-file entry (lines 63-73), negative values included, is stored with the entry's values and 0 elsewhere |
| TrainingDatabase.TrainingDataExists | src/rast_common/main/TrainingDatabase.py:227-242 | an answer comes only under the current schema; the failures are the AttributeError of a path without a date text, the ValueError of strptime, and the NameError of `TrainingDataEntity` under V1. `TrainingDataExistsMeaning` says what the answer means |
| TrainingDatabase.TrainingDataExistsMeaning | src/rast_common/main/TrainingDatabase.py:227-242 | a path without a date text fails with an AttributeError, and a date text that is no date with a ValueError. Otherwise the query answers exactly under the current schema (V1 is a NameError), and it is true exactly when some stored timestamp lies on the path's date |
| TrainingDatabase.SomeOnDayMeaning | src/rast_common/main/TrainingDatabase.py:237 | comparing `strftime('%Y%m%d')` texts finds a row exactly when some row's timestamp falls on the given date |
| DateTimes.CompactDateInjective | src/rast_common/main/TrainingDatabase.py:237 | two dates with the same `%Y%m%d` text are the same date, so comparing texts compares days |
| DateTimes.ParseIsoDate | src/rast_common/main/TrainingDatabase.py:228-231 | `strptime(s, "%Y-%m-%d")` gives a valid date, or a ValueError |
| DateTimes.ParseIsoDateRoundTrip | src/rast_common/main/TrainingDatabase.py:228-231 | `strptime` reads back every date that `strftime("%Y-%m-%d")` writes |
| TrainingDatabase.Between | src/rast_common/main/TrainingDatabase.py:301-311 | the range query returns at most the table's entities |
| TrainingDatabase.ReadTrainingDataBetween | src/rast_common/main/TrainingDatabase.py:288-314 | for the selected version, the raw entities of the range, materialised before anything is yielded; for the other version, a NameError |
| TrainingDatabase.BetweenMembers | src/rast_common/main/TrainingDatabase.py:301-311 | the range keeps exactly the entities whose `%Y %m %d` text s satisfies begin ≤ s ≤ end as text |
| TrainingDatabase.BetweenConcat | src/rast_common/main/TrainingDatabase.py:301-311 | the range keeps table order: filtering a concatenation is concatenating the filtered parts |
| TrainingDatabase.BetweenReversed | src/rast_common/main/TrainingDatabase.py:301-311 | bounds in reversed text order select nothing |
| TrainingDatabase.InRangeOfDates | src/rast_common/main/TrainingDatabase.py:301-311 | with both bounds written as `%Y %m %d` dates, being in range is lying between the two days in the calendar |
| TrainingDatabase.ExampleRange | src/rast_common/main/TrainingDatabaseUtils.py:13 | the documented range ("2021 03 30", "2021 04 05") is the seven days from 30 March to 5 April 2021 |
| DateTimes.SpacedDateOrder | src/rast_common/main/TrainingDatabase.py:302-308 | the text order of `%Y %m %d` renderings is the calendar order of the dates |
| Text.LexLeTransitive | src/rast_common/main/TrainingDatabase.py:301-311 | the text order used by `between` is transitive |
| Text.LexLeAntisymmetric | src/rast_common/main/TrainingDatabase.py:301-311 | the text order is antisymmetric |
| Text.LexLeTotal | src/rast_common/main/TrainingDatabase.py:301-311 | the text order is total |
| TrainingDatabase.ReadAllTrainingData | src/rast_common/main/TrainingDatabase.py:265-285 | for the selected version, one fresh `TrainingDataRow` per stored entity, in order, each built from that entity; for the other version, a NameError |
| DateTimes.Weekday | src/rast_common/main/TrainingDatabaseUtils.py:33 | `weekday()` lies in 0..6 |
| DateTimes.WeekdayNextDay | src/rast_common/main/TrainingDatabaseUtils.py:33 | weekdays cycle from one day to the next |
| DateTimes.FirstDayIsMonday | src/rast_common/main/TrainingDatabaseUtils.py:33 | 0001-01-01 is a Monday (0), as in Python's proleptic calendar |
| DateTimes.DaysInYear | src/rast_common/main/TrainingDatabaseUtils.py:33 | the proleptic Gregorian year has 366 days exactly when it is a leap year, else 365 |
| DateTimes.OrdinalNextDay | src/rast_common/main/TrainingDatabaseUtils.py:33 | the day after a valid date is valid and has the next day number, across month and year ends |
| OrdinalEncoding.Encode | src/rast_common/main/TrainingDatabaseUtils.py:45-48 | after coding, the type is in the map and its entry is the code returned |
| OrdinalEncoding.EncodeStep | src/rast_common/main/TrainingDatabaseUtils.py:45-48 | a known type reuses its code and leaves the map as it was; a new type is appended with code = number of types known. The map stays dense and no other code changes |
| OrdinalEncoding.EncodeAllTable | src/rast_common/main/TrainingDatabaseUtils.py:45-46 | coding a sequence keeps the map dense and every earlier code: the known types, then the new ones in order of first sighting |
| OrdinalEncoding.EncodeAllCodes | src/rast_common/main/TrainingDatabaseUtils.py:45-48 | each element's code is its type's position in that list |
| OrdinalEncoding.EncodeAllEntries | src/rast_common/main/TrainingDatabaseUtils.py:48 | each element's code is its type's entry in the final map |
| OrdinalEncoding.NewTypeGetsTableSize | src/rast_common/main/TrainingDatabaseUtils.py:45-46 | a type neither known nor seen earlier gets, as its code, the number of distinct types known at that point |
| OrdinalEncoding.DenseInjective | src/rast_common/main/TrainingDatabaseUtils.py:46 | distinct types have distinct codes |
| OrdinalEncoding.DenseCodes | src/rast_common/main/TrainingDatabaseUtils.py:46 | the codes are exactly 0..k-1 for k known types |
| OrdinalEncoding.CodesFromEmpty | src/rast_common/main/TrainingDatabaseUtils.py:20-48 | from an empty map, each code is the position of its type among the distinct types in order of first sighting |
| OrdinalEncoding.FirstCodeZero | src/rast_common/main/TrainingDatabaseUtils.py:20-46 | from an empty map, the first element is coded 0 |
| OrdinalEncoding.GetPostGet | src/rast_common/main/TrainingDatabaseUtils.py:45-48 | GET, POST, GET are coded 0, 1, 0 |
| TrainingDatabaseUtils.SelectReader | src/rast_common/main/TrainingDatabaseUtils.py:24-27 | an empty `begin_end` reads all rows, and a longer one reads the range of its first two elements. A one-element tuple is the IndexError of `begin_end[1]` |
| TrainingDatabaseUtils.TrainingData | src/rast_common/main/TrainingDatabaseUtils.py:24-27 | every item read has the attributes `gen_rows` reads first |
| TrainingDatabaseUtils.GenRows | src/rast_common/main/TrainingDatabaseUtils.py:29-66 | the loop over a fresh map yields exactly the records and map that the item-by-item definition gives, including the failure on the first item without `switch_id` |
| TrainingDatabaseUtils.MetricsErrorStays | src/rast_common/main/TrainingDatabaseUtils.py:29-66 | once an item fails, the whole table fails with the same error |
| TrainingDatabaseUtils.MetricsSucceeds | src/rast_common/main/TrainingDatabaseUtils.py:50-64 | the table is built exactly when every item has the switch attributes; otherwise with the AttributeError of `row.switch_id` |
| TrainingDatabaseUtils.MetricsRecords | src/rast_common/main/TrainingDatabaseUtils.py:29-93 | one 13-column record per item, in order, coded from an empty map; the map returned is that coding |
| TrainingDatabaseUtils.ReadAllPerformanceMetricsFromDb | src/rast_common/main/TrainingDatabaseUtils.py:9-93 | the result is what `Export` gives: reader selection, reading, and `gen_rows` |
| TrainingDatabaseUtils.ExportAll | src/rast_common/main/TrainingDatabaseUtils.py:20-85 | without bounds, one record per stored entity, in table order. PR 1-3, CPU, RPS, RPM and the switch columns are copied into their places (0 for a V1 entity's missing switch columns), and the execution time is converted to seconds. Codes follow first appearance in the table, and the returned map is dense |
| TrainingDatabaseUtils.ExportOfRange | src/rast_common/main/TrainingDatabaseUtils.py:24-25 | with bounds, the export reads the range's raw entities |
| TrainingDatabaseUtils.ExportRangeSucceeds | src/rast_common/main/TrainingDatabaseUtils.py:25-62 | with bounds, the export succeeds exactly when every entity in the range has the switch columns; V1 entities fail at `row.switch_id` |
| TrainingDatabaseUtils.ExportRange | src/rast_common/main/TrainingDatabaseUtils.py:25-66 | a successful range export has one record per entity of the range, in order, coded by first appearance in the range |
| TrainingDatabaseUtils.ExportMapDense | src/rast_common/main/TrainingDatabaseUtils.py:20-93 | the returned map is injective, and its values are exactly 0..k-1 for k types |
| TrainingDatabaseUtils.FirstRecordCodedZero | src/rast_common/main/TrainingDatabaseUtils.py:20 | codes restart with each call: the first record of any export has code 0 |
| TrainingDatabaseUtils.RawRecord | src/rast_common/main/TrainingDatabaseUtils.py:29-66 | the record built from an entity the range reader yields holds the entity's epoch time and weekday, its columns with the switch columns 0 for a V1 entity, the given code, and the execution time in seconds |
| LegacyTrainingDatabaseUtils.TrainingDatabaseUtilsModule.constructor | src/rast_common/TrainingDatabaseUtils.py:9 | importing the module starts with an empty, dense map |
| LegacyTrainingDatabaseUtils.TrainingDatabaseUtilsModule.ReadAllPerformanceMetricsFromDb | src/rast_common/TrainingDatabaseUtils.py:12-78 | only the table is returned; the map stays in the module and stays dense. A one-element `begin_end` fails before reading and leaves the map as it was. Otherwise the table and the new map are those that `LegacyMetrics` gives from the old map |
| LegacyTrainingDatabaseUtils.TrainingDatabaseUtilsModule.GenRows | src/rast_common/TrainingDatabaseUtils.py:20-54 | the loop codes into the module's map and yields exactly what `LegacyMetrics` gives from the map it started with |
| LegacyTrainingDatabaseUtils.LegacyMetrics | src/rast_common/TrainingDatabaseUtils.py:20-54 | one record per item; nothing fails, since no switch attribute is read |
| LegacyTrainingDatabaseUtils.LegacyMetricsSpec | src/rast_common/TrainingDatabaseUtils.py:36-52 | each record is the item's 10-column record under the code its type gets when coding continues from the module's map; the new map is that coding's |
| LegacyTrainingDatabaseUtils.LegacyCodes | src/rast_common/TrainingDatabaseUtils.py:36-39 | a call keeps the map dense and every earlier code, and appends new types in order of first sighting. Each record's code is its type's position in the map |
| LegacyTrainingDatabaseUtils.LegacyCodeIsEntry | src/rast_common/TrainingDatabaseUtils.py:39 | each record's code is its type's entry in the map after the call |
| LegacyTrainingDatabaseUtils.CodesPersistAcrossCalls | src/rast_common/TrainingDatabaseUtils.py:9-39 | a request type coded in one call has the same code in the next call |
| LegacyTrainingDatabaseUtils.LegacyNewTypeGetsMapSize | src/rast_common/TrainingDatabaseUtils.py:36-37 | a type new to the map gets the map's current size as its code |
| LegacyTrainingDatabaseUtils.FirstCallCodesAsNewer | src/rast_common/TrainingDatabaseUtils.py:9-39 | on the first call after import, the codes are those of the newer exporter |
| Dicts.Put | src/rast_common/main/TrainingDatabaseUtils.py:46 | dict assignment: an existing key keeps its position, a new key goes last, and nothing else changes |
| Dicts.ItemsOfFromItems | rast_common/SwitchAggFlowStats.py:48-60 | building a dict from distinct-keyed items and listing it gives the same items back |
| Dicts.FromItemsLastValue | rast_common/SwitchAggFlowStats.py:59-60 | a dict comprehension holds every key of its items, each with the value of its last item |
| Dicts.FromItemsOfItems | rast_common/SwitchAggFlowStats.py:48-60 | rebuilding a dict from its own items gives the same dict, insertion order included |

## Left out

- The SQLAlchemy layer:
  - engine and session creation, and `create_training_data_table`;
  - SQL execution and `yield_per` chunking;
  - `exit(1)` when the connection fails (src/rast_common/main/TrainingDatabase.py:203-224, 269-274).

  The table is a sequence of entities, and a query's result is computed from it.
- The insertion itself: `insert_training_data` is modelled up to the dicts it builds. `StoredEntity` stands in for the NOT NULL constraints, the only ones the SQLite table enforces: the `unsigned=True` flags belong to the MySQL dialect and are dropped for SQLite, so negative values are stored. `IntegrityError`, `id` assignment and integer widths are not modelled.
- pandas `DataFrame.from_records`: the frame is the sequence of records, with the column names as record fields.
- Generators: the yield loops and `gen_rows` are loops that build a whole sequence, so laziness and partial consumption are not modelled.
- The elapsed-time and version `print`s, and the `datetime.now()` calls used only for them.
- `datetime.timestamp()`: a parameter `toEpoch`, because it depends on the local time zone.
- Floating point: `system_cpu_usage`, `float(...)` and the division by 1000 are exact `real` values, so rounding is not modelled.
- `SELECTED_VERSION`: a parameter `selected`. The conditional class definition becomes the NameError of `EntityClass`. The reader's `version` argument is passed explicitly; both exporters pass `selected`, its default.
- `from_logfile_entry`: the entry is a record with all six fields, so the KeyError for a missing key is not modelled.
- Setters take values: assigning None through a setter is not modelled.
- `TrainingDataRow.__str__`, `SwitchAggFlowStats.__str__` and the JSON text from `json.dumps` (escaping, spacing): snapshots are structured dicts; only the `HH:MM:SS` key text is modelled.
- `add_agg_flow_stats` reads `datetime.now()`: a parameter `now`. No locking exists, so concurrent calls are not modelled.
- AddAggFlowStats: requires the two maps to have the same keys in the same order, which every object built by `__init__` and `add_agg_flow_stats` keeps. An object built by the decoder hook from a document whose two maps have different keys is not modelled; for it, a second present in bytes but missing from packets updates the bytes map and then raises KeyError (rast_common/SwitchAggFlowStats.py:23).
- JSON documents are values: `Json` has null, booleans, integers, floats (exact `real`), strings, arrays and objects. The decoder hook keeps the `switch_id` and every map value as the JSON value it was given, as Python does; a value that is itself an object is kept as the plain object, not as what the hook returned for it.
- Python's `==` on two `SwitchAggFlowStats` objects: `@dataclass(init=False)` gives it no fields, so it is always true. The round trip is stated field by field instead.
- ParseIsoTime: `time.fromisoformat` is modelled with its documented `HH[:MM[:SS[.fff\|.ffffff]]]` grammar of Python 3.7 to 3.10, without time zones. The C parser of those versions also moves to a fraction after a `.` that follows the hour or the minute, or after a `:` that follows the second, so it accepts texts such as `10.123`, `10:30.500000` and `10:00:00:123`; the model rejects them with a ValueError. The wider grammar of Python 3.11 is not modelled either. None of these texts is written by `str(time)`, so the round trip is unaffected.
- readResponseTimesFromLogFile: file opening and reading are not modelled.
  - The result is a `map`, so the insertion order of the returned dict is lost; with shifted keys that order can differ from time order.
  - The `[...]` and `Response time\s\d*` searches and their `strptime` are not modelled either: each line arrives with its timestamp in whole microseconds and its response time already read.
  - The `datetime` overflow past year 9999 is not modelled.
- `\d` and `\s` are ASCII digits and the `str.isspace` characters; Python's Unicode digit classes are not modelled.
- `dir_path` (argparse) and `setup.py`: not part of this model.
- The older exporter imports its readers from `src/rast_common/TrainingDatabase.py`, which is not part of this model. It is assumed to read the same items as `src/rast_common/main/TrainingDatabase.py`; only the ten attributes both entity versions have are read from them.
- Version.py is used only as the two-value datatype `Version.TrainingDataEntityVersion`.

## Findings

| source | as written | input that shows it | evidently intended | confidence | as-written member | corrected member |
|---|---|---|---|---|---|---|
| src/rast_common/main/StringUtils.py:11-28 | `contains_timestamp_with_ms` looks for a fractional timestamp after any `]` of the line, but `get_timestamp_from_string` reads the timestamp after the first `]` | `]2021-01-01 10:00:00 ]2021-01-01 10:00:00.500000`: the format '%S.%f' is chosen, the text read is `2021-01-01 10:00:00`, and `strptime` raises ValueError | the format is chosen by the timestamp that is read, so every timestamp after the first `]` is parsed | medium: not executed | StringUtils.FractionalTimestampLaterInLine | StringUtils.GetTimestampFromLineByTextRoundTrip |
| rast_common/SwitchAggFlowStats.py:54-62 | `SwitchAggFlowStatsDecoder` defines `object_hook` as a method, but `JSONDecoder.__init__` sets the instance attribute `object_hook` to its argument, None by default, which hides the method | `json.loads(stats.__str__(), cls=SwitchAggFlowStatsDecoder)` for any snapshot: no hook runs and a plain dict with text keys comes back | the hook rebuilds the snapshot, as calling the method directly through `object_hook=SwitchAggFlowStatsDecoder().object_hook` does | high: not executed | SwitchAggFlowStats.DecoderClassLeavesPlainDict | SwitchAggFlowStats.EncodeDecodeRoundTrip |
