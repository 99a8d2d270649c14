/**
 * src/rast_common/main/TrainingDatabase.py: the rows of the `training_data` table, the
 * object `TrainingDataRow` that carries one row between a log file, the database and the
 * exporters, and the queries over the table.
 *
 * The database is a sequence of entities, the objects the session returns for the mapped
 * class; SQL, sessions and engines are not modelled. Which entity class exists depends on
 * the selected schema version (`SELECTED_VERSION`), passed here as `selected`: only the
 * class of that version is defined, so naming the other one raises `NameError`.
 */
module TrainingDatabase {
  import opened Wrappers
  import opened Text
  import opened DateTimes
  import opened Version
  import StringUtils

  // ---------------------------------------------------------------------------
  // Entities

  /** `TrainingDataEntityV1` and `TrainingDataEntity`. The columns declared `unsigned` are
      `int`: that flag belongs to the MySQL dialect, and the SQLite table the engine creates
      accepts negative values in them. */
  datatype Entity =
    | EntityV1(id: nat, timestamp: DateTime, parallelRequestsStart: int, parallelRequestsEnd: int,
               parallelRequestsFinished: int, requestType: string, systemCpuUsage: real,
               requestsPerSecond: int, requestsPerMinute: int, requestExecutionTimeMs: int)
    | EntityCurrent(id: nat, timestamp: DateTime, parallelRequestsStart: int, parallelRequestsEnd: int,
                    parallelRequestsFinished: int, requestType: string, systemCpuUsage: real,
                    requestsPerSecond: int, requestsPerMinute: int, switchId: int, bytesPerSecond: int,
                    packetsPerSecond: int, requestExecutionTimeMs: int)

  /** A `TIMESTAMP NOT NULL` column holds real datetimes. */
  predicate ValidTable(table: seq<Entity>) {
    forall i :: 0 <= i < |table| ==> ValidDateTime(table[i].timestamp)
  }

  const TrainingDataEntityUndefined := NameError("name 'TrainingDataEntity' is not defined")
  const TrainingDataEntityV1Undefined := NameError("name 'TrainingDataEntityV1' is not defined")

  /** Naming the entity class of `version` when `selected` is the schema version. */
  function EntityClass(selected: TrainingDataEntityVersion, version: TrainingDataEntityVersion): (r: Result<TrainingDataEntityVersion>)
    ensures r.Ok? <==> version == selected
    ensures r.Ok? ==> r.value == version
    ensures r.Err? ==> r.error.NameError?
  {
    if version == selected then Ok(version)
    else if version == V1 then Err(TrainingDataEntityV1Undefined)
    else Err(TrainingDataEntityUndefined)
  }

  // ---------------------------------------------------------------------------
  // TrainingDataRow

  /** The properties of a `TrainingDataRow`; the ones whose class-level default is None are
      options. `bytesPerSecond` and `packetsPerSecond` stand for the `..._transmitted_through_switch`
      properties. */
  datatype RowValue = RowValue(
    timestamp: Option<DateTime>, parallelRequestsStart: Option<int>, parallelRequestsEnd: Option<int>,
    parallelRequestsFinished: Option<int>, requestType: Option<string>, systemCpuUsage: real,
    requestsPerSecond: int, requestsPerMinute: int, switchId: int, bytesPerSecond: int,
    packetsPerSecond: int, requestExecutionTimeMs: Option<int>)

  /** The class-level defaults. */
  const DefaultRow := RowValue(None, None, None, None, None, 0.0, 0, 0, 0, 0, 0, None)

  /** No property is None. */
  predicate Complete(r: RowValue) {
    && r.timestamp.Some? && r.parallelRequestsStart.Some? && r.parallelRequestsEnd.Some?
    && r.parallelRequestsFinished.Some? && r.requestType.Some? && r.requestExecutionTimeMs.Some?
  }

  /** What `TrainingDataRow(entity)` copies from the entity; an attribute the entity lacks
      (`hasattr` is false) becomes 0. */
  function RowOfEntity(e: Entity): (r: RowValue)
    ensures Complete(r)
  {
    RowValue(Some(e.timestamp), Some(e.parallelRequestsStart), Some(e.parallelRequestsEnd),
      Some(e.parallelRequestsFinished), Some(e.requestType), e.systemCpuUsage,
      e.requestsPerSecond, e.requestsPerMinute,
      if e.EntityCurrent? then e.switchId else 0,
      if e.EntityCurrent? then e.bytesPerSecond else 0,
      if e.EntityCurrent? then e.packetsPerSecond else 0,
      Some(e.requestExecutionTimeMs))
  }

  /** The fields of a log-file entry that `from_logfile_entry` reads (`logfile_entry['time_stamp']`, ...). */
  datatype LogfileEntry = LogfileEntry(timeStamp: DateTime, parallelRequestsStart: int, parallelRequestsEnd: int,
                                       parallelRequestsFinished: int, requestType: string, responseTime: int)

  /** `TrainingDataRow` */
  class TrainingDataRow {
    var timestamp: Option<DateTime>
    var parallelRequestsStart: Option<int>
    var parallelRequestsEnd: Option<int>
    var parallelRequestsFinished: Option<int>
    var requestType: Option<string>
    var systemCpuUsage: real
    var requestsPerSecond: int
    var requestsPerMinute: int
    var switchId: int
    var bytesPerSecond: int
    var packetsPerSecond: int
    var requestExecutionTimeMs: Option<int>

    /** The row's properties, as the getters return them. */
    function Value(): RowValue
      reads this
    {
      RowValue(timestamp, parallelRequestsStart, parallelRequestsEnd, parallelRequestsFinished, requestType,
        systemCpuUsage, requestsPerSecond, requestsPerMinute, switchId, bytesPerSecond, packetsPerSecond,
        requestExecutionTimeMs)
    }

    /** `TrainingDataRow(entity)`; without an entity, the class-level defaults. */
    constructor (entity: Option<Entity>)
      ensures Value() == if entity.None? then DefaultRow else RowOfEntity(entity.value)
    {
      if entity.None? {
        timestamp, parallelRequestsStart, parallelRequestsEnd, parallelRequestsFinished := None, None, None, None;
        requestType, systemCpuUsage, requestsPerSecond, requestsPerMinute := None, 0.0, 0, 0;
        switchId, bytesPerSecond, packetsPerSecond, requestExecutionTimeMs := 0, 0, 0, None;
      } else {
        var e := entity.value;
        timestamp := Some(e.timestamp);
        parallelRequestsStart := Some(e.parallelRequestsStart);
        parallelRequestsEnd := Some(e.parallelRequestsEnd);
        parallelRequestsFinished := Some(e.parallelRequestsFinished);
        requestType := Some(e.requestType);
        systemCpuUsage := e.systemCpuUsage;
        requestsPerSecond := e.requestsPerSecond;
        requestsPerMinute := e.requestsPerMinute;
        switchId := if e.EntityCurrent? then e.switchId else 0;
        bytesPerSecond := if e.EntityCurrent? then e.bytesPerSecond else 0;
        packetsPerSecond := if e.EntityCurrent? then e.packetsPerSecond else 0;
        requestExecutionTimeMs := Some(e.requestExecutionTimeMs);
      }
    }

    /** `from_logfile_entry`: a default row with the entry's six values set through the setters. */
    static method FromLogfileEntry(entry: LogfileEntry) returns (row: TrainingDataRow)
      ensures fresh(row)
      ensures row.Value() == LogfileEntryRow(entry)
    {
      row := new TrainingDataRow(None);
      row.SetTimestamp(entry.timeStamp);
      row.SetParallelRequestsStart(entry.parallelRequestsStart);
      row.SetParallelRequestsEnd(entry.parallelRequestsEnd);
      row.SetParallelRequestsFinished(entry.parallelRequestsFinished);
      row.SetRequestType(entry.requestType);
      row.SetRequestExecutionTimeMs(entry.responseTime);
    }

    method SetTimestamp(value: DateTime)
      modifies this
      ensures Value() == old(Value()).(timestamp := Some(value))
    {
      timestamp := Some(value);
    }

    method SetParallelRequestsStart(value: int)
      modifies this
      ensures Value() == old(Value()).(parallelRequestsStart := Some(value))
    {
      parallelRequestsStart := Some(value);
    }

    method SetParallelRequestsEnd(value: int)
      modifies this
      ensures Value() == old(Value()).(parallelRequestsEnd := Some(value))
    {
      parallelRequestsEnd := Some(value);
    }

    method SetParallelRequestsFinished(value: int)
      modifies this
      ensures Value() == old(Value()).(parallelRequestsFinished := Some(value))
    {
      parallelRequestsFinished := Some(value);
    }

    method SetRequestType(value: string)
      modifies this
      ensures Value() == old(Value()).(requestType := Some(value))
    {
      requestType := Some(value);
    }

    method SetSystemCpuUsage(value: real)
      modifies this
      ensures Value() == old(Value()).(systemCpuUsage := value)
    {
      systemCpuUsage := value;
    }

    method SetRequestsPerSecond(value: int)
      modifies this
      ensures Value() == old(Value()).(requestsPerSecond := value)
    {
      requestsPerSecond := value;
    }

    method SetRequestsPerMinute(value: int)
      modifies this
      ensures Value() == old(Value()).(requestsPerMinute := value)
    {
      requestsPerMinute := value;
    }

    method SetSwitchId(value: int)
      modifies this
      ensures Value() == old(Value()).(switchId := value)
    {
      switchId := value;
    }

    method SetBytesPerSecond(value: int)
      modifies this
      ensures Value() == old(Value()).(bytesPerSecond := value)
    {
      bytesPerSecond := value;
    }

    method SetPacketsPerSecond(value: int)
      modifies this
      ensures Value() == old(Value()).(packetsPerSecond := value)
    {
      packetsPerSecond := value;
    }

    method SetRequestExecutionTimeMs(value: int)
      modifies this
      ensures Value() == old(Value()).(requestExecutionTimeMs := Some(value))
    {
      requestExecutionTimeMs := Some(value);
    }
  }

  /** The row `from_logfile_entry` builds: the six values it sets over the defaults. */
  function LogfileEntryRow(entry: LogfileEntry): (r: RowValue)
    ensures Complete(r)
    ensures r.systemCpuUsage == 0.0 && r.requestsPerSecond == 0 && r.requestsPerMinute == 0
    ensures r.switchId == 0 && r.bytesPerSecond == 0 && r.packetsPerSecond == 0
  {
    DefaultRow.(timestamp := Some(entry.timeStamp),
                parallelRequestsStart := Some(entry.parallelRequestsStart),
                parallelRequestsEnd := Some(entry.parallelRequestsEnd),
                parallelRequestsFinished := Some(entry.parallelRequestsFinished),
                requestType := Some(entry.requestType),
                requestExecutionTimeMs := Some(entry.responseTime))
  }

  /** Built from a V1 entity, a row has the entity's nine columns and 0 for the three switch
      properties the entity lacks. */
  lemma RowOfV1Entity(e: Entity)
    requires e.EntityV1?
    ensures RowOfEntity(e) == DefaultRow.(timestamp := Some(e.timestamp),
      parallelRequestsStart := Some(e.parallelRequestsStart), parallelRequestsEnd := Some(e.parallelRequestsEnd),
      parallelRequestsFinished := Some(e.parallelRequestsFinished), requestType := Some(e.requestType),
      systemCpuUsage := e.systemCpuUsage, requestsPerSecond := e.requestsPerSecond,
      requestsPerMinute := e.requestsPerMinute, requestExecutionTimeMs := Some(e.requestExecutionTimeMs))
  {
  }

  // ---------------------------------------------------------------------------
  // insert_training_data

  /** A value in one of the dicts `insert_training_data` builds. */
  datatype ColumnValue = TimestampValue(t: DateTime) | IntValue(n: int) | RealValue(x: real) | TextValue(s: string) | NoneValue

  /** The keys of those dicts: the columns of `TrainingDataEntity` besides `id`. */
  const ColumnNames: set<string> := {
    "timestamp", "number_of_parallel_requests_start", "number_of_parallel_requests_end",
    "number_of_parallel_requests_finished", "request_type", "system_cpu_usage", "request_execution_time_ms",
    "requests_per_second", "requests_per_minute", "switch_id",
    "bytes_per_second_transmitted_through_switch", "packets_per_second_transmitted_through_switch"}

  function TimestampColumn(o: Option<DateTime>): ColumnValue {
    if o.Some? then TimestampValue(o.value) else NoneValue
  }

  function IntColumn(o: Option<int>): ColumnValue {
    if o.Some? then IntValue(o.value) else NoneValue
  }

  function TextColumn(o: Option<string>): ColumnValue {
    if o.Some? then TextValue(o.value) else NoneValue
  }

  /** The dict built for one row: each column holds the value of the property of that name. */
  function RecordOf(r: RowValue): (rec: map<string, ColumnValue>)
    ensures rec.Keys == ColumnNames
  {
    map[
      "timestamp" := TimestampColumn(r.timestamp),
      "number_of_parallel_requests_start" := IntColumn(r.parallelRequestsStart),
      "number_of_parallel_requests_end" := IntColumn(r.parallelRequestsEnd),
      "number_of_parallel_requests_finished" := IntColumn(r.parallelRequestsFinished),
      "request_type" := TextColumn(r.requestType),
      "system_cpu_usage" := RealValue(r.systemCpuUsage),
      "request_execution_time_ms" := IntColumn(r.requestExecutionTimeMs),
      "requests_per_second" := IntValue(r.requestsPerSecond),
      "requests_per_minute" := IntValue(r.requestsPerMinute),
      "switch_id" := IntValue(r.switchId),
      "bytes_per_second_transmitted_through_switch" := IntValue(r.bytesPerSecond),
      "packets_per_second_transmitted_through_switch" := IntValue(r.packetsPerSecond)]
  }

  /** `insert_training_data`: the list of dicts handed to `insert(TrainingDataEntity)`, one per
      row and in order; under V1 the class is undefined. */
  function InsertTrainingData(selected: TrainingDataEntityVersion, rows: seq<TrainingDataRow>): (r: Result<seq<map<string, ColumnValue>>>)
    reads rows
    ensures r.Ok? <==> selected.Current?
    ensures r.Err? ==> r.error == TrainingDataEntityUndefined
    ensures r.Ok? ==> |r.value| == |rows| && forall i :: 0 <= i < |rows| ==> r.value[i] == RecordOf(rows[i].Value())
  {
    if selected == V1 then Err(TrainingDataEntityUndefined)
    else Ok(RecordsOf(rows))
  }

  function RecordsOf(rows: seq<TrainingDataRow>): (recs: seq<map<string, ColumnValue>>)
    reads rows
    ensures |recs| == |rows| && forall i :: 0 <= i < |rows| ==> recs[i] == RecordOf(rows[i].Value())
  {
    if rows == [] then [] else [RecordOf(rows[0].Value())] + RecordsOf(rows[1..])
  }

  function IntAt(rec: map<string, ColumnValue>, name: string): Option<int> {
    if name in rec && rec[name].IntValue? then Some(rec[name].n) else None
  }

  /** The entity a `TrainingDataEntity` table stores for one inserted dict under the
      auto-incremented `id`: every column given, not null and of its type; None otherwise.
      NOT NULL is the only constraint the SQLite table enforces. */
  function StoredEntity(id: nat, rec: map<string, ColumnValue>): (e: Option<Entity>)
    ensures e.Some? ==> e.value.EntityCurrent? && e.value.id == id
  {
    var start, end, finished := IntAt(rec, "number_of_parallel_requests_start"),
      IntAt(rec, "number_of_parallel_requests_end"), IntAt(rec, "number_of_parallel_requests_finished");
    var rps, rpm, exec := IntAt(rec, "requests_per_second"), IntAt(rec, "requests_per_minute"),
      IntAt(rec, "request_execution_time_ms");
    var switch, bps, pps := IntAt(rec, "switch_id"), IntAt(rec, "bytes_per_second_transmitted_through_switch"),
      IntAt(rec, "packets_per_second_transmitted_through_switch");
    if && "timestamp" in rec && rec["timestamp"].TimestampValue?
       && "request_type" in rec && rec["request_type"].TextValue?
       && "system_cpu_usage" in rec && rec["system_cpu_usage"].RealValue?
       && start.Some? && end.Some? && finished.Some? && rps.Some? && rpm.Some? && exec.Some?
       && switch.Some? && bps.Some? && pps.Some?
    then
      Some(EntityCurrent(id, rec["timestamp"].t, start.value, end.value, finished.value, rec["request_type"].s,
        rec["system_cpu_usage"].x, rps.value, rpm.value, switch.value, bps.value, pps.value, exec.value))
    else None
  }

  /** Inserting a row stores an entity exactly when no property is None (negative values
      included), and reading that entity back gives the same row. */
  lemma InsertThenRead(id: nat, r: RowValue)
    ensures StoredEntity(id, RecordOf(r)).Some? <==> Complete(r)
    ensures Complete(r) ==> RowOfEntity(StoredEntity(id, RecordOf(r)).value) == r
  {
  }

  /** Reading a `TrainingDataEntity` and inserting the row stores the same entity again;
      a V1 entity comes back with zero switch columns. */
  lemma ReadThenInsert(e: Entity)
    ensures var stored := StoredEntity(e.id, RecordOf(RowOfEntity(e)));
      && stored.Some?
      && (e.EntityCurrent? ==> stored == Some(e))
      && (e.EntityV1? ==> RowOfEntity(stored.value) == RowOfEntity(e)
                          && stored.value.switchId == 0 && stored.value.bytesPerSecond == 0 && stored.value.packetsPerSecond == 0)
  {
  }

  /** A row from a log-file entry is stored with the entry's values, zero CPU usage, zero
      request rates and zero switch columns. */
  lemma LogfileEntryStored(id: nat, entry: LogfileEntry)
    ensures StoredEntity(id, RecordOf(LogfileEntryRow(entry)))
      == Some(EntityCurrent(id, entry.timeStamp, entry.parallelRequestsStart, entry.parallelRequestsEnd,
                            entry.parallelRequestsFinished, entry.requestType, 0.0, 0, 0, 0, 0, 0, entry.responseTime))
  {
  }

  // ---------------------------------------------------------------------------
  // training_data_exists_in_db_using_sqlalchemy

  /** Some stored timestamp renders, under `%Y%m%d`, as `date` does. */
  predicate SomeOnDay(table: seq<Entity>, date: Date)
    requires ValidTable(table) && ValidDate(date)
  {
    exists i :: 0 <= i < |table| && CompactDate(DateOf(table[i].timestamp)) == CompactDate(date)
  }

  /** `training_data_exists_in_db_using_sqlalchemy`: the date in the log file's path, read
      with '%Y-%m-%d', and then whether some row was recorded on that day. */
  function TrainingDataExists(selected: TrainingDataEntityVersion, table: seq<Entity>, pathToLogFile: string): (r: Result<bool>)
    requires ValidTable(table)
    ensures r.Ok? ==> selected.Current?
    ensures r.Err? ==> r.error.AttributeError? || r.error.ValueError? || r.error == TrainingDataEntityUndefined
  {
    match StringUtils.GetDateFromString(pathToLogFile)
    case Err(e) => Err(e)
    case Ok(text) =>
      match ParseIsoDate(text)
      case Err(e) => Err(e)
      case Ok(date) =>
        if selected.V1? then Err(TrainingDataEntityUndefined)
        else Ok(SomeOnDay(table, date))
  }

  /** The answer is an answer exactly when the path holds a date text that is a real date and
      the `TrainingDataEntity` class exists; it is true exactly when some row was recorded on
      that calendar day. A path without a date text fails with the scanner's AttributeError,
      a date text that is no date with strptime's ValueError. */
  lemma TrainingDataExistsMeaning(selected: TrainingDataEntityVersion, table: seq<Entity>, pathToLogFile: string)
    requires ValidTable(table)
    ensures var r := TrainingDataExists(selected, table, pathToLogFile);
      var text := StringUtils.GetDateFromString(pathToLogFile);
      && (text.Err? ==> r.Err? && r.error.AttributeError?)
      && (text.Ok? && ParseIsoDate(text.value).Err? ==> r.Err? && r.error.ValueError?)
      && (text.Ok? && ParseIsoDate(text.value).Ok? ==>
            && (r.Ok? <==> selected.Current?)
            && (r.Ok? ==> (r.value <==> exists i :: 0 <= i < |table| && DateOf(table[i].timestamp) == ParseIsoDate(text.value).value)))
  {
    var text := StringUtils.GetDateFromString(pathToLogFile);
    var r := TrainingDataExists(selected, table, pathToLogFile);
    if text.Err? {
      assert r == Err(text.error) && text.error == StringUtils.NoMatch;
    } else {
      var date := ParseIsoDate(text.value);
      if date.Err? {
        assert r == Err(date.error);
      } else {
        assert r == if selected.V1? then Err(TrainingDataEntityUndefined) else Ok(SomeOnDay(table, date.value));
        SomeOnDayMeaning(table, date.value);
      }
    }
  }

  /** Two dates render alike under `%Y%m%d` exactly when they are the same date. */
  lemma SomeOnDayMeaning(table: seq<Entity>, date: Date)
    requires ValidTable(table) && ValidDate(date)
    ensures SomeOnDay(table, date) <==> exists i :: 0 <= i < |table| && DateOf(table[i].timestamp) == date
  {
    forall i | 0 <= i < |table| ensures CompactDate(DateOf(table[i].timestamp)) == CompactDate(date) <==> DateOf(table[i].timestamp) == date {
      CompactDateInjective(DateOf(table[i].timestamp), date);
    }
  }

  // ---------------------------------------------------------------------------
  // read_training_data_from_db_between_using_sqlalchemy

  /** `func.strftime('%Y %m %d', timestamp)` between `begin` and `end`, compared as text. */
  predicate InRange(e: Entity, begin: string, end: string)
    requires ValidDateTime(e.timestamp)
  {
    LexLe(begin, SpacedDate(DateOf(e.timestamp))) && LexLe(SpacedDate(DateOf(e.timestamp)), end)
  }

  /** The entities the range query returns, in table order. */
  function Between(table: seq<Entity>, begin: string, end: string): (r: seq<Entity>)
    requires ValidTable(table)
    ensures |r| <= |table| && ValidTable(r)
  {
    if table == [] then []
    else
      var e := table[|table| - 1];
      var rest := Between(table[..|table| - 1], begin, end);
      if InRange(e, begin, end) then rest + [e] else rest
  }

  /** `read_training_data_from_db_between_using_sqlalchemy` with schema version `selected`:
      the query's results, materialised by `.all()`, then yielded one by one; they are the entities themselves,
      not `TrainingDataRow`s. */
  method ReadTrainingDataBetween(selected: TrainingDataEntityVersion, version: TrainingDataEntityVersion,
                                 table: seq<Entity>, begin: string, end: string) returns (r: Result<seq<Entity>>)
    requires ValidTable(table)
    ensures r.Ok? <==> version == selected
    ensures r.Err? ==> r.error.NameError?
    ensures r.Ok? ==> r.value == Between(table, begin, end)
  {
    var cls := EntityClass(selected, version);
    if cls.Err? {
      return Err(cls.error);
    }
    var results := Between(table, begin, end);
    var rows: seq<Entity> := [];
    for i := 0 to |results|
      invariant rows == results[..i]
    {
      rows := rows + [results[i]];
    }
    assert results[..|results|] == results;
    return Ok(rows);
  }

  /** The range keeps exactly the entities of the table whose day text lies between the bounds. */
  lemma {:induction false} BetweenMembers(table: seq<Entity>, begin: string, end: string)
    requires ValidTable(table)
    ensures forall e :: e in Between(table, begin, end) <==> e in table && InRange(e, begin, end)
  {
    if table != [] {
      var init := table[..|table| - 1];
      BetweenMembers(init, begin, end);
      assert table == init + [table[|table| - 1]];
    }
  }

  /** The range keeps table order and drops nothing in range: filtering a concatenation
      concatenates the filtered parts. */
  lemma {:induction false} BetweenConcat(t1: seq<Entity>, t2: seq<Entity>, begin: string, end: string)
    requires ValidTable(t1) && ValidTable(t2)
    ensures ValidTable(t1 + t2)
    ensures Between(t1 + t2, begin, end) == Between(t1, begin, end) + Between(t2, begin, end)
  {
    if t2 == [] {
      assert t1 + t2 == t1;
    } else {
      var init, e := t2[..|t2| - 1], t2[|t2| - 1];
      BetweenConcat(t1, init, begin, end);
      var s := t1 + t2;
      DropLastOfConcat(t1, t2);
      assert ValidTable(s) by {
        assert forall i :: 0 <= i < |s| ==> s[i] == if i < |t1| then t1[i] else t2[i - |t1|];
      }
      var b1, b2 := Between(t1, begin, end), Between(init, begin, end);
      if InRange(e, begin, end) {
        assert Between(s, begin, end) == (b1 + b2) + [e];
        assert Between(t2, begin, end) == b2 + [e];
      } else {
        assert Between(s, begin, end) == b1 + b2;
        assert Between(t2, begin, end) == b2;
      }
    }
  }

  lemma DropLastOfConcat<T>(t1: seq<T>, t2: seq<T>)
    requires t2 != []
    ensures (t1 + t2)[..|t1 + t2| - 1] == t1 + t2[..|t2| - 1]
    ensures (t1 + t2)[|t1 + t2| - 1] == t2[|t2| - 1]
  {
    var s, u := t1 + t2, t1 + t2[..|t2| - 1];
    assert forall i :: 0 <= i < |u| ==> s[..|s| - 1][i] == u[i];
  }

  /** Bounds in reversed text order select nothing. */
  lemma {:induction false} BetweenReversed(table: seq<Entity>, begin: string, end: string)
    requires ValidTable(table) && !LexLe(begin, end)
    ensures Between(table, begin, end) == []
  {
    if table != [] {
      BetweenReversed(table[..|table| - 1], begin, end);
      var e := table[|table| - 1];
      if InRange(e, begin, end) {
        LexLeTransitive(begin, SpacedDate(DateOf(e.timestamp)), end);
      }
    }
  }

  /** With bounds written as `%Y %m %d` dates, being in range is being between the two days
      of the calendar, both included. */
  lemma InRangeOfDates(e: Entity, first: Date, last: Date)
    requires ValidDateTime(e.timestamp) && ValidDate(first) && ValidDate(last)
    ensures InRange(e, SpacedDate(first), SpacedDate(last)) <==> DateLe(first, DateOf(e.timestamp)) && DateLe(DateOf(e.timestamp), last)
  {
    SpacedDateOrder(first, DateOf(e.timestamp));
    SpacedDateOrder(DateOf(e.timestamp), last);
  }

  /** The range of the usage example, ("2021 03 30", "2021 04 05"), is the week from
      30 March to 5 April 2021. */
  lemma ExampleRange(e: Entity)
    requires ValidDateTime(e.timestamp)
    ensures InRange(e, "2021 03 30", "2021 04 05") <==>
      DateLe(Date(2021, 3, 30), DateOf(e.timestamp)) && DateLe(DateOf(e.timestamp), Date(2021, 4, 5))
  {
    ExampleBounds();
    InRangeOfDates(e, Date(2021, 3, 30), Date(2021, 4, 5));
  }

  lemma ExampleBounds()
    ensures SpacedDate(Date(2021, 3, 30)) == "2021 03 30"
    ensures SpacedDate(Date(2021, 4, 5)) == "2021 04 05"
  {
    ExampleBegin();
    ExampleEnd();
  }

  lemma ExampleBegin()
    ensures SpacedDate(Date(2021, 3, 30)) == "2021 03 30"
  {
    Year2021();
    DigitCharValues();
    assert ZeroPadded(3, 2) == ZeroPadded(0, 1) + [DigitChar(3)];
    assert ZeroPadded(30, 2) == ZeroPadded(3, 1) + [DigitChar(0)];
  }

  lemma ExampleEnd()
    ensures SpacedDate(Date(2021, 4, 5)) == "2021 04 05"
  {
    Year2021();
    DigitCharValues();
    assert ZeroPadded(4, 2) == ZeroPadded(0, 1) + [DigitChar(4)];
    assert ZeroPadded(5, 2) == ZeroPadded(0, 1) + [DigitChar(5)];
  }

  lemma Year2021()
    ensures ZeroPadded(2021, 4) == "2021"
  {
    DigitCharValues();
    assert ZeroPadded(2, 1) == ZeroPadded(0, 0) + [DigitChar(2)];
    assert ZeroPadded(20, 2) == ZeroPadded(2, 1) + [DigitChar(0)];
    assert ZeroPadded(202, 3) == ZeroPadded(20, 2) + [DigitChar(2)];
    assert ZeroPadded(2021, 4) == ZeroPadded(202, 3) + [DigitChar(1)];
  }

  // ---------------------------------------------------------------------------
  // read_all_training_data_from_db_using_sqlalchemy

  /** `read_all_training_data_from_db_using_sqlalchemy` with schema version `selected`: one
      new `TrainingDataRow` per stored entity, in table order. */
  method ReadAllTrainingData(selected: TrainingDataEntityVersion, version: TrainingDataEntityVersion, table: seq<Entity>)
    returns (r: Result<seq<TrainingDataRow>>)
    ensures r.Ok? <==> version == selected
    ensures r.Err? ==> r.error.NameError?
    ensures r.Ok? ==> |r.value| == |table|
    ensures r.Ok? ==> forall i :: 0 <= i < |table| ==> fresh(r.value[i]) && r.value[i].Value() == RowOfEntity(table[i])
  {
    var cls := EntityClass(selected, version);
    if cls.Err? {
      return Err(cls.error);
    }
    var rows: seq<TrainingDataRow> := [];
    for i := 0 to |table|
      invariant |rows| == i
      invariant forall j :: 0 <= j < i ==> fresh(rows[j]) && rows[j].Value() == RowOfEntity(table[j])
    {
      var row := new TrainingDataRow(Some(table[i]));
      rows := rows + [row];
    }
    return Ok(rows);
  }
}
