/**
 * src/rast_common/main/TrainingDatabaseUtils.py: `read_all_performance_metrics_from_db` reads
 * the training data (all of it, or a range of days), codes the request types as numbers,
 * and turns each row into a 13-column record of the performance-metrics table. The code
 * map is returned beside the table; each call starts from an empty one.
 *
 * The readers are called with their default version, the selected one, so they never name
 * an undefined class. `time_stamp.timestamp()` depends on the local time zone and is the
 * parameter `toEpoch`; the data frame is the sequence of its records.
 */
module TrainingDatabaseUtils {
  import opened Wrappers
  import opened DateTimes
  import opened Dicts
  import opened Version
  import opened TrainingDatabase
  import opened OrdinalEncoding

  /** Which reader the training data comes from. */
  datatype Reader = ReadAll | ReadBetween(begin: string, end: string)

  /** `if len(begin_end) > 0`: the range reader with `begin_end[0]` and `begin_end[1]`, which
      a one-element tuple does not have; otherwise the reader of all rows. */
  function SelectReader(beginEnd: seq<string>): (r: Result<Reader>)
    ensures r.Ok? <==> |beginEnd| != 1
    ensures r.Err? ==> r.error.IndexError?
    ensures r.Ok? ==> (r.value.ReadAll? <==> |beginEnd| == 0)
    ensures r.Ok? && r.value.ReadBetween? ==> r.value.begin == beginEnd[0] && r.value.end == beginEnd[1]
  {
    if |beginEnd| == 0 then Ok(ReadAll)
    else if |beginEnd| == 1 then Err(IndexError("tuple index out of range"))
    else Ok(ReadBetween(beginEnd[0], beginEnd[1]))
  }

  /** One element of `training_data`: a `TrainingDataRow` (from the reader of all rows) or an
      entity itself (from the range reader). */
  datatype Item = Wrapped(row: RowValue) | Raw(entity: Entity)

  /** The attributes `gen_rows` reads: a row's properties, or an entity's columns, which have
      the same names. */
  function Attributes(item: Item): RowValue {
    match item
    case Wrapped(row) => row
    case Raw(e) => RowOfEntity(e)
  }

  /** A `TrainingDataRow` always has `switch_id` and the two switch rates; a
      `TrainingDataEntityV1` has none of them. */
  predicate HasSwitchAttributes(item: Item) {
    item.Wrapped? || item.entity.EntityCurrent?
  }

  /** What the readers produce: no attribute is None, and the timestamp is a real datetime. */
  predicate Readable(item: Item) {
    Complete(Attributes(item)) && ValidDateTime(Attributes(item).timestamp.value)
  }

  ghost predicate AllReadable(items: seq<Item>) {
    forall i :: 0 <= i < |items| ==> Readable(items[i])
  }

  /** `training_data`, the items the selected reader yields. */
  function TrainingData(table: seq<Entity>, reader: Reader): (items: seq<Item>)
    requires ValidTable(table)
    ensures AllReadable(items)
  {
    match reader
    case ReadAll => seq(|table|, i requires 0 <= i < |table| => Wrapped(RowOfEntity(table[i])))
    case ReadBetween(begin, end) =>
      var found := Between(table, begin, end);
      seq(|found|, i requires 0 <= i < |found| => Raw(found[i]))
  }

  /** `row.request_type` of every item. */
  function RequestTypes(items: seq<Item>): (types: seq<string>)
    requires AllReadable(items)
    ensures |types| == |items|
  {
    seq(|items|, i requires 0 <= i < |items| => Attributes(items[i]).requestType.value)
  }

  /** The 13 columns 'Timestamp', 'WeekDay', 'PR 1', 'PR 2', 'PR 3', 'Request Type',
      'CPU (System)', 'RPS', 'RPM', 'Switch ID', 'BPS transmitted', 'PPS transmitted' and
      'Response Time s'. */
  datatype MetricsRow = MetricsRow(
    timestamp: real, weekDay: nat, pr1: int, pr2: int, pr3: int, requestType: nat,
    cpuSystem: real, rps: int, rpm: int, switchId: int, bpsTransmitted: int, ppsTransmitted: int,
    responseTimeS: real)

  /** `row.switch_id` on a `TrainingDataEntityV1`. */
  const NoSwitchId := AttributeError("'TrainingDataEntityV1' object has no attribute 'switch_id'")

  /** `new_obj`, the record of one item whose request type has code `code`. */
  function MetricsRowOf(item: Item, code: nat, toEpoch: DateTime -> real): MetricsRow
    requires Readable(item)
  {
    var row := Attributes(item);
    MetricsRow(toEpoch(row.timestamp.value), Weekday(DateOf(row.timestamp.value)),
      row.parallelRequestsStart.value, row.parallelRequestsEnd.value, row.parallelRequestsFinished.value,
      code, row.systemCpuUsage, row.requestsPerSecond, row.requestsPerMinute,
      row.switchId, row.bytesPerSecond, row.packetsPerSecond,
      row.requestExecutionTimeMs.value as real / 1000.0)
  }

  /** The records of `gen_rows` and the code map, item after item; the first item without
      the switch attributes ends it with an AttributeError. */
  function Metrics(items: seq<Item>, toEpoch: DateTime -> real): (r: Result<(seq<MetricsRow>, Dict<string, nat>)>)
    requires AllReadable(items)
  {
    if items == [] then Ok(([], Empty()))
    else
      var n := |items| - 1;
      match Metrics(items[..n], toEpoch)
      case Err(e) => Err(e)
      case Ok((rows, known)) =>
        var (known', code) := Encode(known, Attributes(items[n]).requestType.value);
        if HasSwitchAttributes(items[n]) then Ok((rows + [MetricsRowOf(items[n], code, toEpoch)], known'))
        else Err(NoSwitchId)
  }

  /** `gen_rows`, consumed by `DataFrame.from_records`, with the local `known_request_types`. */
  method GenRows(items: seq<Item>, toEpoch: DateTime -> real) returns (r: Result<(seq<MetricsRow>, Dict<string, nat>)>)
    requires AllReadable(items)
    ensures r == Metrics(items, toEpoch)
  {
    var knownRequestTypes: Dict<string, nat> := Empty();
    var rows: seq<MetricsRow> := [];
    for i := 0 to |items|
      invariant Metrics(items[..i], toEpoch) == Ok((rows, knownRequestTypes))
    {
      assert items[..i + 1][..i] == items[..i];
      var row := Attributes(items[i]);
      var timeStamp := row.timestamp.value;
      var weekday := Weekday(DateOf(timeStamp));
      var timeOfRequest := toEpoch(timeStamp);
      var requestType := row.requestType.value;
      ghost var coded := Encode(knownRequestTypes, requestType);
      if requestType !in knownRequestTypes.entries {
        knownRequestTypes := Put(knownRequestTypes, requestType, |knownRequestTypes.entries|);
      }
      var requestTypeAsInt := knownRequestTypes.entries[requestType];
      assert knownRequestTypes == coded.0 && requestTypeAsInt == coded.1;
      if !HasSwitchAttributes(items[i]) {
        MetricsErrorStays(items, i + 1, toEpoch);
        return Err(NoSwitchId);
      }
      var newObj := MetricsRow(timeOfRequest, weekday,
        row.parallelRequestsStart.value, row.parallelRequestsEnd.value, row.parallelRequestsFinished.value,
        requestTypeAsInt, row.systemCpuUsage, row.requestsPerSecond, row.requestsPerMinute,
        row.switchId, row.bytesPerSecond, row.packetsPerSecond,
        row.requestExecutionTimeMs.value as real / 1000.0);
      assert newObj == MetricsRowOf(items[i], requestTypeAsInt, toEpoch);
      rows := rows + [newObj];
    }
    assert items[..|items|] == items;
    return Ok((rows, knownRequestTypes));
  }

  /** Once an item fails, the whole table fails with the same error. */
  lemma {:induction false} MetricsErrorStays(items: seq<Item>, n: nat, toEpoch: DateTime -> real)
    requires AllReadable(items) && n <= |items| && Metrics(items[..n], toEpoch).Err?
    ensures Metrics(items, toEpoch) == Metrics(items[..n], toEpoch)
    decreases |items| - n
  {
    if n < |items| {
      assert items[..n + 1][..n] == items[..n];
      MetricsErrorStays(items, n + 1, toEpoch);
    } else {
      assert items[..n] == items;
    }
  }

  /** The table is built exactly when every item has the switch attributes; otherwise the
      error is the AttributeError of `row.switch_id`. */
  lemma {:induction false} MetricsSucceeds(items: seq<Item>, toEpoch: DateTime -> real)
    requires AllReadable(items)
    ensures Metrics(items, toEpoch).Ok? <==> forall i :: 0 <= i < |items| ==> HasSwitchAttributes(items[i])
    ensures Metrics(items, toEpoch).Err? ==> Metrics(items, toEpoch).error == NoSwitchId
  {
    if items != [] {
      var n := |items| - 1;
      var init := items[..n];
      assert AllReadable(init);
      MetricsSucceeds(init, toEpoch);
      SwitchAttributesSplit(items);
      var m0 := Metrics(init, toEpoch);
      if m0.Ok? {
        assert Metrics(items, toEpoch).Ok? <==> HasSwitchAttributes(items[n]);
        assert Metrics(items, toEpoch).Err? ==> Metrics(items, toEpoch) == Err(NoSwitchId);
      } else {
        assert Metrics(items, toEpoch) == m0;
      }
    }
  }

  lemma SwitchAttributesSplit(items: seq<Item>)
    requires items != []
    ensures var n := |items| - 1;
      (forall i :: 0 <= i < |items| ==> HasSwitchAttributes(items[i]))
        <==> (forall i :: 0 <= i < n ==> HasSwitchAttributes(items[..n][i])) && HasSwitchAttributes(items[n])
  {
    var n := |items| - 1;
    assert forall i :: 0 <= i < n ==> items[..n][i] == items[i];
  }

  /** A built table has one record per item, in order: the item's record under the code
      its request type gets when the types are coded in order from an empty map, and that
      map is the one returned. */
  lemma {:induction false} MetricsRecords(items: seq<Item>, toEpoch: DateTime -> real)
    requires AllReadable(items) && Metrics(items, toEpoch).Ok?
    ensures var r := Metrics(items, toEpoch).value;
      var coded := EncodeAll(Empty(), RequestTypes(items));
      && |r.0| == |items|
      && r.1 == coded.0
      && forall i :: 0 <= i < |items| ==> r.0[i] == MetricsRowOf(items[i], coded.1[i], toEpoch)
  {
    if items != [] {
      var n := |items| - 1;
      var init := items[..n];
      assert AllReadable(init);
      assert Metrics(init, toEpoch).Ok?;
      MetricsRecords(init, toEpoch);
      var types := RequestTypes(items);
      assert types[..n] == RequestTypes(init);
      var c0 := EncodeAll(Empty(), types[..n]);
      var step := Encode(c0.0, types[n]);
      assert EncodeAll(Empty(), types) == (step.0, c0.1 + [step.1]);
      var m0 := Metrics(init, toEpoch).value;
      assert m0.1 == c0.0;
      var rows, codes := m0.0 + [MetricsRowOf(items[n], step.1, toEpoch)], c0.1 + [step.1];
      assert Metrics(items, toEpoch).value == (rows, step.0);
      assert EncodeAll(Empty(), types).1 == codes;
      forall i | 0 <= i < |items|
        ensures rows[i] == MetricsRowOf(items[i], codes[i], toEpoch)
      {
        if i < n {
          assert init[i] == items[i];
        }
      }
    }
  }

  /** `read_all_performance_metrics_from_db`: the table and the code map. */
  function Export(table: seq<Entity>, beginEnd: seq<string>, toEpoch: DateTime -> real): (r: Result<(seq<MetricsRow>, Dict<string, nat>)>)
    requires ValidTable(table)
  {
    match SelectReader(beginEnd)
    case Err(e) => Err(e)
    case Ok(reader) => Metrics(TrainingData(table, reader), toEpoch)
  }

  /** `read_all_performance_metrics_from_db` under schema version `selected`: the reader, then
      `gen_rows` over what it yields. */
  method ReadAllPerformanceMetricsFromDb(selected: TrainingDataEntityVersion, table: seq<Entity>, beginEnd: seq<string>,
                                         toEpoch: DateTime -> real) returns (r: Result<(seq<MetricsRow>, Dict<string, nat>)>)
    requires ValidTable(table)
    ensures r == Export(table, beginEnd, toEpoch)
  {
    var reader := SelectReader(beginEnd);
    if reader.Err? {
      return Err(reader.error);
    }
    var trainingData: seq<Item>;
    match reader.value {
      case ReadAll =>
        var rows := ReadAllTrainingData(selected, selected, table);
        var objects := rows.value;
        trainingData := seq(|objects|, i reads objects requires 0 <= i < |objects| => Wrapped(objects[i].Value()));
        assert trainingData == TrainingData(table, ReadAll);
      case ReadBetween(begin, end) =>
        var entities := ReadTrainingDataBetween(selected, selected, table, begin, end);
        var found := entities.value;
        trainingData := seq(|found|, i requires 0 <= i < |found| => Raw(found[i]));
    }
    r := GenRows(trainingData, toEpoch);
  }

  /** Every entity's request type, in order. */
  function EntityRequestTypes(entities: seq<Entity>): (types: seq<string>)
    ensures |types| == |entities|
  {
    seq(|entities|, i requires 0 <= i < |entities| => entities[i].requestType)
  }

  /** The record an entity becomes, given the code of its request type: its own columns in
      their places, 0 for the switch columns a V1 entity lacks, the time of day and weekday
      of its timestamp, and the execution time in seconds. */
  ghost predicate RecordOfEntity(m: MetricsRow, e: Entity, code: nat, toEpoch: DateTime -> real)
    requires ValidDateTime(e.timestamp)
  {
    && m.timestamp == toEpoch(e.timestamp) && m.weekDay == Weekday(DateOf(e.timestamp))
    && m.pr1 == e.parallelRequestsStart && m.pr2 == e.parallelRequestsEnd && m.pr3 == e.parallelRequestsFinished
    && m.requestType == code && m.cpuSystem == e.systemCpuUsage
    && m.rps == e.requestsPerSecond && m.rpm == e.requestsPerMinute
    && m.switchId == (if e.EntityCurrent? then e.switchId else 0)
    && m.bpsTransmitted == (if e.EntityCurrent? then e.bytesPerSecond else 0)
    && m.ppsTransmitted == (if e.EntityCurrent? then e.packetsPerSecond else 0)
    && m.responseTimeS == e.requestExecutionTimeMs as real / 1000.0
  }

  /** Without bounds, the export succeeds with one record per stored entity, in table order;
      request types are coded by their order of first appearance in the table, and the
      returned map is that coding. */
  lemma {:induction false} ExportAll(table: seq<Entity>, toEpoch: DateTime -> real)
    requires ValidTable(table)
    ensures var r := Export(table, [], toEpoch);
      var types := EntityRequestTypes(table);
      && r.Ok? && |r.value.0| == |table|
      && r.value.1.order == FirstSightings(types) && Dense(r.value.1)
      && forall i :: 0 <= i < |table| ==>
           && types[i] in FirstSightings(types)
           && RecordOfEntity(r.value.0[i], table[i], IndexOf(FirstSightings(types), types[i]), toEpoch)
  {
    var items := TrainingData(table, ReadAll);
    var types := EntityRequestTypes(table);
    MetricsSucceeds(items, toEpoch);
    MetricsRecords(items, toEpoch);
    assert RequestTypes(items) == types;
    CodesFromEmpty(types);
    EncodeAllTable(Empty(), types);
  }

  /** With bounds, the export reads the range's entities themselves. */
  lemma {:induction false} ExportOfRange(table: seq<Entity>, begin: string, end: string, toEpoch: DateTime -> real)
    requires ValidTable(table)
    ensures var items := TrainingData(table, ReadBetween(begin, end));
      && Export(table, [begin, end], toEpoch) == Metrics(items, toEpoch)
      && RequestTypes(items) == EntityRequestTypes(Between(table, begin, end))
      && forall i :: 0 <= i < |items| ==> items[i] == Raw(Between(table, begin, end)[i])
  {
    assert SelectReader([begin, end]) == Ok(ReadBetween(begin, end));
  }

  /** With bounds, the export succeeds exactly when every entity in the range is a
      `TrainingDataEntity`; otherwise `row.switch_id` fails. */
  lemma {:induction false} ExportRangeSucceeds(table: seq<Entity>, begin: string, end: string, toEpoch: DateTime -> real)
    requires ValidTable(table)
    ensures var r := Export(table, [begin, end], toEpoch);
      var found := Between(table, begin, end);
      && (r.Ok? <==> forall i :: 0 <= i < |found| ==> found[i].EntityCurrent?)
      && (r.Err? ==> r.error == NoSwitchId)
  {
    var items := TrainingData(table, ReadBetween(begin, end));
    ExportOfRange(table, begin, end, toEpoch);
    MetricsSucceeds(items, toEpoch);
  }

  /** A successful export with bounds has one record per entity of the range, in table
      order, with the request types coded by their order of first appearance in the range. */
  lemma {:induction false} ExportRange(table: seq<Entity>, begin: string, end: string, toEpoch: DateTime -> real)
    requires ValidTable(table) && Export(table, [begin, end], toEpoch).Ok?
    ensures var r := Export(table, [begin, end], toEpoch);
      var found := Between(table, begin, end);
      var types := EntityRequestTypes(found);
      && |r.value.0| == |found| && r.value.1.order == FirstSightings(types)
      && forall i :: 0 <= i < |found| ==>
           && types[i] in FirstSightings(types)
           && RecordOfEntity(r.value.0[i], found[i], IndexOf(FirstSightings(types), types[i]), toEpoch)
  {
    var found := Between(table, begin, end);
    var items := TrainingData(table, ReadBetween(begin, end));
    var types := EntityRequestTypes(found);
    ExportOfRange(table, begin, end, toEpoch);
    MetricsRecords(items, toEpoch);
    CodesFromEmpty(types);
    var rows := Export(table, [begin, end], toEpoch).value.0;
    var codes := EncodeAll(Empty(), types).1;
    forall i | 0 <= i < |found| ensures RecordOfEntity(rows[i], found[i], IndexOf(FirstSightings(types), types[i]), toEpoch) {
      assert rows[i] == MetricsRowOf(Raw(found[i]), codes[i], toEpoch);
      RawRecord(found[i], codes[i], toEpoch);
    }
  }

  /** The record of an entity the range reader yields. */
  lemma RawRecord(e: Entity, code: nat, toEpoch: DateTime -> real)
    requires Readable(Raw(e))
    ensures ValidDateTime(e.timestamp) && RecordOfEntity(MetricsRowOf(Raw(e), code, toEpoch), e, code, toEpoch)
  {
  }

  /** The returned map codes k distinct types as 0, ..., k - 1, one code per type. */
  lemma {:induction false} ExportMapDense(table: seq<Entity>, beginEnd: seq<string>, toEpoch: DateTime -> real)
    requires ValidTable(table) && Export(table, beginEnd, toEpoch).Ok?
    ensures var known := Export(table, beginEnd, toEpoch).value.1;
      && (forall c: nat :: c in known.entries.Values <==> c < |known.order|)
      && forall x, y :: x in known.entries && y in known.entries && known.entries[x] == known.entries[y] ==> x == y
  {
    var items := TrainingData(table, SelectReader(beginEnd).value);
    MetricsRecords(items, toEpoch);
    EncodeAllTable(Empty(), RequestTypes(items));
    var known := Export(table, beginEnd, toEpoch).value.1;
    DenseCodes(known);
    forall x, y | x in known.entries && y in known.entries && known.entries[x] == known.entries[y] ensures x == y {
      DenseInjective(known, x, y);
    }
  }

  /** Codes restart with every call: the first record of any export has code 0. */
  lemma {:induction false} FirstRecordCodedZero(table: seq<Entity>, beginEnd: seq<string>, toEpoch: DateTime -> real)
    requires ValidTable(table)
    requires var r := Export(table, beginEnd, toEpoch); r.Ok? && |r.value.0| > 0
    ensures Export(table, beginEnd, toEpoch).value.0[0].requestType == 0
  {
    var items := TrainingData(table, SelectReader(beginEnd).value);
    MetricsRecords(items, toEpoch);
    FirstCodeZero(RequestTypes(items));
  }
}
