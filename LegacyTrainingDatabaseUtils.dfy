/**
 * src/rast_common/TrainingDatabaseUtils.py: the older `read_all_performance_metrics_from_db`.
 * Its code map `known_request_types` is a module-level dict that outlives each call, so a
 * request type keeps its code from one call to the next. Its records have ten columns, with
 * no switch columns, and only the table is returned. Its readers come from
 * src/rast_common/TrainingDatabase.py, which is not part of this model; they are taken to
 * select and read items as the newer module does, whose definitions are reused here.
 */
module LegacyTrainingDatabaseUtils {
  import opened Wrappers
  import opened DateTimes
  import opened Dicts
  import opened TrainingDatabase
  import opened OrdinalEncoding
  import U = TrainingDatabaseUtils

  /** The ten columns 'Timestamp', 'WeekDay', 'PR 1', 'PR 2', 'PR 3', 'Request Type',
      'CPU (System)', 'RPS', 'RPM' and 'Response Time s'. */
  datatype LegacyMetricsRow = LegacyMetricsRow(
    timestamp: real, weekDay: nat, pr1: int, pr2: int, pr3: int, requestType: nat,
    cpuSystem: real, rps: int, rpm: int, responseTimeS: real)

  /** `new_obj`, the record of one item whose request type has code `code`. */
  function LegacyRowOf(item: U.Item, code: nat, toEpoch: DateTime -> real): LegacyMetricsRow
    requires U.Readable(item)
  {
    var row := U.Attributes(item);
    LegacyMetricsRow(toEpoch(row.timestamp.value), Weekday(DateOf(row.timestamp.value)),
      row.parallelRequestsStart.value, row.parallelRequestsEnd.value, row.parallelRequestsFinished.value,
      code, row.systemCpuUsage, row.requestsPerSecond, row.requestsPerMinute,
      row.requestExecutionTimeMs.value as real / 1000.0)
  }

  /** The records of `gen_rows` and the map after it, item after item from the map `known`.
      Every item has the ten attributes read, so nothing fails. */
  function LegacyMetrics(known: Dict<string, nat>, items: seq<U.Item>, toEpoch: DateTime -> real): (r: (seq<LegacyMetricsRow>, Dict<string, nat>))
    requires U.AllReadable(items)
    ensures |r.0| == |items|
  {
    if items == [] then ([], known)
    else
      var n := |items| - 1;
      var (rows, known') := LegacyMetrics(known, items[..n], toEpoch);
      var (known'', code) := Encode(known', U.Attributes(items[n]).requestType.value);
      (rows + [LegacyRowOf(items[n], code, toEpoch)], known'')
  }

  /** The records are the items' records, in order, under the codes their request types get
      when coded in order from `known`; the map after the call is that coding's. */
  lemma {:induction false} LegacyMetricsSpec(known: Dict<string, nat>, items: seq<U.Item>, toEpoch: DateTime -> real)
    requires U.AllReadable(items)
    ensures var r := LegacyMetrics(known, items, toEpoch);
      var coded := EncodeAll(known, U.RequestTypes(items));
      && r.1 == coded.0
      && forall i :: 0 <= i < |items| ==> r.0[i] == LegacyRowOf(items[i], coded.1[i], toEpoch)
  {
    if items != [] {
      var n := |items| - 1;
      var init := items[..n];
      assert U.AllReadable(init);
      LegacyMetricsSpec(known, init, toEpoch);
      var types := U.RequestTypes(items);
      assert types[..n] == U.RequestTypes(init);
      var c0 := EncodeAll(known, types[..n]);
      var step := Encode(c0.0, types[n]);
      assert EncodeAll(known, types) == (step.0, c0.1 + [step.1]);
      var m0 := LegacyMetrics(known, init, toEpoch);
      var m, c := LegacyMetrics(known, items, toEpoch), EncodeAll(known, types);
      assert m == (m0.0 + [LegacyRowOf(items[n], step.1, toEpoch)], step.0);
      forall i | 0 <= i < |items|
        ensures m.0[i] == LegacyRowOf(items[i], c.1[i], toEpoch)
      {
        if i < n {
          assert m.0[i] == m0.0[i] && c.1[i] == c0.1[i] && init[i] == items[i];
        } else {
          assert m.0[i] == LegacyRowOf(items[n], step.1, toEpoch) && c.1[i] == step.1;
        }
      }
    }
  }

  /** A call keeps the map dense and every earlier code; types new to the map are appended
      in order of first sighting; each record's code is its type's position in the map. */
  lemma LegacyCodes(known: Dict<string, nat>, items: seq<U.Item>, toEpoch: DateTime -> real)
    requires Dense(known) && U.AllReadable(items)
    ensures var r := LegacyMetrics(known, items, toEpoch);
      var types := U.RequestTypes(items);
      && Dense(r.1)
      && r.1.order == Sightings(known.order, types)
      && (forall x :: x in known.entries ==> x in r.1.entries && r.1.entries[x] == known.entries[x])
      && forall i :: 0 <= i < |items| ==> types[i] in r.1.order && r.0[i].requestType == IndexOf(r.1.order, types[i])
  {
    LegacyMetricsSpec(known, items, toEpoch);
    EncodeAllTable(known, U.RequestTypes(items));
    EncodeAllCodes(known, U.RequestTypes(items));
  }

  /** Each record's code is its request type's entry in the map the call returns. */
  lemma LegacyCodeIsEntry(known: Dict<string, nat>, items: seq<U.Item>, toEpoch: DateTime -> real)
    requires U.AllReadable(items)
    ensures var r := LegacyMetrics(known, items, toEpoch);
      forall i :: 0 <= i < |items| ==> U.RequestTypes(items)[i] in r.1.entries && r.0[i].requestType == r.1.entries[U.RequestTypes(items)[i]]
  {
    LegacyMetricsSpec(known, items, toEpoch);
    EncodeAllEntries(known, U.RequestTypes(items));
  }

  /** A request type coded in one call has the same code in the next one. */
  lemma CodesPersistAcrossCalls(known: Dict<string, nat>, first: seq<U.Item>, second: seq<U.Item>, toEpoch: DateTime -> real)
    requires Dense(known) && U.AllReadable(first) && U.AllReadable(second)
    ensures var r1 := LegacyMetrics(known, first, toEpoch);
      var r2 := LegacyMetrics(r1.1, second, toEpoch);
      forall i, j :: 0 <= i < |first| && 0 <= j < |second| && U.RequestTypes(first)[i] == U.RequestTypes(second)[j] ==>
        r1.0[i].requestType == r2.0[j].requestType
  {
    var r1 := LegacyMetrics(known, first, toEpoch);
    var r2 := LegacyMetrics(r1.1, second, toEpoch);
    LegacyCodeIsEntry(known, first, toEpoch);
    LegacyCodeIsEntry(r1.1, second, toEpoch);
    LegacyCodes(known, first, toEpoch);
    LegacyCodes(r1.1, second, toEpoch);
    EntriesKept(r1.1, r2.1, U.RequestTypes(first), U.RequestTypes(second), r1.0, r2.0);
  }

  /** Rows coded by their types' entries agree wherever the types agree, once the second
      map keeps every entry of the first. */
  lemma EntriesKept(k1: Dict<string, nat>, k2: Dict<string, nat>, types1: seq<string>, types2: seq<string>,
                    rows1: seq<LegacyMetricsRow>, rows2: seq<LegacyMetricsRow>)
    requires |rows1| == |types1| && |rows2| == |types2|
    requires forall i :: 0 <= i < |types1| ==> types1[i] in k1.entries && rows1[i].requestType == k1.entries[types1[i]]
    requires forall j :: 0 <= j < |types2| ==> types2[j] in k2.entries && rows2[j].requestType == k2.entries[types2[j]]
    requires forall x :: x in k1.entries ==> x in k2.entries && k2.entries[x] == k1.entries[x]
    ensures forall i, j :: 0 <= i < |types1| && 0 <= j < |types2| && types1[i] == types2[j] ==>
      rows1[i].requestType == rows2[j].requestType
  {
  }

  /** Within a call, a request type that is neither in the map nor seen earlier in the call
      gets the size of the map at that point. */
  lemma LegacyNewTypeGetsMapSize(known: Dict<string, nat>, items: seq<U.Item>, toEpoch: DateTime -> real, i: nat)
    requires Dense(known) && U.AllReadable(items) && i < |items|
    requires U.RequestTypes(items)[i] !in known.entries && U.RequestTypes(items)[i] !in U.RequestTypes(items)[..i]
    ensures U.AllReadable(items[..i])
    ensures LegacyMetrics(known, items, toEpoch).0[i].requestType == |LegacyMetrics(known, items[..i], toEpoch).1.entries|
  {
    var types := U.RequestTypes(items);
    assert U.AllReadable(items[..i]);
    assert U.RequestTypes(items[..i]) == types[..i];
    LegacyMetricsSpec(known, items, toEpoch);
    LegacyMetricsSpec(known, items[..i], toEpoch);
    NewTypeGetsTableSize(known, types, i);
    LegacyCodes(known, items[..i], toEpoch);
    LenOfWf(LegacyMetrics(known, items[..i], toEpoch).1);
  }

  /** On the first call, from the empty map of a fresh import, the codes are those of the
      newer module, which starts from an empty map on every call. */
  lemma FirstCallCodesAsNewer(items: seq<U.Item>, toEpoch: DateTime -> real)
    requires U.AllReadable(items) && U.Metrics(items, toEpoch).Ok?
    ensures |U.Metrics(items, toEpoch).value.0| == |items| && forall i :: 0 <= i < |items| ==>
      LegacyMetrics(Empty(), items, toEpoch).0[i].requestType == U.Metrics(items, toEpoch).value.0[i].requestType
  {
    LegacyMetricsSpec(Empty(), items, toEpoch);
    U.MetricsRecords(items, toEpoch);
  }

  /** One more item: its record under the code the map so far gives its type. */
  lemma LegacyMetricsStep(known: Dict<string, nat>, items: seq<U.Item>, i: nat, toEpoch: DateTime -> real)
    requires U.AllReadable(items) && i < |items|
    ensures U.AllReadable(items[..i]) && U.AllReadable(items[..i + 1])
    ensures var prev := LegacyMetrics(known, items[..i], toEpoch);
      var step := Encode(prev.1, U.Attributes(items[i]).requestType.value);
      LegacyMetrics(known, items[..i + 1], toEpoch) == (prev.0 + [LegacyRowOf(items[i], step.1, toEpoch)], step.0)
  {
    assert U.AllReadable(items[..i]);
    assert items[..i + 1][..i] == items[..i] && items[..i + 1][i] == items[i];
  }

  /** The module `src/rast_common/TrainingDatabaseUtils.py` and its module-level state. */
  class TrainingDatabaseUtilsModule {
    var knownRequestTypes: Dict<string, nat>

    ghost predicate Valid()
      reads this
    {
      Dense(knownRequestTypes)
    }

    /** Importing the module: `known_request_types = {}`. */
    constructor ()
      ensures Valid() && knownRequestTypes == Empty()
    {
      knownRequestTypes := Empty();
    }

    /** `read_all_performance_metrics_from_db`: the table only. A one-element `begin_end`
        fails before any row is read and leaves the map as it was. */
    method ReadAllPerformanceMetricsFromDb(selected: Version.TrainingDataEntityVersion, table: seq<Entity>,
                                           beginEnd: seq<string>, toEpoch: DateTime -> real)
      returns (r: Result<seq<LegacyMetricsRow>>)
      requires Valid() && ValidTable(table)
      modifies this
      ensures Valid()
      ensures U.SelectReader(beginEnd).Err? ==> r == Err(U.SelectReader(beginEnd).error) && knownRequestTypes == old(knownRequestTypes)
      ensures U.SelectReader(beginEnd).Ok? ==>
        var out := LegacyMetrics(old(knownRequestTypes), U.TrainingData(table, U.SelectReader(beginEnd).value), toEpoch);
        r == Ok(out.0) && knownRequestTypes == out.1
    {
      var reader := U.SelectReader(beginEnd);
      if reader.Err? {
        return Err(reader.error);
      }
      var trainingData: seq<U.Item>;
      match reader.value {
        case ReadAll =>
          var rows := ReadAllTrainingData(selected, selected, table);
          var objects := rows.value;
          trainingData := seq(|objects|, i reads objects requires 0 <= i < |objects| => U.Wrapped(objects[i].Value()));
          assert trainingData == U.TrainingData(table, U.ReadAll);
        case ReadBetween(begin, end) =>
          var entities := ReadTrainingDataBetween(selected, selected, table, begin, end);
          var found := entities.value;
          trainingData := seq(|found|, i requires 0 <= i < |found| => U.Raw(found[i]));
      }
      var out := GenRows(trainingData, toEpoch);
      LegacyCodes(old(knownRequestTypes), trainingData, toEpoch);
      return Ok(out);
    }

    /** `gen_rows`, coding request types in the module's map. */
    method GenRows(items: seq<U.Item>, toEpoch: DateTime -> real) returns (out: seq<LegacyMetricsRow>)
      requires U.AllReadable(items)
      modifies this
      ensures (out, knownRequestTypes) == LegacyMetrics(old(knownRequestTypes), items, toEpoch)
    {
      ghost var start := knownRequestTypes;
      out := [];
      for i := 0 to |items|
        invariant (out, knownRequestTypes) == LegacyMetrics(start, items[..i], toEpoch)
      {
        LegacyMetricsStep(start, items, i, toEpoch);
        var row := U.Attributes(items[i]);
        var timeStamp := row.timestamp.value;
        var weekday := Weekday(DateOf(timeStamp));
        var timeOfRequest := toEpoch(timeStamp);
        var requestType := row.requestType.value;
        ghost var coded := Encode(knownRequestTypes, requestType);
        if requestType !in knownRequestTypes.entries {
          knownRequestTypes := Put(knownRequestTypes, requestType, |knownRequestTypes.entries|);
        }
        var requestTypeAsInt := knownRequestTypes.entries[requestType];
        assert knownRequestTypes == coded.0 && requestTypeAsInt == coded.1;
        var newObj := LegacyMetricsRow(timeOfRequest, weekday,
          row.parallelRequestsStart.value, row.parallelRequestsEnd.value, row.parallelRequestsFinished.value,
          requestTypeAsInt, row.systemCpuUsage, row.requestsPerSecond, row.requestsPerMinute,
          row.requestExecutionTimeMs.value as real / 1000.0);
        assert newObj == LegacyRowOf(items[i], coded.1, toEpoch);
        out := out + [newObj];
      }
      assert items[..|items|] == items;
    }
  }
}
