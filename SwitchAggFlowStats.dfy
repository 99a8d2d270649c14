/**
 * Per-switch flow statistics: bytes and packets per second, accumulated per second of
 * the day, with their JSON encoder and decoder hook (rast_common/SwitchAggFlowStats.py).
 *
 * The two dicts are keyed by `datetime.time` values truncated to whole seconds; the date
 * is not part of a key. The clock read by `add_agg_flow_stats` is the parameter `now`.
 * JSON documents are modelled as values (`Json`), not as text.
 */
module SwitchAggFlowStats {
  import opened Wrappers
  import opened DateTimes
  import opened Dicts

  /** The key a timestamp falls under: its time of day with the microseconds set to 0. */
  function SecondKey(dt: DateTime): TimeOfDay {
    WholeSecond(TimeOf(dt))
  }

  /** Two timestamps share a key exactly when hour, minute and second agree: the date and
      the microseconds play no part. */
  lemma SecondKeyIgnoresDateAndMicroseconds(a: DateTime, b: DateTime)
    ensures SecondKey(a) == SecondKey(b) <==> a.hour == b.hour && a.minute == b.minute && a.second == b.second
  {
  }

  /** The lookup both getters perform: the stored value, or 0 for a second never sampled. */
  function ValueOrZero(d: Dict<TimeOfDay, int>, key: TimeOfDay): int {
    if key in d.entries then d.entries[key] else 0
  }

  /** The state of one `SwitchAggFlowStats` object, also what the decoder hook builds. */
  datatype FlowStats = FlowStats(
    switchId: int,
    bytesPerSecondReceived: Dict<TimeOfDay, int>,
    packetsPerSecondReceived: Dict<TimeOfDay, int>)

  ghost predicate TimeKeysValid(d: Dict<TimeOfDay, int>) {
    forall k :: k in d.entries ==> ValidTime(k)
  }

  /** What every instance built by the constructor and `add_agg_flow_stats` satisfies: two
      well-formed dicts with the same keys in the same order, each key a valid whole second. */
  ghost predicate Consistent(v: FlowStats) {
    && Wf(v.bytesPerSecondReceived) && Wf(v.packetsPerSecondReceived)
    && v.bytesPerSecondReceived.order == v.packetsPerSecondReceived.order
    && forall k :: k in v.bytesPerSecondReceived.entries ==> ValidTime(k) && k.microsecond == 0
  }

  /** `SwitchAggFlowStats(switch_id)` */
  function Initial(switchId: int): (v: FlowStats)
    ensures Consistent(v)
  {
    FlowStats(switchId, Empty(), Empty())
  }

  /** `add_agg_flow_stats` at the second `key`: a first sample stores its values, a later one
      in the same second adds to them. */
  function AddSample(v: FlowStats, key: TimeOfDay, bytesPerSecond: int, packetsPerSecond: int): FlowStats {
    if key !in v.bytesPerSecondReceived.entries then
      v.(bytesPerSecondReceived := Put(v.bytesPerSecondReceived, key, bytesPerSecond),
         packetsPerSecondReceived := Put(v.packetsPerSecondReceived, key, packetsPerSecond))
    else
      v.(bytesPerSecondReceived := Put(v.bytesPerSecondReceived, key, Get(v.bytesPerSecondReceived, key) + bytesPerSecond),
         packetsPerSecondReceived := Put(v.packetsPerSecondReceived, key, ValueOrZero(v.packetsPerSecondReceived, key) + packetsPerSecond))
  }

  /** The dicts `add_agg_flow_stats` writes back are those of `AddSample`. */
  lemma AddSampleFields(v: FlowStats, key: TimeOfDay, b: int, p: int, bytes: Dict<TimeOfDay, int>, packets: Dict<TimeOfDay, int>)
    requires key !in v.bytesPerSecondReceived.entries ==>
      bytes == Put(v.bytesPerSecondReceived, key, b) && packets == Put(v.packetsPerSecondReceived, key, p)
    requires key in v.bytesPerSecondReceived.entries ==>
      && bytes == Put(v.bytesPerSecondReceived, key, Get(v.bytesPerSecondReceived, key) + b)
      && packets == Put(v.packetsPerSecondReceived, key, ValueOrZero(v.packetsPerSecondReceived, key) + p)
    ensures AddSample(v, key, b, p) == FlowStats(v.switchId, bytes, packets)
  {
  }

  /** Adding a sample keeps the object consistent, adds exactly its second to both key sets,
      changes only that second, and there adds (not replaces) both values. */
  lemma AddSampleEffect(v: FlowStats, key: TimeOfDay, b: int, p: int)
    requires Consistent(v) && ValidTime(key) && key.microsecond == 0
    ensures var r := AddSample(v, key, b, p);
      && Consistent(r)
      && r.switchId == v.switchId
      && r.bytesPerSecondReceived.entries.Keys == v.bytesPerSecondReceived.entries.Keys + {key}
      && r.packetsPerSecondReceived.entries.Keys == v.packetsPerSecondReceived.entries.Keys + {key}
      && (key !in v.bytesPerSecondReceived.entries ==>
            r.bytesPerSecondReceived.entries[key] == b && r.packetsPerSecondReceived.entries[key] == p)
      && (forall t :: ValueOrZero(r.bytesPerSecondReceived, t)
                        == ValueOrZero(v.bytesPerSecondReceived, t) + (if t == key then b else 0))
      && (forall t :: ValueOrZero(r.packetsPerSecondReceived, t)
                        == ValueOrZero(v.packetsPerSecondReceived, t) + (if t == key then p else 0))
  {
    var bs, ps := v.bytesPerSecondReceived, v.packetsPerSecondReceived;
    assert key in bs.entries <==> key in ps.entries by {
      assert key in bs.entries <==> key in bs.order;
      assert key in ps.entries <==> key in ps.order;
    }
  }

  /** Two samples in one second: (100, 10) then (50, 5) read back as (150, 15). */
  lemma SameSecondSamplesAccumulate(switchId: int, now: DateTime)
    requires ValidDateTime(now)
    ensures var v := AddSample(AddSample(Initial(switchId), SecondKey(now), 100, 10), SecondKey(now), 50, 5);
      ValueOrZero(v.bytesPerSecondReceived, SecondKey(now)) == 150
      && ValueOrZero(v.packetsPerSecondReceived, SecondKey(now)) == 15
  {
    var key := SecondKey(now);
    AddSampleEffect(Initial(switchId), key, 100, 10);
    AddSampleEffect(AddSample(Initial(switchId), key, 100, 10), key, 50, 5);
  }

  /** One call of `add_agg_flow_stats`: the clock reading and the two values. */
  datatype Sample = Sample(now: DateTime, bytesPerSecond: int, packetsPerSecond: int)

  /** The state after feeding `samples`, in order, to a fresh object. */
  function Aggregate(switchId: int, samples: seq<Sample>): FlowStats {
    if samples == [] then Initial(switchId)
    else
      var s := samples[|samples| - 1];
      AddSample(Aggregate(switchId, samples[..|samples| - 1]), SecondKey(s.now), s.bytesPerSecond, s.packetsPerSecond)
  }

  function BytesAt(samples: seq<Sample>, key: TimeOfDay): int {
    if samples == [] then 0
    else
      var s := samples[|samples| - 1];
      BytesAt(samples[..|samples| - 1], key) + (if SecondKey(s.now) == key then s.bytesPerSecond else 0)
  }

  function PacketsAt(samples: seq<Sample>, key: TimeOfDay): int {
    if samples == [] then 0
    else
      var s := samples[|samples| - 1];
      PacketsAt(samples[..|samples| - 1], key) + (if SecondKey(s.now) == key then s.packetsPerSecond else 0)
  }

  /** Whatever the order of the samples, each second reads back as the sum of the samples
      taken in that second, and as 0 if there were none. */
  lemma {:induction false} AggregateSums(switchId: int, samples: seq<Sample>, key: TimeOfDay)
    requires forall i :: 0 <= i < |samples| ==> ValidDateTime(samples[i].now)
    ensures Consistent(Aggregate(switchId, samples))
    ensures ValueOrZero(Aggregate(switchId, samples).bytesPerSecondReceived, key) == BytesAt(samples, key)
    ensures ValueOrZero(Aggregate(switchId, samples).packetsPerSecondReceived, key) == PacketsAt(samples, key)
  {
    if samples != [] {
      var init, s := samples[..|samples| - 1], samples[|samples| - 1];
      AggregateSums(switchId, init, key);
      AddSampleEffect(Aggregate(switchId, init), SecondKey(s.now), s.bytesPerSecond, s.packetsPerSecond);
    }
  }

  /** `class SwitchAggFlowStats`. */
  class SwitchAggFlowStats {
    var switchId: int
    var bytesPerSecondReceived: Dict<TimeOfDay, int>
    var packetsPerSecondReceived: Dict<TimeOfDay, int>

    function Value(): FlowStats
      reads this
    {
      FlowStats(switchId, bytesPerSecondReceived, packetsPerSecondReceived)
    }

    ghost predicate Valid()
      reads this
    {
      Consistent(Value())
    }

    /** `__init__`: the given switch id and two empty dicts. */
    constructor (switchId: int)
      ensures Valid() && Value() == Initial(switchId)
      ensures this.switchId == switchId
      ensures bytesPerSecondReceived.entries == map[] && packetsPerSecondReceived.entries == map[]
    {
      this.switchId := switchId;
      bytesPerSecondReceived := Empty();
      packetsPerSecondReceived := Empty();
    }

    /** `add_agg_flow_stats`, with the clock reading passed in as `now`. */
    method AddAggFlowStats(now: DateTime, bytesPerSecond: int, packetsPerSecond: int)
      requires Valid() && ValidDateTime(now)
      modifies this
      ensures Valid()
      ensures Value() == AddSample(old(Value()), SecondKey(now), bytesPerSecond, packetsPerSecond)
      ensures switchId == old(switchId)
      ensures forall t :: GetBytesPerSecondFor(t)
                            == old(GetBytesPerSecondFor(t)) + (if SecondKey(t) == SecondKey(now) then bytesPerSecond else 0)
      ensures forall t :: GetPacketsPerSecondFor(t)
                            == old(GetPacketsPerSecondFor(t)) + (if SecondKey(t) == SecondKey(now) then packetsPerSecond else 0)
    {
      var timeOfStat := TimeOf(now);
      timeOfStat := WholeSecond(timeOfStat);
      var bytes, packets;
      if timeOfStat !in bytesPerSecondReceived.entries {
        bytes := Put(bytesPerSecondReceived, timeOfStat, bytesPerSecond);
        packets := Put(packetsPerSecondReceived, timeOfStat, packetsPerSecond);
      } else {
        bytes := Put(bytesPerSecondReceived, timeOfStat, Get(bytesPerSecondReceived, timeOfStat) + bytesPerSecond);
        assert timeOfStat in packetsPerSecondReceived.order;
        packets := Put(packetsPerSecondReceived, timeOfStat, Get(packetsPerSecondReceived, timeOfStat) + packetsPerSecond);
      }
      AddSampleFields(Value(), timeOfStat, bytesPerSecond, packetsPerSecond, bytes, packets);
      bytesPerSecondReceived, packetsPerSecondReceived := bytes, packets;
      AddSampleEffect(old(Value()), timeOfStat, bytesPerSecond, packetsPerSecond);
      forall t
        ensures GetBytesPerSecondFor(t) == old(GetBytesPerSecondFor(t)) + (if SecondKey(t) == timeOfStat then bytesPerSecond else 0)
        ensures GetPacketsPerSecondFor(t) == old(GetPacketsPerSecondFor(t)) + (if SecondKey(t) == timeOfStat then packetsPerSecond else 0)
      {
        assert GetBytesPerSecondFor(t) == ValueOrZero(bytesPerSecondReceived, SecondKey(t));
        assert old(GetBytesPerSecondFor(t)) == ValueOrZero(old(bytesPerSecondReceived), SecondKey(t));
        assert GetPacketsPerSecondFor(t) == ValueOrZero(packetsPerSecondReceived, SecondKey(t));
        assert old(GetPacketsPerSecondFor(t)) == ValueOrZero(old(packetsPerSecondReceived), SecondKey(t));
      }
    }

    /** `get_bytes_per_second_for`: never fails, never changes the object. */
    function GetBytesPerSecondFor(timestamp: DateTime): (n: int)
      reads this
      ensures SecondKey(timestamp) !in bytesPerSecondReceived.entries ==> n == 0
      ensures SecondKey(timestamp) in bytesPerSecondReceived.entries ==> n == bytesPerSecondReceived.entries[SecondKey(timestamp)]
    {
      var t := TimeOf(timestamp);
      var timeOfRequest := TimeOfDay(t.hour, t.minute, t.second, 0);
      if timeOfRequest !in bytesPerSecondReceived.entries then 0 else bytesPerSecondReceived.entries[timeOfRequest]
    }

    /** `get_packets_per_second_for`: never fails, never changes the object. */
    function GetPacketsPerSecondFor(timestamp: DateTime): (n: int)
      reads this
      ensures SecondKey(timestamp) !in packetsPerSecondReceived.entries ==> n == 0
      ensures SecondKey(timestamp) in packetsPerSecondReceived.entries ==> n == packetsPerSecondReceived.entries[SecondKey(timestamp)]
    {
      var t := TimeOf(timestamp);
      var timeOfRequest := TimeOfDay(t.hour, t.minute, t.second, 0);
      if timeOfRequest !in packetsPerSecondReceived.entries then 0 else packetsPerSecondReceived.entries[timeOfRequest]
    }
  }

  // ---------------------------------------------------------------------------
  // JSON encoder and decoder hook

  /** A JSON value as `json` hands it to hooks; objects are Python dicts. */
  datatype Json =
    | JNull
    | JBool(b: bool)
    | JInt(i: int)
    | JFloat(f: real)
    | JString(s: string)
    | JArray(items: seq<Json>)
    | JObject(fields: Dict<string, Json>)

  const SwitchIdField := "switch_id"
  const BytesField := "bytes_per_second_received"
  const PacketsField := "packets_per_second_received"

  function EncodeItems(xs: seq<(TimeOfDay, int)>): (ys: seq<(string, Json)>)
    requires forall i :: 0 <= i < |xs| ==> ValidTime(xs[i].0)
    ensures |ys| == |xs|
    ensures forall i :: 0 <= i < |xs| ==> ys[i] == (IsoTime(xs[i].0), JInt(xs[i].1))
  {
    seq(|xs|, i requires 0 <= i < |xs| => (IsoTime(xs[i].0), JInt(xs[i].1)))
  }

  /** `{str(k): v for k, v in d.items()}` */
  function EncodeTimes(d: Dict<TimeOfDay, int>): Dict<string, Json>
    requires Wf(d) && TimeKeysValid(d)
  {
    FromItems(EncodeItems(Items(d)))
  }

  /** Anything handed to the encoder's `default`. */
  datatype PyObject = StatsObject(stats: FlowStats) | OtherObject

  /** `SwitchAggFlowStatsEncoder.default`: a stats object becomes a dict of its switch id
      and its two dicts with `HH:MM:SS[.ffffff]` keys; anything else is a TypeError. */
  function EncoderDefault(o: PyObject): (r: Result<Dict<string, Json>>)
    requires o.StatsObject? ==> Wf(o.stats.bytesPerSecondReceived) && TimeKeysValid(o.stats.bytesPerSecondReceived)
    requires o.StatsObject? ==> Wf(o.stats.packetsPerSecondReceived) && TimeKeysValid(o.stats.packetsPerSecondReceived)
    ensures o.OtherObject? <==> r.Err?
    ensures r.Ok? ==> r.value.order == [SwitchIdField, BytesField, PacketsField]
  {
    match o
    case OtherObject => Err(TypeError("Object is not JSON serializable"))
    case StatsObject(v) =>
      var bytes, packets := JObject(EncodeTimes(v.bytesPerSecondReceived)), JObject(EncodeTimes(v.packetsPerSecondReceived));
      StatsFieldsOrder(JInt(v.switchId), bytes, packets);
      Ok(Put(Put(Put(Empty(), SwitchIdField, JInt(v.switchId)), BytesField, bytes), PacketsField, packets))
  }

  /** The encoded dict lists the switch id, then the two dicts. */
  lemma StatsFieldsOrder(id: Json, bytes: Json, packets: Json)
    ensures Put(Put(Put(Empty(), SwitchIdField, id), BytesField, bytes), PacketsField, packets).order
      == [SwitchIdField, BytesField, PacketsField]
  {
    assert |SwitchIdField| == 9 && |BytesField| == 25 && |PacketsField| == 27;
    PutThreeOrder(SwitchIdField, BytesField, PacketsField, id, bytes, packets);
  }

  lemma PutThreeOrder<K(!new), V>(a: K, b: K, c: K, x: V, y: V, z: V)
    requires a != b && a != c && b != c
    ensures Put(Put(Put(Empty(), a, x), b, y), c, z).order == [a, b, c]
  {
  }

  /** Every key of a JSON object is text `time.fromisoformat` accepts. */
  ghost predicate AllKeysParse(d: Dict<string, Json>) {
    forall k :: k in d.entries ==> ParseIsoTime(k).Ok?
  }

  /** No later item's key is read as the same time as item `i`'s: its value is the one kept. */
  ghost predicate LastWithTime(xs: seq<(string, Json)>, i: int)
    requires 0 <= i < |xs|
  {
    forall j :: i < j < |xs| ==> ParseIsoTime(xs[j].0) != ParseIsoTime(xs[i].0)
  }

  /** `{time.fromisoformat(k): v for k, v in items}`: the values are kept whatever their JSON
      type, and the first key that is no time is a ValueError. */
  function DecodeItems(xs: seq<(string, Json)>): (r: Result<Dict<TimeOfDay, Json>>)
    ensures r.Ok? <==> forall i :: 0 <= i < |xs| ==> ParseIsoTime(xs[i].0).Ok?
    ensures r.Err? ==> r.error.ValueError?
    ensures r.Ok? ==> Wf(r.value) && forall t :: t in r.value.entries ==> ValidTime(t)
  {
    if xs == [] then Ok(Empty())
    else
      var last := xs[|xs| - 1];
      match DecodeItems(xs[..|xs| - 1])
      case Err(e) => Err(e)
      case Ok(d) =>
        match ParseIsoTime(last.0)
        case Err(e) => Err(e)
        case Ok(t) => Ok(Put(d, t, last.1))
  }

  /** The items with their keys read as times. */
  function ParsedItems(xs: seq<(string, Json)>): (ys: seq<(TimeOfDay, Json)>)
    requires forall i :: 0 <= i < |xs| ==> ParseIsoTime(xs[i].0).Ok?
    ensures |ys| == |xs|
    ensures forall i :: 0 <= i < |xs| ==> ys[i] == (ParseIsoTime(xs[i].0).value, xs[i].1)
  {
    seq(|xs|, i requires 0 <= i < |xs| => (ParseIsoTime(xs[i].0).value, xs[i].1))
  }

  /** Decoding is the dict comprehension over the items with their keys read as times. */
  lemma {:induction false} DecodeItemsOfParsed(xs: seq<(string, Json)>)
    requires DecodeItems(xs).Ok?
    ensures DecodeItems(xs).value == FromItems(ParsedItems(xs))
  {
    if xs != [] {
      var n := |xs| - 1;
      assert DecodeItems(xs[..n]).Ok?;
      DecodeItemsOfParsed(xs[..n]);
      assert ParsedItems(xs)[..n] == ParsedItems(xs[..n]);
    }
  }

  /** Decoding keeps the time of every item, and each time holds the value of the last item
      whose key reads as that time. */
  lemma DecodedValues(xs: seq<(string, Json)>, i: int)
    requires DecodeItems(xs).Ok? && 0 <= i < |xs|
    ensures ParseIsoTime(xs[i].0).value in DecodeItems(xs).value.entries
    ensures LastWithTime(xs, i) ==> DecodeItems(xs).value.entries[ParseIsoTime(xs[i].0).value] == xs[i].1
  {
    DecodeItemsOfParsed(xs);
    var ys := ParsedItems(xs);
    FromItemsLastValue(ys, i);
    if LastWithTime(xs, i) {
      forall j | i < j < |ys| ensures ys[j].0 != ys[i].0 {
        assert ParseIsoTime(xs[j].0) != ParseIsoTime(xs[i].0);
      }
    }
  }

  /** The keys of an object's items are the keys of the object. */
  lemma ItemsKeysParse(d: Dict<string, Json>)
    requires Wf(d)
    ensures (forall i :: 0 <= i < |Items(d)| ==> ParseIsoTime(Items(d)[i].0).Ok?) <==> AllKeysParse(d)
  {
    var xs := Items(d);
    if forall i :: 0 <= i < |xs| ==> ParseIsoTime(xs[i].0).Ok? {
      forall k | k in d.entries ensures ParseIsoTime(k).Ok? {
        var i :| 0 <= i < |d.order| && d.order[i] == k;
        assert xs[i].0 == k;
      }
    }
  }

  /** The object the hook builds: `SwitchAggFlowStats(switch_id)` with its two dicts replaced.
      Python stores whatever the document holds, so the switch id and the values stay JSON. */
  datatype Decoded =
    | DecodedStats(switchId: Json, bytesPerSecondReceived: Dict<TimeOfDay, Json>, packetsPerSecondReceived: Dict<TimeOfDay, Json>)
    | PlainDict(dct: Dict<string, Json>)

  /** Every dict `json` builds lists its keys once each; the hook relies on that for the
      dicts one level down. */
  ghost predicate InnerDictsWf(dct: Dict<string, Json>) {
    forall k :: k in dct.entries && dct.entries[k].JObject? ==> Wf(dct.entries[k].fields)
  }

  ghost predicate HasStatsFields(dct: Dict<string, Json>) {
    SwitchIdField in dct.entries && BytesField in dct.entries && PacketsField in dct.entries
  }

  /** `SwitchAggFlowStatsDecoder.object_hook`: `.items()` on a field that is no object is an
      AttributeError, a key that is no time a ValueError, the bytes dict before the packets dict. */
  function ObjectHook(dct: Dict<string, Json>): (r: Result<Decoded>)
    requires Wf(dct) && InnerDictsWf(dct)
    ensures !HasStatsFields(dct) ==> r == Ok(PlainDict(dct))
    ensures HasStatsFields(dct) ==> var bytes, packets := dct.entries[BytesField], dct.entries[PacketsField];
      && (r.Ok? <==> bytes.JObject? && packets.JObject? && AllKeysParse(bytes.fields) && AllKeysParse(packets.fields))
      && (r.Ok? ==> r.value == DecodedStats(dct.entries[SwitchIdField],
                                            DecodeItems(Items(bytes.fields)).value,
                                            DecodeItems(Items(packets.fields)).value))
      && (!bytes.JObject? ==> r.Err? && r.error.AttributeError?)
      && (bytes.JObject? && !AllKeysParse(bytes.fields) ==> r.Err? && r.error.ValueError?)
      && (bytes.JObject? && AllKeysParse(bytes.fields) && !packets.JObject? ==> r.Err? && r.error.AttributeError?)
      && (bytes.JObject? && AllKeysParse(bytes.fields) && packets.JObject? && !AllKeysParse(packets.fields) ==>
            r.Err? && r.error.ValueError?)
  {
    if SwitchIdField in dct.entries && BytesField in dct.entries && PacketsField in dct.entries then
      var switchId := dct.entries[SwitchIdField];
      var bytes := dct.entries[BytesField];
      var packets := dct.entries[PacketsField];
      if !bytes.JObject? then Err(AttributeError("object has no attribute 'items'"))
      else
        ItemsKeysParse(bytes.fields);
        match DecodeItems(Items(bytes.fields))
        case Err(e) => Err(e)
        case Ok(b) =>
          if !packets.JObject? then Err(AttributeError("object has no attribute 'items'"))
          else
            ItemsKeysParse(packets.fields);
            match DecodeItems(Items(packets.fields))
            case Err(e) => Err(e)
            case Ok(p) => Ok(DecodedStats(switchId, b, p))
    else Ok(PlainDict(dct))
  }

  /** A stored dict as the JSON document holds it: the same keys in the same order, each
      value the JSON integer written for it. */
  function JsonValues<K(==, !new)>(d: Dict<K, int>): (r: Dict<K, Json>)
    ensures r.order == d.order && r.entries.Keys == d.entries.Keys
    ensures forall k :: k in d.entries ==> r.entries[k] == JInt(d.entries[k])
  {
    Dict(d.order, map k | k in d.entries :: JInt(d.entries[k]))
  }

  lemma JsonValuesPut<K(!new)>(d: Dict<K, int>, k: K, v: int)
    ensures JsonValues(Put(d, k, v)) == Put(JsonValues(d), k, JInt(v))
  {
    var lhs, rhs := JsonValues(Put(d, k, v)), Put(JsonValues(d), k, JInt(v));
    assert lhs.entries == rhs.entries;
  }

  /** Decoding the encoded items rebuilds the dict the items were built into. */
  lemma {:induction false} DecodeEncodedItems(xs: seq<(TimeOfDay, int)>)
    requires forall i :: 0 <= i < |xs| ==> ValidTime(xs[i].0)
    ensures DecodeItems(EncodeItems(xs)) == Ok(JsonValues(FromItems(xs)))
  {
    if xs == [] {
      assert JsonValues(FromItems(xs)) == Empty();
    } else {
      var init := xs[..|xs| - 1];
      assert EncodeItems(xs)[..|xs| - 1] == EncodeItems(init);
      DecodeEncodedItems(init);
      ParseIsoTimeRoundTrip(xs[|xs| - 1].0);
      JsonValuesPut(FromItems(init), xs[|xs| - 1].0, xs[|xs| - 1].1);
    }
  }

  /** The encoded dict lists one `str(k)` per key of `d`, in `d`'s order. */
  lemma EncodedItems(d: Dict<TimeOfDay, int>)
    requires Wf(d) && TimeKeysValid(d)
    ensures Wf(EncodeTimes(d)) && Items(EncodeTimes(d)) == EncodeItems(Items(d))
  {
    var ys := EncodeItems(Items(d));
    assert DistinctKeys(ys) by {
      forall i, j | 0 <= i < j < |ys| ensures ys[i].0 != ys[j].0 {
        if ys[i].0 == ys[j].0 {
          IsoTimeInjective(d.order[i], d.order[j]);
        }
      }
    }
    ItemsOfFromItems(ys);
  }

  /** A time-keyed dict survives encoding and decoding unchanged, order included. */
  lemma TimesRoundTrip(d: Dict<TimeOfDay, int>)
    requires Wf(d) && TimeKeysValid(d)
    ensures Wf(EncodeTimes(d)) && DecodeItems(Items(EncodeTimes(d))) == Ok(JsonValues(d))
  {
    EncodedItems(d);
    DecodeEncodedItems(Items(d));
    FromItemsOfItems(d);
  }

  /** `json.loads(json.dumps(stats, cls=SwitchAggFlowStatsEncoder), object_hook=SwitchAggFlowStatsDecoder().object_hook)`,
      the method called directly as the hook: it rebuilds the same switch id and the same two
      dicts, field by field: the same seconds in the same order, each holding the integer
      stored there. */
  lemma EncodeDecodeRoundTrip(v: FlowStats)
    requires Wf(v.bytesPerSecondReceived) && TimeKeysValid(v.bytesPerSecondReceived)
    requires Wf(v.packetsPerSecondReceived) && TimeKeysValid(v.packetsPerSecondReceived)
    ensures EncoderDefault(StatsObject(v)).Ok?
    ensures Wf(EncoderDefault(StatsObject(v)).value) && InnerDictsWf(EncoderDefault(StatsObject(v)).value)
    ensures ObjectHook(EncoderDefault(StatsObject(v)).value)
              == Ok(DecodedStats(JInt(v.switchId), JsonValues(v.bytesPerSecondReceived), JsonValues(v.packetsPerSecondReceived)))
    ensures var r := ObjectHook(EncoderDefault(StatsObject(v)).value).value;
      && r.switchId == JInt(v.switchId)
      && r.bytesPerSecondReceived.order == v.bytesPerSecondReceived.order
      && r.packetsPerSecondReceived.order == v.packetsPerSecondReceived.order
      && (forall t :: t in v.bytesPerSecondReceived.entries <==> t in r.bytesPerSecondReceived.entries)
      && (forall t :: t in v.packetsPerSecondReceived.entries <==> t in r.packetsPerSecondReceived.entries)
      && (forall t :: t in v.bytesPerSecondReceived.entries ==>
            r.bytesPerSecondReceived.entries[t] == JInt(v.bytesPerSecondReceived.entries[t]))
      && (forall t :: t in v.packetsPerSecondReceived.entries ==>
            r.packetsPerSecondReceived.entries[t] == JInt(v.packetsPerSecondReceived.entries[t]))
  {
    TimesRoundTrip(v.bytesPerSecondReceived);
    TimesRoundTrip(v.packetsPerSecondReceived);
    var dct := EncoderDefault(StatsObject(v)).value;
    assert dct.entries[SwitchIdField] == JInt(v.switchId);
    assert dct.entries[BytesField] == JObject(EncodeTimes(v.bytesPerSecondReceived));
    assert dct.entries[PacketsField] == JObject(EncodeTimes(v.packetsPerSecondReceived));
  }

  /** What `json.loads(text, cls=SwitchAggFlowStatsDecoder)` does to each object: nothing.
      `JSONDecoder.__init__` stores its `object_hook` argument, None by default, in an instance
      attribute of the same name, which hides the method the class defines, so every object
      stays the dict the parser built. */
  function ClassDecoderHook(dct: Dict<string, Json>): Result<Decoded> {
    Ok(PlainDict(dct))
  }

  /** Decoding with `cls=SwitchAggFlowStatsDecoder`, as the code is written, does not give the
      snapshot back: the encoded object stays a dict whose two maps keep their `HH:MM:SS`
      text keys, where the hook called directly would have rebuilt the snapshot. */
  lemma DecoderClassLeavesPlainDict(v: FlowStats)
    requires Wf(v.bytesPerSecondReceived) && TimeKeysValid(v.bytesPerSecondReceived)
    requires Wf(v.packetsPerSecondReceived) && TimeKeysValid(v.packetsPerSecondReceived)
    ensures EncoderDefault(StatsObject(v)).Ok?
    ensures Wf(EncoderDefault(StatsObject(v)).value) && InnerDictsWf(EncoderDefault(StatsObject(v)).value)
    ensures var dct := EncoderDefault(StatsObject(v)).value;
      && ClassDecoderHook(dct) == Ok(PlainDict(dct))
      && dct.entries[BytesField] == JObject(EncodeTimes(v.bytesPerSecondReceived))
      && dct.entries[PacketsField] == JObject(EncodeTimes(v.packetsPerSecondReceived))
      && ClassDecoderHook(dct) != ObjectHook(dct)
  {
    EncodeDecodeRoundTrip(v);
  }

  /** The hook sees the inner, time-keyed dicts first (json calls it innermost first) and
      hands them back untouched, since no time text is one of the three field names. */
  lemma InnerDictsPassThrough(d: Dict<TimeOfDay, int>)
    requires Wf(d) && TimeKeysValid(d)
    ensures Wf(EncodeTimes(d)) && InnerDictsWf(EncodeTimes(d))
    ensures ObjectHook(EncodeTimes(d)) == Ok(PlainDict(EncodeTimes(d)))
  {
    EncodedItems(d);
    EncodedKeys(EncodeTimes(d), Items(d));
  }

  /** A dict whose items are encoded times holds integers under keys of 8 or 15 characters. */
  lemma EncodedKeys(e: Dict<string, Json>, xs: seq<(TimeOfDay, int)>)
    requires Wf(e) && (forall i :: 0 <= i < |xs| ==> ValidTime(xs[i].0)) && Items(e) == EncodeItems(xs)
    ensures InnerDictsWf(e) && SwitchIdField !in e.entries
  {
    forall k | k in e.entries ensures e.entries[k].JInt? && k != SwitchIdField {
      var i :| 0 <= i < |e.order| && e.order[i] == k;
      assert Items(e)[i] == (IsoTime(xs[i].0), JInt(xs[i].1));
      assert |IsoTime(xs[i].0)| == 8 || |IsoTime(xs[i].0)| == 15;
    }
  }

  /** A key that `time.fromisoformat` rejects, anywhere in either time-keyed dict, makes the
      snapshot a ValueError, unless `.items()` already failed on a field that is no object. */
  lemma MalformedKeyIsParseError(dct: Dict<string, Json>, key: string)
    requires Wf(dct) && InnerDictsWf(dct) && HasStatsFields(dct)
    requires dct.entries[BytesField].JObject?
    requires || key in dct.entries[BytesField].fields.entries
             || (dct.entries[PacketsField].JObject? && key in dct.entries[PacketsField].fields.entries)
    requires ParseIsoTime(key).Err?
    ensures ObjectHook(dct).Err? && ObjectHook(dct).error.ValueError?
  {
  }
}
