/**
 * `readResponseTimesFromLogFile` (src/rast_common/main/FileUtils.py): a table from
 * timestamps to response times, built from the log lines that mention "Response time".
 * A timestamp that is already taken moves forward 100 microseconds at a time until it
 * is free, so no earlier entry is ever overwritten.
 *
 * Timestamps are whole microseconds on one time line (`int`). Each line arrives with its
 * bracketed timestamp and its response-time digits already parsed; the stored value is
 * the response time in seconds, as `real`.
 */
module FileUtils {
  import opened Text

  /** One line of the log: its text, and the two values the regexes and `strptime` read from it. */
  datatype LogLine = LogLine(text: string, timestampUs: int, responseTimeMs: nat)

  const ResponseTimeMarker := "Response time"

  /** `timedelta(microseconds=100)` */
  const CollisionStepUs := 100

  /** The timestamp `k` steps after `t`. */
  function StepFrom(t: int, k: nat): int {
    t + CollisionStepUs * k
  }

  ghost function KeysFrom(keys: set<int>, t: int): set<int> {
    set k | k in keys && k >= t
  }

  lemma KeysFromShrink(keys: set<int>, t: int)
    requires t in keys
    ensures |KeysFrom(keys, t + CollisionStepUs)| < |KeysFrom(keys, t)|
  {
    var a, b := KeysFrom(keys, t + CollisionStepUs), KeysFrom(keys, t);
    assert t in b;
    assert a <= b - {t};
    SubsetSize(a, b - {t});
  }

  lemma SubsetSize(a: set<int>, b: set<int>)
    requires a <= b
    ensures |a| <= |b|
  {
    assert b == a + (b - a);
    assert a * (b - a) == {};
  }

  /** Where the shift loop ends for a timestamp `t`: the first free step from `t`. */
  function Shift(keys: set<int>, t: int): (s: int)
    ensures s !in keys && s >= t
    decreases |KeysFrom(keys, t)|
  {
    if t in keys then
      KeysFromShrink(keys, t);
      Shift(keys, t + CollisionStepUs)
    else t
  }

  /** The number of 100-microsecond steps the loop takes. */
  function ShiftSteps(keys: set<int>, t: int): nat
    decreases |KeysFrom(keys, t)|
  {
    if t in keys then
      KeysFromShrink(keys, t);
      1 + ShiftSteps(keys, t + CollisionStepUs)
    else 0
  }

  /** The stored key is t + 100·k for the least k whose key is free: every earlier step was taken. */
  lemma {:induction false} ShiftIsLeastFreeStep(keys: set<int>, t: int)
    ensures Shift(keys, t) == StepFrom(t, ShiftSteps(keys, t))
    ensures forall k: nat :: k < ShiftSteps(keys, t) ==> StepFrom(t, k) in keys
    decreases |KeysFrom(keys, t)|
  {
    if t in keys {
      KeysFromShrink(keys, t);
      var t' := t + CollisionStepUs;
      ShiftIsLeastFreeStep(keys, t');
      forall k: nat | k < ShiftSteps(keys, t) ensures StepFrom(t, k) in keys {
        if k > 0 {
          assert StepFrom(t, k) == StepFrom(t', k - 1);
        }
      }
    }
  }

  /** `response_times[time_stamp] = float(response_time) / 1000` after the shift loop. */
  function Record(m: map<int, real>, line: LogLine): map<int, real> {
    m[Shift(m.Keys, line.timestampUs) := line.responseTimeMs as real / 1000.0]
  }

  /** The table after the given lines, in order, starting from an empty one. */
  function ResponseTimes(lines: seq<LogLine>): map<int, real> {
    if lines == [] then map[]
    else
      var m := ResponseTimes(lines[..|lines| - 1]);
      var line := lines[|lines| - 1];
      if !Contains(line.text, ResponseTimeMarker) then m else Record(m, line)
  }

  /** The lines that reach the shift loop. */
  function AcceptedCount(lines: seq<LogLine>): nat {
    if lines == [] then 0
    else AcceptedCount(lines[..|lines| - 1]) + (if Contains(lines[|lines| - 1].text, ResponseTimeMarker) then 1 else 0)
  }

  /** `readResponseTimesFromLogFile`, over lines already read and parsed. */
  method ReadResponseTimesFromLogFile(lines: seq<LogLine>) returns (responseTimes: map<int, real>)
    ensures responseTimes == ResponseTimes(lines)
  {
    responseTimes := map[];
    for i := 0 to |lines|
      invariant responseTimes == ResponseTimes(lines[..i])
    {
      var line := lines[i];
      assert lines[..i + 1][..i] == lines[..i];
      if !Contains(line.text, ResponseTimeMarker) {
        continue;
      }
      var timeStamp := line.timestampUs;
      while true
        invariant Shift(responseTimes.Keys, timeStamp) == Shift(responseTimes.Keys, line.timestampUs)
        decreases |KeysFrom(responseTimes.Keys, timeStamp)|
      {
        if timeStamp in responseTimes.Keys {
          KeysFromShrink(responseTimes.Keys, timeStamp);
          timeStamp := timeStamp + CollisionStepUs;
        } else {
          break;
        }
      }
      responseTimes := responseTimes[timeStamp := line.responseTimeMs as real / 1000.0];
    }
    assert lines[..|lines|] == lines;
  }

  /** A line without "Response time" leaves the table as it was. */
  lemma IgnoredLineAddsNothing(lines: seq<LogLine>, line: LogLine)
    requires !Contains(line.text, ResponseTimeMarker)
    ensures ResponseTimes(lines + [line]) == ResponseTimes(lines)
  {
    assert (lines + [line])[..|lines|] == lines;
  }

  /** An accepted line adds exactly one new key, at or after its timestamp, and keeps every
      earlier key with its earlier value. */
  lemma AcceptedLineAddsOneKey(lines: seq<LogLine>, line: LogLine)
    requires Contains(line.text, ResponseTimeMarker)
    ensures var before, after := ResponseTimes(lines), ResponseTimes(lines + [line]);
      && after.Keys == before.Keys + {Shift(before.Keys, line.timestampUs)}
      && Shift(before.Keys, line.timestampUs) !in before.Keys
      && Shift(before.Keys, line.timestampUs) >= line.timestampUs
      && |after.Keys| == |before.Keys| + 1
      && (forall k :: k in before ==> k in after && after[k] == before[k])
      && after[Shift(before.Keys, line.timestampUs)] == line.responseTimeMs as real / 1000.0
  {
    assert (lines + [line])[..|lines|] == lines;
  }

  /** The table has one key per accepted line: nothing is ever overwritten. */
  lemma {:induction false} OneKeyPerAcceptedLine(lines: seq<LogLine>)
    ensures |ResponseTimes(lines).Keys| == AcceptedCount(lines)
  {
    if lines != [] {
      var init, line := lines[..|lines| - 1], lines[|lines| - 1];
      OneKeyPerAcceptedLine(init);
      assert lines == init + [line];
      if Contains(line.text, ResponseTimeMarker) {
        AcceptedLineAddsOneKey(init, line);
      }
    }
  }

  /** Once stored, a key keeps its value through every later line. */
  lemma {:induction false} EntriesNeverOverwritten(lines: seq<LogLine>, more: seq<LogLine>, k: int)
    requires k in ResponseTimes(lines)
    ensures k in ResponseTimes(lines + more) && ResponseTimes(lines + more)[k] == ResponseTimes(lines)[k]
  {
    if more != [] {
      var init, line := more[..|more| - 1], more[|more| - 1];
      EntriesNeverOverwritten(lines, init, k);
      assert lines + more == (lines + init) + [line];
      if Contains(line.text, ResponseTimeMarker) {
        AcceptedLineAddsOneKey(lines + init, line);
      } else {
        IgnoredLineAddsNothing(lines + init, line);
      }
    } else {
      assert lines + more == lines;
    }
  }

  /** Two accepted lines with the same timestamp T are stored under T and T + 100 microseconds. */
  lemma SameTimestampTwice(a: LogLine, b: LogLine)
    requires Contains(a.text, ResponseTimeMarker) && Contains(b.text, ResponseTimeMarker)
    requires a.timestampUs == b.timestampUs
    ensures var t := a.timestampUs; var m := ResponseTimes([a, b]);
      m.Keys == {t, t + 100}
      && m[t] == a.responseTimeMs as real / 1000.0 && m[t + 100] == b.responseTimeMs as real / 1000.0
  {
    var t := a.timestampUs;
    assert [a, b][..1] == [a];
    assert [a][..0] == [];
    var m0: map<int, real> := map[];
    assert ResponseTimes([a][..0]) == m0;
    assert Shift(m0.Keys, t) == t;
    var m1 := ResponseTimes([a]);
    assert m1 == Record(m0, a);
    assert m1 == map[t := a.responseTimeMs as real / 1000.0];
    assert Shift(m1.Keys, t) == t + 100 by {
      assert t in m1.Keys && t + 100 !in m1.Keys;
    }
  }
}
