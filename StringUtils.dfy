/**
 * The log scanners of src/rast_common/main/StringUtils.py: the date in a log file's name,
 * and the timestamp that follows a `]` in a log line, read with '%S.%f' when the line has a
 * timestamp with a fractional part after a `]`.
 */
module StringUtils {
  import opened Wrappers
  import opened Text
  import opened DateTimes
  import opened Regex

  // ---------------------------------------------------------------------------
  // The patterns

  /** `\d*` followed by one character of class `sep` */
  function Field(sep: CharClass): Pattern {
    [Star(Digit), One(sep)]
  }

  /** `\d*-\d*-\d*` */
  const DatePattern: Pattern := Field(Literal('-')) + (Field(Literal('-')) + [Star(Digit)])

  /** `\d*-\d*-\d*\s` */
  const DayPattern: Pattern := Field(Literal('-')) + (Field(Literal('-')) + Field(Space))

  /** `\d*`, then `dot` (`\.` or `\.?`), then `\d*` */
  function SecondsPattern(dot: Item): Pattern {
    [Star(Digit), dot, Star(Digit)]
  }

  /** `\d*:\d*:` and the seconds */
  function ClockPattern(dot: Item): Pattern {
    Field(Literal(':')) + (Field(Literal(':')) + SecondsPattern(dot))
  }

  function TimestampBody(dot: Item): Pattern {
    DayPattern + ClockPattern(dot)
  }

  /** `\s*` and the body; the lookbehind `(?<=\])` belongs to the search. */
  function TimestampPattern(dot: Item): Pattern {
    [Star(Space)] + TimestampBody(dot)
  }

  /** The pattern of `contains_timestamp_with_ms`. */
  const MillisecondsPattern: Pattern := TimestampPattern(One(Literal('.')))

  /** The pattern of `get_timestamp_from_string`. */
  const TimestampTextPattern: Pattern := TimestampPattern(Opt(Literal('.')))

  const AfterBracket: Option<char> := Some(']')

  /** `search(...)` returned None and `.group()` was called on it. */
  const NoMatch := AttributeError("'NoneType' object has no attribute 'group'")

  // ---------------------------------------------------------------------------
  // The scanners

  /** `get_date_from_string`: the `.group()` of a failed search is an AttributeError; a found
      date is a match of the pattern, which `strip` leaves as it is. */
  function GetDateFromString(line: string): (r: Result<string>)
    ensures r.Err? ==> r == Err(NoMatch)
    ensures r.Ok? ==> Matches(DatePattern, r.value)
  {
    match Search(DatePattern, None, line)
    case None => Err(NoMatch)
    case Some((a, b)) =>
      SearchSome(DatePattern, None, line);
      DateMatchNoSpace(line[a..b]);
      Ok(Strip(line[a..b]))
  }

  /** `contains_timestamp_with_ms`: when it holds, `get_timestamp_from_string` finds a
      timestamp too, since `\.?` accepts whatever `\.` does. */
  function ContainsTimestampWithMs(line: string): (r: bool)
    ensures r ==> GetTimestampFromString(line).Ok?
  {
    var found := Search(MillisecondsPattern, AfterBracket, line);
    if found.None? then false
    else
      var (a, b) := found.value;
      SearchSome(MillisecondsPattern, AfterBracket, line);
      FractionRelaxes();
      RelaxedMatches(MillisecondsPattern, TimestampTextPattern, line[a..b]);
      assert MatchesAt(TimestampTextPattern, AfterBracket, line, a, b);
      SearchNone(TimestampTextPattern, AfterBracket, line);
      true
  }

  /** `get_timestamp_from_string`: the `.group()` of a failed search is an AttributeError; a
      found timestamp starts right after a `]`. */
  function GetTimestampFromString(line: string): (r: Result<string>)
    ensures r.Err? ==> r == Err(NoMatch)
    ensures r.Ok? ==> Search(TimestampTextPattern, AfterBracket, line).Some?
    ensures r.Ok? ==> var a := Search(TimestampTextPattern, AfterBracket, line).value.0; 0 < a <= |line| && line[a - 1] == ']'
  {
    match Search(TimestampTextPattern, AfterBracket, line)
    case None => Err(NoMatch)
    case Some((a, b)) =>
      SearchSome(TimestampTextPattern, AfterBracket, line);
      Ok(Strip(line[a..b]))
  }

  /** `get_timestamp_from_line`: a valid datetime, the AttributeError of a line without a
      timestamp (which is never taken for a fractional one), or the ValueError of `strptime`. */
  function GetTimestampFromLine(line: string): (r: Result<DateTime>)
    ensures r.Ok? ==> ValidDateTime(r.value)
    ensures r.Err? ==> r.error.AttributeError? || r.error.ValueError?
    ensures r.Err? && r.error.AttributeError? ==> GetTimestampFromString(line).Err? && !ContainsTimestampWithMs(line)
  {
    var format := if ContainsTimestampWithMs(line) then WithFraction else WholeSeconds;
    match GetTimestampFromString(line)
    case Err(e) => Err(e)
    case Ok(text) => ParseTimestamp(text, format)
  }

  /** `get_timestamp_from_line` with the format chosen by the text it reads: '%S.%f' when
      that text has a `.`. */
  function GetTimestampFromLineByText(line: string): Result<DateTime> {
    match GetTimestampFromString(line)
    case Err(e) => Err(e)
    case Ok(text) => ParseTimestamp(text, if '.' in text then WithFraction else WholeSeconds)
  }

  // ---------------------------------------------------------------------------
  // The patterns never need backtracking

  lemma DelimitedField(sep: CharClass, rest: Pattern)
    requires Delimited(rest) && Disjoint(Digit, sep)
    ensures Delimited(Field(sep) + rest)
  {
    var p := Field(sep) + rest;
    var tail := [One(sep)] + rest;
    assert tail[1..] == rest;
    assert Delimited(tail);
    assert HeadsAvoid(Digit, tail);
    assert p[0] == Star(Digit) && p[1..] == tail;
  }

  /** A class that is neither a digit nor the separator never starts a field. */
  lemma HeadsAvoidField(k: CharClass, sep: CharClass, rest: Pattern)
    requires Disjoint(k, Digit) && Disjoint(k, sep)
    ensures HeadsAvoid(k, Field(sep) + rest)
  {
    var p := Field(sep) + rest;
    assert p[0] == Star(Digit) && p[1..][0] == One(sep);
  }

  lemma DelimitedTimestamp(dot: Item)
    requires dot == One(Literal('.')) || dot == Opt(Literal('.'))
    ensures Delimited(TimestampPattern(dot))
  {
    DelimitedBody(dot);
    DelimitedAfterSpaces(TimestampBody(dot));
  }

  lemma DelimitedSeconds(dot: Item)
    requires dot == One(Literal('.')) || dot == Opt(Literal('.'))
    ensures Delimited(SecondsPattern(dot))
  {
    var seconds := SecondsPattern(dot);
    assert Delimited(seconds[1..][1..]);
    assert Delimited(seconds[1..]);
  }

  lemma DelimitedBody(dot: Item)
    requires dot == One(Literal('.')) || dot == Opt(Literal('.'))
    ensures Delimited(TimestampBody(dot)) && HeadsAvoid(Space, TimestampBody(dot))
  {
    var seconds := SecondsPattern(dot);
    DelimitedSeconds(dot);
    DelimitedField(Literal(':'), seconds);
    DelimitedField(Literal(':'), Field(Literal(':')) + seconds);
    var clock := ClockPattern(dot);
    DelimitedDay(clock);
    Regroup(Field(Literal('-')), Field(Literal('-')), Field(Space), clock);
  }

  lemma DelimitedDay(clock: Pattern)
    requires Delimited(clock)
    ensures Delimited(Field(Literal('-')) + (Field(Literal('-')) + (Field(Space) + clock)))
    ensures HeadsAvoid(Space, Field(Literal('-')) + (Field(Literal('-')) + (Field(Space) + clock)))
  {
    DelimitedField(Space, clock);
    DelimitedField(Literal('-'), Field(Space) + clock);
    DelimitedField(Literal('-'), Field(Literal('-')) + (Field(Space) + clock));
    HeadsAvoidField(Space, Literal('-'), Field(Literal('-')) + (Field(Space) + clock));
  }

  lemma Regroup<T>(a: seq<T>, b: seq<T>, c: seq<T>, d: seq<T>)
    ensures (a + (b + c)) + d == a + (b + (c + d))
  {
  }

  /** A leading `\s*` keeps a pattern delimited when the pattern cannot start with a space. */
  lemma DelimitedAfterSpaces(body: Pattern)
    requires Delimited(body) && HeadsAvoid(Space, body)
    ensures Delimited([Star(Space)] + body)
  {
    assert ([Star(Space)] + body)[1..] == body;
  }

  lemma PatternsDelimited()
    ensures Delimited(DatePattern)
    ensures Delimited(MillisecondsPattern) && Delimited(TimestampTextPattern)
  {
    DelimitedField(Literal('-'), [Star(Digit)]);
    DelimitedField(Literal('-'), Field(Literal('-')) + [Star(Digit)]);
    DelimitedTimestamp(One(Literal('.')));
    DelimitedTimestamp(Opt(Literal('.')));
  }

  // ---------------------------------------------------------------------------
  // get_date_from_string

  /** `get_date_from_string` fails, with an AttributeError, exactly when no part of the
      text has the form `\d*-\d*-\d*`. */
  lemma GetDateFromStringFails(line: string)
    ensures GetDateFromString(line).Err? <==> forall x: nat, y: nat :: !MatchesAt(DatePattern, None, line, x, y)
    ensures GetDateFromString(line).Err? ==> GetDateFromString(line).error.AttributeError?
  {
    SearchNone(DatePattern, None, line);
  }

  lemma DatePatternItems()
    ensures DatePattern == [Star(Digit), One(Literal('-')), Star(Digit), One(Literal('-')), Star(Digit)]
  {
  }

  /** Only digits and `-` occur in the date pattern's classes. */
  lemma DatePatternAvoids(k: CharClass)
    requires Disjoint(k, Digit) && Disjoint(k, Literal('-'))
    ensures ClassesAvoid(k, DatePattern)
  {
    DatePatternItems();
  }

  lemma DatePatternDashes()
    ensures OnlyRequired(DatePattern, '-') && RequiredCount(DatePattern, '-') == 2
  {
    DatePatternItems();
    var p := DatePattern;
    assert RequiredCount(p[4..], '-') == 0;
    assert RequiredCount(p[3..], '-') == 1;
    assert RequiredCount(p[2..], '-') == 1;
    assert RequiredCount(p[1..], '-') == 2;
  }

  lemma DateMatchNoSpace(t: string)
    requires Matches(DatePattern, t)
    ensures Strip(t) == t
  {
    DatePatternAvoids(Space);
    MatchAvoids(Space, DatePattern, t);
    StripNoSpace(t);
  }

  lemma DateMatchDashes(t: string)
    requires Matches(DatePattern, t)
    ensures CountOf(t, '-') == 2
  {
    DatePatternDashes();
    MatchCount(DatePattern, t, '-');
  }

  lemma DateMatchChars(t: string)
    requires Matches(DatePattern, t)
    ensures forall x :: 0 <= x < |t| ==> IsDigit(t[x]) || t[x] == '-'
  {
    forall x | 0 <= x < |t| ensures IsDigit(t[x]) || t[x] == '-' {
      if !IsDigit(t[x]) && t[x] != '-' {
        DatePatternAvoids(Literal(t[x]));
        MatchAvoids(Literal(t[x]), DatePattern, t);
        assert false;
      }
    }
  }

  /** What `get_date_from_string` returns: a match of `\d*-\d*-\d*`, which is digits and
      exactly two `-`, so that `strip()` leaves it whole. */
  lemma GetDateFromStringFinds(line: string)
    requires GetDateFromString(line).Ok?
    ensures var r, a, b := GetDateFromString(line).value, Search(DatePattern, None, line).value.0, Search(DatePattern, None, line).value.1;
      && r == line[a..b] && Matches(DatePattern, r)
      && CountOf(r, '-') == 2
      && (forall x :: 0 <= x < |r| ==> IsDigit(r[x]) || r[x] == '-')
  {
    var a, b := Search(DatePattern, None, line).value.0, Search(DatePattern, None, line).value.1;
    SearchSome(DatePattern, None, line);
    var t := line[a..b];
    DateMatchNoSpace(t);
    DateMatchDashes(t);
    DateMatchChars(t);
  }

  /** Where the date comes from: the leftmost match, whose first and last digit runs are as
      long as the text allows. */
  lemma GetDateFromStringLeftmost(line: string)
    requires GetDateFromString(line).Ok?
    ensures var a, b := Search(DatePattern, None, line).value.0, Search(DatePattern, None, line).value.1;
      && (forall x: nat, y: nat :: x < a ==> !MatchesAt(DatePattern, None, line, x, y))
      && (a == 0 || !IsDigit(line[a - 1]))
      && (b == |line| || !IsDigit(line[b]))
  {
    SearchSome(DatePattern, None, line);
    DateRunsWhole(line, Search(DatePattern, None, line).value.0, Search(DatePattern, None, line).value.1);
  }

  /** The leftmost match's outer digit runs cannot be extended. */
  lemma DateRunsWhole(line: string, a: nat, b: nat)
    requires Search(DatePattern, None, line) == Some((a, b))
    ensures (a == 0 || !IsDigit(line[a - 1])) && (b == |line| || !IsDigit(line[b]))
  {
    DateRunStartsWhole(line, a, b);
    DateRunEndsWhole(line, a, b);
  }

  lemma DateRunStartsWhole(line: string, a: nat, b: nat)
    requires Search(DatePattern, None, line) == Some((a, b))
    ensures a == 0 || !IsDigit(line[a - 1])
  {
    SearchSome(DatePattern, None, line);
    DateMatchExtendsLeft(line, a, b);
  }

  lemma DateRunEndsWhole(line: string, a: nat, b: nat)
    requires Search(DatePattern, None, line) == Some((a, b))
    ensures b == |line| || !IsDigit(line[b])
  {
    SearchFound(DatePattern, None, line);
    DatePatternItems();
    PatternsDelimited();
    MatchFromIsGreedy(DatePattern, line, a);
    GreedyEndsRun(DatePattern, line, a, Digit);
  }

  /** A digit just before a match of `\d*-\d*-\d*` makes a match one further left. */
  lemma DateMatchExtendsLeft(line: string, a: nat, b: nat)
    requires MatchesAt(DatePattern, None, line, a, b)
    ensures 0 < a && IsDigit(line[a - 1]) ==> MatchesAt(DatePattern, None, line, a - 1, b)
  {
    if 0 < a && IsDigit(line[a - 1]) {
      DatePatternItems();
      PrependStar(DatePattern, line[a..b], Digit, line[a - 1]);
      assert [line[a - 1]] + line[a..b] == line[a - 1..b];
    }
  }

  // ---------------------------------------------------------------------------
  // get_timestamp_from_string

  /** `\.` or `\.?` */
  predicate IsDot(dot: Item) {
    dot == One(Literal('.')) || dot == Opt(Literal('.'))
  }

  lemma ClockPatternItems(dot: Item)
    ensures ClockPattern(dot)
      == [Star(Digit), One(Literal(':')), Star(Digit), One(Literal(':')), Star(Digit), dot, Star(Digit)]
  {
  }

  lemma DayPatternItems()
    ensures DayPattern == [Star(Digit), One(Literal('-')), Star(Digit), One(Literal('-')), Star(Digit), One(Space)]
  {
  }

  /** The clock part requires `:` twice and `-` never. */
  lemma ClockCounts(dot: Item, c: char)
    requires IsDot(dot) && (c == ':' || c == '-')
    ensures RequiredCount(ClockPattern(dot), c) == (if c == ':' then 2 else 0)
  {
    var seconds := SecondsPattern(dot);
    RequiredCountConcat(Field(Literal(':')), Field(Literal(':')) + seconds, c);
    RequiredCountConcat(Field(Literal(':')), seconds, c);
    assert RequiredCount(seconds[1..], c) == 0;
  }

  /** The body requires `-` twice and `:` twice. */
  lemma BodyCounts(dot: Item)
    requires IsDot(dot)
    ensures RequiredCount(TimestampBody(dot), '-') == 2 && RequiredCount(TimestampBody(dot), ':') == 2
  {
    ClockCounts(dot, ':');
    ClockCounts(dot, '-');
    RequiredCountConcat(DayPattern, ClockPattern(dot), '-');
    RequiredCountConcat(DayPattern, ClockPattern(dot), ':');
    var tail := Field(Literal('-')) + Field(Space);
    RequiredCountConcat(Field(Literal('-')), tail, '-');
    RequiredCountConcat(Field(Literal('-')), tail, ':');
    RequiredCountConcat(Field(Literal('-')), Field(Space), '-');
    RequiredCountConcat(Field(Literal('-')), Field(Space), ':');
  }

  /** A match of the clock part holds no whitespace and exactly two `:`. */
  lemma ClockMatchContent(dot: Item, t: string)
    requires IsDot(dot) && Matches(ClockPattern(dot), t)
    ensures |t| > 0 && forall x :: 0 <= x < |t| ==> !IsSpace(t[x])
  {
    var p := ClockPattern(dot);
    ClockPatternItems(dot);
    assert ClassesAvoid(Space, p);
    MatchAvoids(Space, p, t);
    assert OnlyRequired(p, ':');
    ClockCounts(dot, ':');
    MatchCount(p, t, ':');
  }

  /** A match of the body holds exactly two `-` and two `:`. */
  lemma BodyMatchCounts(dot: Item, t: string)
    requires IsDot(dot) && Matches(TimestampBody(dot), t)
    ensures CountOf(t, '-') == 2 && CountOf(t, ':') == 2
  {
    var p := TimestampBody(dot);
    ClockPatternItems(dot);
    DayPatternItems();
    assert p == [Star(Digit), One(Literal('-')), Star(Digit), One(Literal('-')), Star(Digit), One(Space)]
      + [Star(Digit), One(Literal(':')), Star(Digit), One(Literal(':')), Star(Digit), dot, Star(Digit)];
    assert OnlyRequired(p, '-') && OnlyRequired(p, ':');
    BodyCounts(dot);
    MatchCount(p, t, '-');
    MatchCount(p, t, ':');
  }

  /** A match of the body starts and ends with a character that is not whitespace. */
  lemma BodyMatchEnds(dot: Item, t: string)
    requires IsDot(dot) && Matches(TimestampBody(dot), t)
    ensures |t| > 0 && !IsSpace(t[0]) && !IsSpace(t[|t| - 1])
  {
    MatchesConcat(DayPattern, ClockPattern(dot), t);
    var n: nat :| SplitMatch(DayPattern, ClockPattern(dot), t, n);
    var clock := t[n..];
    ClockMatchContent(dot, clock);
    assert t[|t| - 1] == clock[|clock| - 1];
    BodyHeadsAvoidSpace(dot);
    HeadsAvoidFirst(Space, TimestampBody(dot), t);
  }

  lemma BodyHeadsAvoidSpace(dot: Item)
    ensures HeadsAvoid(Space, TimestampBody(dot))
  {
    var body := TimestampBody(dot);
    DayPatternItems();
    assert body[0] == Star(Digit) && body[1..][0] == One(Literal('-'));
  }

  /** `strip()` takes off the whitespace in front of a match of the body, and nothing else. */
  lemma BodyMatchStrip(dot: Item, x: string, w: nat)
    requires IsDot(dot) && w <= |x| && AllIn(Space, x[..w]) && Matches(TimestampBody(dot), x[w..])
    ensures Strip(x) == x[w..]
  {
    var spaces, t := x[..w], x[w..];
    assert AllSpace(spaces) by {
      assert forall j :: 0 <= j < |spaces| ==> InClass(Space, spaces[j]);
    }
    assert x == spaces + t;
    BodyMatchEnds(dot, t);
    StripAround(spaces, t);
  }

  /** `\s*` takes the longest whitespace run; the body goes on from its end. */
  lemma GreedyAfterSpaces(dot: Item, s: string, i: nat)
    requires i <= |s|
    ensures Greedy(TimestampPattern(dot), s, i) == Greedy(TimestampBody(dot), s, i + RunLength(Space, s, i))
  {
    GreedyConcat([Star(Space)], TimestampBody(dot), s, i);
    assert [Star(Space)][1..] == [];
  }

  lemma TimestampPatternItems(dot: Item)
    ensures TimestampPattern(dot) == [Star(Space), Star(Digit), One(Literal('-')), Star(Digit), One(Literal('-')),
      Star(Digit), One(Space), Star(Digit), One(Literal(':')), Star(Digit), One(Literal(':')), Star(Digit), dot, Star(Digit)]
  {
    ClockPatternItems(dot);
    DayPatternItems();
  }

  /** A greedy match of a timestamp pattern cannot be followed by another digit. */
  lemma GreedyTimestampEnd(dot: Item, line: string, a: nat)
    requires a <= |line| && Greedy(TimestampPattern(dot), line, a).Some?
    ensures var b := Greedy(TimestampPattern(dot), line, a).value; b == |line| || !IsDigit(line[b])
  {
    var p := TimestampPattern(dot);
    ClockPatternItems(dot);
    assert p[|p| - 1] == Star(Digit);
    GreedyEndsRun(p, line, a, Digit);
  }

  /** `get_timestamp_from_string` fails, with an AttributeError, exactly when no `]` in the
      line is followed by a match of its pattern. */
  lemma GetTimestampFromStringFails(line: string)
    ensures GetTimestampFromString(line).Err? <==>
      forall x: nat, y: nat :: !MatchesAt(TimestampTextPattern, AfterBracket, line, x, y)
    ensures GetTimestampFromString(line).Err? ==> GetTimestampFromString(line).error.AttributeError?
  {
    SearchNone(TimestampTextPattern, AfterBracket, line);
  }

  /** A greedy match of a timestamp pattern at `a`: `strip()` leaves its body, which holds
      exactly two `-` and two `:`. */
  lemma GreedyTimestampText(dot: Item, line: string, a: nat, b: nat)
    requires IsDot(dot) && a <= |line| && Greedy(TimestampPattern(dot), line, a) == Some(b)
    ensures var w := RunLength(Space, line, a);
      && a + w <= b && Strip(line[a..b]) == line[a + w..b]
      && Matches(TimestampBody(dot), line[a + w..b])
      && CountOf(line[a + w..b], '-') == 2 && CountOf(line[a + w..b], ':') == 2
  {
    var w := RunLength(Space, line, a);
    GreedyAfterSpaces(dot, line, a);
    GreedySound(TimestampBody(dot), line, a + w);
    var x := line[a..b];
    assert x[..w] == line[a..a + w] && x[w..] == line[a + w..b];
    BodyMatchStrip(dot, x, w);
    BodyMatchCounts(dot, x[w..]);
  }

  /** What `get_timestamp_from_string` returns: the match that follows a `]`, from the end of
      its leading whitespace on, which is what `strip()` leaves. It matches the date-time
      pattern and holds exactly two `-` and two `:`. */
  lemma GetTimestampFromStringFinds(line: string)
    requires GetTimestampFromString(line).Ok?
    ensures var r, a, b := GetTimestampFromString(line).value,
      Search(TimestampTextPattern, AfterBracket, line).value.0, Search(TimestampTextPattern, AfterBracket, line).value.1;
      && 0 < a && line[a - 1] == ']'
      && a + RunLength(Space, line, a) <= b && r == line[a + RunLength(Space, line, a)..b]
      && Matches(TimestampBody(Opt(Literal('.'))), r)
      && CountOf(r, '-') == 2 && CountOf(r, ':') == 2
  {
    var found := Search(TimestampTextPattern, AfterBracket, line).value;
    var a, b := found.0, found.1;
    SearchFound(TimestampTextPattern, AfterBracket, line);
    assert GetTimestampFromString(line).value == Strip(line[a..b]);
    PatternsDelimited();
    GreedyAgrees(TimestampTextPattern, line, a, Greedy(TimestampTextPattern, line, a));
    GreedyTimestampText(Opt(Literal('.')), line, a, b);
  }

  /** The timestamp is the leftmost one after a `]`, and its last digit run is whole. */
  lemma GetTimestampFromStringLeftmost(line: string)
    requires GetTimestampFromString(line).Ok?
    ensures var a, b := Search(TimestampTextPattern, AfterBracket, line).value.0, Search(TimestampTextPattern, AfterBracket, line).value.1;
      && (forall x: nat, y: nat :: x < a ==> !MatchesAt(TimestampTextPattern, AfterBracket, line, x, y))
      && (b == |line| || !IsDigit(line[b]))
  {
    var a := Search(TimestampTextPattern, AfterBracket, line).value.0;
    SearchSome(TimestampTextPattern, AfterBracket, line);
    PatternsDelimited();
    MatchFromIsGreedy(TimestampTextPattern, line, a);
    GreedyTimestampEnd(Opt(Literal('.')), line, a);
  }

  // ---------------------------------------------------------------------------
  // contains_timestamp_with_ms

  /** `contains_timestamp_with_ms` holds exactly when some `]` in the line is followed by a
      match of its pattern. */
  lemma ContainsTimestampWithMsMeaning(line: string)
    ensures ContainsTimestampWithMs(line) <==> exists x: nat, y: nat :: MatchesAt(MillisecondsPattern, AfterBracket, line, x, y)
  {
    SearchNone(MillisecondsPattern, AfterBracket, line);
  }

  /** The two patterns differ only in `\.` against `\.?`. */
  lemma FractionRelaxes()
    ensures Relaxes(MillisecondsPattern, TimestampTextPattern)
  {
    TimestampPatternItems(One(Literal('.')));
    TimestampPatternItems(Opt(Literal('.')));
  }

  /** A line for which `contains_timestamp_with_ms` holds has a timestamp for
      `get_timestamp_from_string`, and that one starts no later than the fractional one. */
  lemma MillisecondsImpliesTimestamp(line: string)
    requires ContainsTimestampWithMs(line)
    ensures GetTimestampFromString(line).Ok?
    ensures Search(TimestampTextPattern, AfterBracket, line).value.0 <= Search(MillisecondsPattern, AfterBracket, line).value.0
  {
    var a, b := Search(MillisecondsPattern, AfterBracket, line).value.0, Search(MillisecondsPattern, AfterBracket, line).value.1;
    SearchSome(MillisecondsPattern, AfterBracket, line);
    FractionRelaxes();
    RelaxedMatches(MillisecondsPattern, TimestampTextPattern, line[a..b]);
    assert MatchesAt(TimestampTextPattern, AfterBracket, line, a, b);
    SearchNone(TimestampTextPattern, AfterBracket, line);
    SearchSome(TimestampTextPattern, AfterBracket, line);
  }

  /** `get_timestamp_from_line` fails with an AttributeError when there is no timestamp to
      read, and otherwise only with the ValueError of `strptime`. */
  lemma GetTimestampFromLineErrors(line: string)
    requires GetTimestampFromLine(line).Err?
    ensures GetTimestampFromLine(line).error.AttributeError? <==>
      forall x: nat, y: nat :: !MatchesAt(TimestampTextPattern, AfterBracket, line, x, y)
    ensures GetTimestampFromLine(line).error.AttributeError? || GetTimestampFromLine(line).error.ValueError?
  {
    GetTimestampFromStringFails(line);
  }

  // ---------------------------------------------------------------------------
  // Lines holding a timestamp that strftime wrote

  /** What may follow a timestamp: nothing, or a character that is neither a digit nor `.`. */
  predicate EndsField(rest: string) {
    rest == [] || (!IsDigit(rest[0]) && rest[0] != '.')
  }

  /** `\d*` takes the `w` digits at `i`, and the separator after them. */
  lemma {:induction false} GreedyField(sep: CharClass, q: Pattern, s: string, i: nat, w: nat)
    requires i + w < |s| && (forall x :: i <= x < i + w ==> IsDigit(s[x]))
    requires InClass(sep, s[i + w]) && !IsDigit(s[i + w])
    ensures Greedy(Field(sep) + q, s, i) == Greedy(q, s, i + w + 1)
  {
    assert AllIn(Digit, s[i..i + w]);
    RunLengthExact(Digit, s, i, w);
    var p := Field(sep) + q;
    assert p[0] == Star(Digit) && p[1..] == [One(sep)] + q;
    assert ([One(sep)] + q)[1..] == q;
  }

  /** After the seconds: `\.?` takes nothing and `\.` fails when no `.` follows. */
  lemma {:induction false} GreedyNoFraction(dot: Item, s: string, j: nat)
    requires IsDot(dot) && j <= |s| && (j == |s| || (!IsDigit(s[j]) && s[j] != '.'))
    ensures Greedy([dot, Star(Digit)], s, j) == if dot.One? then None else Some(j)
  {
    assert [dot, Star(Digit)][1..] == [Star(Digit)];
    RunLengthExact(Digit, s, j, 0);
    assert [Star(Digit)][1..] == [];
  }

  /** After the seconds: `\.` or `\.?` takes the `.`, and `\d*` the `w` digits after it. */
  lemma {:induction false} GreedyFraction(dot: Item, s: string, j: nat, w: nat)
    requires IsDot(dot) && j + 1 + w <= |s| && s[j] == '.' && AllDigits(s[j + 1..j + 1 + w])
    requires j + 1 + w == |s| || !IsDigit(s[j + 1 + w])
    ensures Greedy([dot, Star(Digit)], s, j) == Some(j + 1 + w)
  {
    assert [dot, Star(Digit)][1..] == [Star(Digit)];
    RunLengthExact(Digit, s, j + 1, w);
    assert [Star(Digit)][1..] == [];
  }

  /** The `\d*` of the seconds takes the `w` digits at `i`. */
  lemma {:induction false} GreedySecondsRun(dot: Item, s: string, i: nat, w: nat)
    requires i + w <= |s| && AllDigits(s[i..i + w]) && (i + w == |s| || !IsDigit(s[i + w]))
    ensures Greedy(SecondsPattern(dot), s, i) == Greedy([dot, Star(Digit)], s, i + w)
  {
    var rest := [dot, Star(Digit)];
    DigitRunLength(s, i, w);
    assert SecondsPattern(dot) == [Star(Digit)] + rest;
    GreedyStarHead(Digit, rest, s, i);
  }

  /** `\d*` at `i` takes exactly the `w` digits there. */
  lemma DigitRunLength(s: string, i: nat, w: nat)
    requires i + w <= |s| && AllDigits(s[i..i + w]) && (i + w == |s| || !IsDigit(s[i + w]))
    ensures RunLength(Digit, s, i) == w
  {
    var t := s[i..i + w];
    assert AllIn(Digit, t) by {
      assert forall x :: 0 <= x < |t| ==> IsDigit(t[x]);
    }
    RunLengthExact(Digit, s, i, w);
  }

  /** The seconds and what follows them: `\.` needs the fraction. */
  lemma {:induction false} GreedySeconds(dot: Item, s: string, i: nat, format: TimestampFormat)
    requires IsDot(dot) && i + 2 <= |s| && IsDigit(s[i]) && IsDigit(s[i + 1])
    requires format == WholeSeconds ==> i + 2 == |s| || (!IsDigit(s[i + 2]) && s[i + 2] != '.')
    requires format == WithFraction ==>
      && i + 9 <= |s| && s[i + 2] == '.' && (forall x :: i + 3 <= x < i + 9 ==> IsDigit(s[x]))
      && (i + 9 == |s| || !IsDigit(s[i + 9]))
    ensures Greedy(SecondsPattern(dot), s, i)
      == if dot.One? && format == WholeSeconds then None else Some(i + if format == WithFraction then 9 else 2)
  {
    match format {
      case WholeSeconds => GreedySecondsWhole(dot, s, i);
      case WithFraction => GreedySecondsFraction(dot, s, i);
    }
  }

  lemma {:induction false} GreedySecondsWhole(dot: Item, s: string, i: nat)
    requires IsDot(dot) && i + 2 <= |s| && IsDigit(s[i]) && IsDigit(s[i + 1])
    requires i + 2 == |s| || (!IsDigit(s[i + 2]) && s[i + 2] != '.')
    ensures Greedy(SecondsPattern(dot), s, i) == if dot.One? then None else Some(i + 2)
  {
    assert AllDigits(s[i..i + 2]);
    GreedySecondsRun(dot, s, i, 2);
    GreedyNoFraction(dot, s, i + 2);
  }

  lemma {:induction false} GreedySecondsFraction(dot: Item, s: string, i: nat)
    requires IsDot(dot) && i + 9 <= |s| && IsDigit(s[i]) && IsDigit(s[i + 1]) && s[i + 2] == '.'
    requires forall x :: i + 3 <= x < i + 9 ==> IsDigit(s[x])
    requires i + 9 == |s| || !IsDigit(s[i + 9])
    ensures Greedy(SecondsPattern(dot), s, i) == Some(i + 9)
  {
    assert AllDigits(s[i..i + 2]);
    GreedySecondsRun(dot, s, i, 2);
    assert AllDigits(s[i + 3..i + 9]);
    GreedyFraction(dot, s, i + 2, 6);
  }

  /** `s` holds at `k` the layout of a timestamp text in the given format, followed by the
      end of `s` or by a character that is neither a digit nor `.`. */
  predicate LaidOutAt(s: string, k: nat, format: TimestampFormat) {
    var n := if format == WithFraction then 26 else 19;
    && k + n <= |s|
    && s[k + 4] == '-' && s[k + 7] == '-' && s[k + 10] == ' ' && s[k + 13] == ':' && s[k + 16] == ':'
    && (format == WithFraction ==> s[k + 19] == '.')
    && (forall x :: k <= x < k + n && x - k !in {4, 7, 10, 13, 16, 19} ==> IsDigit(s[x]))
    && (k + n == |s| || (!IsDigit(s[k + n]) && s[k + n] != '.'))
  }

  /** The layout of a timestamp text in the given format, on its own. */
  predicate TextLayout(t: string, format: TimestampFormat) {
    && |t| == (if format == WithFraction then 26 else 19)
    && t[4] == '-' && t[7] == '-' && t[10] == ' ' && t[13] == ':' && t[16] == ':'
    && (format == WithFraction ==> t[19] == '.')
    && forall x :: 0 <= x < |t| && x !in {4, 7, 10, 13, 16, 19} ==> IsDigit(t[x])
  }

  /** strftime writes a timestamp in that layout. */
  lemma TimestampTextLaidOut(dt: DateTime, format: TimestampFormat)
    requires ValidDateTime(dt)
    ensures TextLayout(TimestampText(dt, format), format)
  {
    TimestampTextLayout(dt, format);
  }

  lemma {:induction false} TextAt(front: string, text: string, format: TimestampFormat, rest: string)
    requires TextLayout(text, format) && EndsField(rest)
    ensures LaidOutAt(front + text + rest, |front|, format)
  {
    var s := front + text + rest;
    var k := |front|;
    assert forall x :: 0 <= x < |text| ==> s[k + x] == text[x];
    forall x | k <= x < k + |text| && x - k !in {4, 7, 10, 13, 16, 19} ensures IsDigit(s[x]) {
      assert s[x] == text[x - k];
    }
    assert k + |text| == |s| || s[k + |text|] == rest[0];
  }

  /** `\d*-\d*-\d*\s` over the date of a timestamp laid out at `k`. */
  lemma {:induction false} GreedyDay(q: Pattern, s: string, k: nat, format: TimestampFormat)
    requires LaidOutAt(s, k, format)
    ensures Greedy(Field(Literal('-')) + (Field(Literal('-')) + (Field(Space) + q)), s, k) == Greedy(q, s, k + 11)
  {
    GreedyField(Literal('-'), Field(Literal('-')) + (Field(Space) + q), s, k, 4);
    GreedyField(Literal('-'), Field(Space) + q, s, k + 5, 2);
    GreedyField(Space, q, s, k + 8, 2);
  }

  /** `\d*:\d*:` and the seconds over the clock of a timestamp laid out at `k`. */
  lemma {:induction false} GreedyClock(dot: Item, s: string, k: nat, format: TimestampFormat)
    requires IsDot(dot) && LaidOutAt(s, k, format)
    ensures Greedy(ClockPattern(dot), s, k + 11)
      == if dot.One? && format == WholeSeconds then None else Some(k + if format == WithFraction then 26 else 19)
  {
    LaidOutClock(s, k, format);
    GreedyClockAt(dot, s, k + 11, format);
  }

  /** The characters of the clock of a timestamp laid out at `k`. */
  lemma LaidOutClock(s: string, k: nat, format: TimestampFormat)
    requires LaidOutAt(s, k, format)
    ensures k + 19 <= |s| && IsDigit(s[k + 11]) && IsDigit(s[k + 12]) && s[k + 13] == ':'
    ensures IsDigit(s[k + 14]) && IsDigit(s[k + 15]) && s[k + 16] == ':' && IsDigit(s[k + 17]) && IsDigit(s[k + 18])
    ensures format == WholeSeconds ==> k + 19 == |s| || (!IsDigit(s[k + 19]) && s[k + 19] != '.')
    ensures format == WithFraction ==>
      && k + 26 <= |s| && s[k + 19] == '.' && (forall x :: k + 20 <= x < k + 26 ==> IsDigit(s[x]))
      && (k + 26 == |s| || !IsDigit(s[k + 26]))
  {
    var n := if format == WithFraction then 26 else 19;
    assert forall x :: k + 11 <= x < k + n && x - k !in {13, 16, 19} ==> IsDigit(s[x]);
  }

  lemma {:induction false} GreedyClockAt(dot: Item, s: string, j: nat, format: TimestampFormat)
    requires IsDot(dot) && j + 8 <= |s| && IsDigit(s[j]) && IsDigit(s[j + 1]) && s[j + 2] == ':'
    requires IsDigit(s[j + 3]) && IsDigit(s[j + 4]) && s[j + 5] == ':' && IsDigit(s[j + 6]) && IsDigit(s[j + 7])
    requires format == WholeSeconds ==> j + 8 == |s| || (!IsDigit(s[j + 8]) && s[j + 8] != '.')
    requires format == WithFraction ==>
      && j + 15 <= |s| && s[j + 8] == '.' && (forall x :: j + 9 <= x < j + 15 ==> IsDigit(s[x]))
      && (j + 15 == |s| || !IsDigit(s[j + 15]))
    ensures Greedy(ClockPattern(dot), s, j)
      == if dot.One? && format == WholeSeconds then None else Some(j + if format == WithFraction then 15 else 8)
  {
    var seconds := SecondsPattern(dot);
    GreedyField(Literal(':'), Field(Literal(':')) + seconds, s, j, 2);
    GreedyField(Literal(':'), seconds, s, j + 3, 2);
    GreedySeconds(dot, s, j + 6, format);
  }

  /** The greedy choices over the body of a timestamp laid out at `k`. */
  lemma GreedyBody(dot: Item, s: string, k: nat, format: TimestampFormat)
    requires IsDot(dot) && LaidOutAt(s, k, format)
    ensures Greedy(TimestampBody(dot), s, k)
      == if dot.One? && format == WholeSeconds then None else Some(k + if format == WithFraction then 26 else 19)
  {
    var clock := ClockPattern(dot);
    assert TimestampBody(dot) == Field(Literal('-')) + (Field(Literal('-')) + (Field(Space) + clock));
    GreedyDay(clock, s, k, format);
    GreedyClock(dot, s, k, format);
  }

  /** The greedy choices over whitespace and a timestamp text: both patterns take all of it,
      except that `\.` finds no fraction after whole seconds. */
  lemma {:induction false} GreedyTimestamp(dot: Item, front: string, spaces: string, text: string, format: TimestampFormat, rest: string)
    requires IsDot(dot) && AllSpace(spaces) && TextLayout(text, format) && EndsField(rest)
    ensures var s := front + spaces + text + rest;
      Greedy(TimestampPattern(dot), s, |front|)
        == if dot.One? && format == WholeSeconds then None else Some(|front| + |spaces| + |text|)
  {
    var s := front + spaces + text + rest;
    var k := |front + spaces|;
    TextAt(front + spaces, text, format, rest);
    SecondOfFour(front, spaces, text, rest);
    assert AllSpace(s[|front|..k]);
    GreedySpacedTimestamp(dot, s, |front|, k, format);
  }

  lemma SecondOfFour<T>(a: seq<T>, b: seq<T>, c: seq<T>, d: seq<T>)
    ensures (a + b + c + d)[|a|..|a| + |b|] == b
  {
    var s := a + b + c + d;
    assert forall x :: 0 <= x < |b| ==> s[|a| + x] == b[x];
  }

  /** Whitespace from `i` to `k`, then a timestamp laid out at `k`. */
  lemma GreedySpacedTimestamp(dot: Item, s: string, i: nat, k: nat, format: TimestampFormat)
    requires IsDot(dot) && i <= k && LaidOutAt(s, k, format) && AllSpace(s[i..k])
    ensures Greedy(TimestampPattern(dot), s, i)
      == if dot.One? && format == WholeSeconds then None else Some(k + if format == WithFraction then 26 else 19)
  {
    assert IsDigit(s[k]);
    assert AllIn(Space, s[i..k]);
    RunLengthExact(Space, s, i, k - i);
    GreedyAfterSpaces(dot, s, i);
    GreedyBody(dot, s, k, format);
  }

  /** With no `]` in `prefix`, a match right after the first `]` is the one the search finds. */
  lemma {:induction false} SearchAfterBracket(p: Pattern, prefix: string, rest: string, b: nat)
    requires ']' !in prefix
    requires var s := prefix + "]" + rest; |prefix| + 1 <= |s| && MatchFrom(p, s, |prefix| + 1) == Some(b)
    ensures Search(p, AfterBracket, prefix + "]" + rest) == Some((|prefix| + 1, b))
  {
    var s := prefix + "]" + rest;
    forall x | 0 <= x < |prefix| + 1 ensures !LookbehindHolds(AfterBracket, s, x) {
      if 0 < x {
        assert s[x - 1] == prefix[x - 1];
      }
    }
    SearchSkips(p, AfterBracket, s, 0, |prefix| + 1);
    assert s[|prefix|] == ']';
  }

  /** With no `]` in `prefix` and none in `rest`, a pattern that does not match right after the
      only `]` is not found. */
  lemma {:induction false} NoSearchAfterOnlyBracket(p: Pattern, prefix: string, rest: string)
    requires ']' !in prefix && ']' !in rest
    requires var s := prefix + "]" + rest; MatchFrom(p, s, |prefix| + 1).None?
    ensures Search(p, AfterBracket, prefix + "]" + rest).None?
  {
    var s := prefix + "]" + rest;
    forall x | 0 <= x <= |s| && x != |prefix| + 1 ensures !LookbehindHolds(AfterBracket, s, x) {
      if 0 < x <= |prefix| {
        assert s[x - 1] == prefix[x - 1];
      } else if x > |prefix| + 1 {
        assert s[x - 1] == rest[x - 2 - |prefix|];
      }
    }
    SearchFromNone(p, AfterBracket, s, 0);
  }

  /** The characters of a timestamp as strftime writes it: not a space at either end, and no `]`. */
  lemma {:induction false} TextChars(t: string, format: TimestampFormat)
    requires TextLayout(t, format)
    ensures |t| > 0 && !IsSpace(t[0]) && !IsSpace(t[|t| - 1])
    ensures forall x :: 0 <= x < |t| ==> t[x] != ']'
  {
    assert IsDigit(t[0]) && IsDigit(t[|t| - 1]);
  }

  /** Right after the first `]`, the timestamp pattern spans the whitespace and the timestamp
      (none, for `\.` and whole seconds). */
  lemma {:induction false} MatchTimestampAfterBracket(dot: Item, prefix: string, spaces: string, text: string, format: TimestampFormat, rest: string)
    requires IsDot(dot) && AllSpace(spaces) && TextLayout(text, format) && EndsField(rest)
    ensures var line := prefix + "]" + spaces + text + rest;
      MatchFrom(TimestampPattern(dot), line, |prefix| + 1)
        == if dot.One? && format == WholeSeconds then None else Some(|prefix| + 1 + |spaces| + |text|)
  {
    var line := prefix + "]" + spaces + text + rest;
    var front := prefix + "]";
    var p := TimestampPattern(dot);
    DelimitedTimestamp(dot);
    GreedyTimestamp(dot, front, spaces, text, format, rest);
    assert |front| == |prefix| + 1 && line == front + spaces + text + rest;
    GreedyAgrees(p, line, |front|, Greedy(p, line, |front|));
  }

  lemma GreedyAgrees(p: Pattern, s: string, i: nat, r: Option<nat>)
    requires Delimited(p) && i <= |s| && Greedy(p, s, i) == r
    ensures MatchFrom(p, s, i) == r
  {
    MatchFromIsGreedy(p, s, i);
  }

  /** A timestamp that strftime wrote after the first `]` of a line, behind any whitespace,
      is what `get_timestamp_from_string` returns. */
  lemma {:induction false} TimestampAfterFirstBracket(prefix: string, spaces: string, dt: DateTime, format: TimestampFormat, rest: string)
    requires ']' !in prefix && AllSpace(spaces) && ValidDateTime(dt) && EndsField(rest)
    ensures GetTimestampFromString(prefix + "]" + spaces + TimestampText(dt, format) + rest) == Ok(TimestampText(dt, format))
  {
    TimestampTextLaidOut(dt, format);
    TextAfterFirstBracket(prefix, spaces, TimestampText(dt, format), format, rest);
  }

  lemma {:induction false} TextAfterFirstBracket(prefix: string, spaces: string, text: string, format: TimestampFormat, rest: string)
    requires ']' !in prefix && AllSpace(spaces) && TextLayout(text, format) && EndsField(rest)
    ensures GetTimestampFromString(prefix + "]" + spaces + text + rest) == Ok(text)
  {
    var line := prefix + "]" + spaces + text + rest;
    var a, b := |prefix| + 1, |prefix| + 1 + |spaces| + |text|;
    MatchTimestampAfterBracket(Opt(Literal('.')), prefix, spaces, text, format, rest);
    LineAfterBracket(prefix, spaces, text, rest);
    SearchAfterBracket(TimestampTextPattern, prefix, spaces + text + rest, b);
    assert Search(TimestampTextPattern, AfterBracket, line) == Some((a, b));
    TextChars(text, format);
    StripAround(spaces, text);
  }

  /** How a line with a timestamp after the first `]` splits. */
  lemma {:induction false} LineAfterBracket(prefix: string, spaces: string, text: string, rest: string)
    ensures var line := prefix + "]" + spaces + text + rest;
      && line == prefix + "]" + (spaces + text + rest)
      && line[|prefix| + 1..|prefix| + 1 + |spaces| + |text|] == spaces + text
  {
  }

  /** ... and `contains_timestamp_with_ms` holds exactly when it has a fraction, provided no
      `]` follows. */
  lemma {:induction false} FractionAfterFirstBracket(prefix: string, spaces: string, dt: DateTime, format: TimestampFormat, rest: string)
    requires ']' !in prefix && AllSpace(spaces) && ValidDateTime(dt) && EndsField(rest)
    ensures format == WithFraction ==> ContainsTimestampWithMs(prefix + "]" + spaces + TimestampText(dt, format) + rest)
    ensures format == WholeSeconds && ']' !in rest ==> !ContainsTimestampWithMs(prefix + "]" + spaces + TimestampText(dt, format) + rest)
  {
    TimestampTextLaidOut(dt, format);
    TextFractionAfterFirstBracket(prefix, spaces, TimestampText(dt, format), format, rest);
  }

  lemma {:induction false} TextFractionAfterFirstBracket(prefix: string, spaces: string, text: string, format: TimestampFormat, rest: string)
    requires ']' !in prefix && AllSpace(spaces) && TextLayout(text, format) && EndsField(rest)
    ensures format == WithFraction ==> ContainsTimestampWithMs(prefix + "]" + spaces + text + rest)
    ensures format == WholeSeconds && ']' !in rest ==> !ContainsTimestampWithMs(prefix + "]" + spaces + text + rest)
  {
    var line := prefix + "]" + spaces + text + rest;
    var b := |prefix| + 1 + |spaces| + |text|;
    MatchTimestampAfterBracket(One(Literal('.')), prefix, spaces, text, format, rest);
    LineAfterBracket(prefix, spaces, text, rest);
    if format == WithFraction {
      SearchAfterBracket(MillisecondsPattern, prefix, spaces + text + rest, b);
    } else if ']' !in rest {
      TextChars(text, format);
      forall x | 0 <= x < |spaces + text + rest| ensures (spaces + text + rest)[x] != ']' {
        if x < |spaces| {
          assert (spaces + text + rest)[x] == spaces[x];
        } else if x < |spaces| + |text| {
          assert (spaces + text + rest)[x] == text[x - |spaces|];
        } else {
          assert (spaces + text + rest)[x] == rest[x - |spaces| - |text|];
        }
      }
      NoSearchAfterOnlyBracket(MillisecondsPattern, prefix, spaces + text + rest);
    }
  }

  /** `get_timestamp_from_line` reads back a timestamp that strftime wrote after the first
      `]` of a line, in either format; for whole seconds, only when no later `]` starts a
      fractional timestamp, which this requires by allowing no later `]` at all. */
  lemma {:induction false} GetTimestampFromLineRoundTrip(prefix: string, spaces: string, dt: DateTime, format: TimestampFormat, rest: string)
    requires ']' !in prefix && AllSpace(spaces) && ValidDateTime(dt) && EndsField(rest)
    requires format == WholeSeconds ==> dt.microsecond == 0 && ']' !in rest
    ensures GetTimestampFromLine(prefix + "]" + spaces + TimestampText(dt, format) + rest) == Ok(dt)
  {
    TimestampAfterFirstBracket(prefix, spaces, dt, format, rest);
    FractionAfterFirstBracket(prefix, spaces, dt, format, rest);
    ParseTimestampRoundTrip(dt, format);
  }

  /** Choosing the format by the text read, the round trip needs nothing of the rest of the
      line. */
  lemma {:induction false} GetTimestampFromLineByTextRoundTrip(prefix: string, spaces: string, dt: DateTime, format: TimestampFormat, rest: string)
    requires ']' !in prefix && AllSpace(spaces) && ValidDateTime(dt) && EndsField(rest)
    requires format == WholeSeconds ==> dt.microsecond == 0
    ensures GetTimestampFromLineByText(prefix + "]" + spaces + TimestampText(dt, format) + rest) == Ok(dt)
  {
    TimestampAfterFirstBracket(prefix, spaces, dt, format, rest);
    TimestampTextHasDot(dt, format);
    ParseTimestampRoundTrip(dt, format);
  }

  /** A whole-second timestamp after the first `]`, and a fractional one after a later `]`:
      `contains_timestamp_with_ms` sees the second, `get_timestamp_from_string` returns the
      first, and '%Y-%m-%d %H:%M:%S.%f' rejects it. Choosing by the text read, it is read. */
  lemma {:induction false} FractionalTimestampLaterInLine(dt1: DateTime, dt2: DateTime)
    requires ValidDateTime(dt1) && dt1.microsecond == 0 && ValidDateTime(dt2)
    ensures var line := "]" + TimestampText(dt1, WholeSeconds) + " ]" + TimestampText(dt2, WithFraction);
      && GetTimestampFromString(line) == Ok(TimestampText(dt1, WholeSeconds))
      && ContainsTimestampWithMs(line)
      && GetTimestampFromLine(line).Err?
      && GetTimestampFromLineByText(line) == Ok(dt1)
  {
    var t1, t2 := TimestampText(dt1, WholeSeconds), TimestampText(dt2, WithFraction);
    var line := "]" + t1 + " ]" + t2;
    FirstTimestampRead(dt1, t2);
    LaterFractionSeen(t1, dt2);
    ParseTimestampNeedsFraction(dt1);
    GetTimestampFromLineAsWritten(line, t1);
  }

  /** What `get_timestamp_from_string` reads from the line of `FractionalTimestampLaterInLine`. */
  lemma {:induction false} FirstTimestampRead(dt1: DateTime, t2: string)
    requires ValidDateTime(dt1) && dt1.microsecond == 0
    ensures var line := "]" + TimestampText(dt1, WholeSeconds) + " ]" + t2;
      && GetTimestampFromString(line) == Ok(TimestampText(dt1, WholeSeconds))
      && GetTimestampFromLineByText(line) == Ok(dt1)
  {
    var t1 := TimestampText(dt1, WholeSeconds);
    TwoBracketsLine(t1, t2);
    assert EndsField(" ]" + t2);
    TimestampAfterFirstBracket("", "", dt1, WholeSeconds, " ]" + t2);
    GetTimestampFromLineByTextRoundTrip("", "", dt1, WholeSeconds, " ]" + t2);
  }

  /** `contains_timestamp_with_ms` sees the fractional timestamp after the second `]`. */
  lemma {:induction false} LaterFractionSeen(t1: string, dt2: DateTime)
    requires ValidDateTime(dt2)
    ensures ContainsTimestampWithMs("]" + t1 + " ]" + TimestampText(dt2, WithFraction))
  {
    var t2 := TimestampText(dt2, WithFraction);
    var line := "]" + t1 + " ]" + t2;
    var pre := "]" + t1 + " ";
    TwoBracketsLine(t1, t2);
    TimestampTextLaidOut(dt2, WithFraction);
    MatchTimestampAfterBracket(One(Literal('.')), pre, "", t2, WithFraction, "");
    ContainsTimestampWithMsFrom(line, |pre| + 1, |line|);
  }

  /** With the fractional format chosen, `get_timestamp_from_line` parses the text read with it. */
  lemma GetTimestampFromLineAsWritten(line: string, text: string)
    requires ContainsTimestampWithMs(line) && GetTimestampFromString(line) == Ok(text)
    ensures GetTimestampFromLine(line) == ParseTimestamp(text, WithFraction)
  {
  }

  /** The two ways the line of `FractionalTimestampLaterInLine` splits. */
  lemma {:induction false} TwoBracketsLine(t1: string, t2: string)
    ensures var line := "]" + t1 + " ]" + t2;
      && line == "" + "]" + "" + t1 + (" ]" + t2)
      && line == ("]" + t1 + " ") + "]" + "" + t2 + ""
      && line[|t1| + 2] == ']'
  {
    var line := "]" + t1 + " ]" + t2;
    assert line[|t1| + 2] == (" ]" + t2)[1];
  }

  /** A match anywhere after a `]` is enough for `contains_timestamp_with_ms`. */
  lemma {:induction false} ContainsTimestampWithMsFrom(line: string, a: nat, b: nat)
    requires 0 < a <= |line| && line[a - 1] == ']' && MatchFrom(MillisecondsPattern, line, a) == Some(b)
    ensures ContainsTimestampWithMs(line)
  {
    MatchFromSound(MillisecondsPattern, line, a);
    assert MatchesAt(MillisecondsPattern, AfterBracket, line, a, b);
    SearchNone(MillisecondsPattern, AfterBracket, line);
  }
}
