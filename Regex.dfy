/**
 * The fragment of Python's `re` that the log scanners use: patterns made of single-character
 * items that are required (`c`), optional (`c?`, greedy) or repeated (`c*`, greedy), over
 * the classes `\d`, `\s` and a literal character, with an optional one-character
 * lookbehind `(?<=c)` in front.
 *
 * `MatchFrom` is the backtracking matcher: greedy items try their longest choice first
 * and give back one character at a time. `Search` is `re.search`: the first start position,
 * from the left, where the lookbehind holds and the matcher succeeds. `Matches` is the
 * declarative meaning of a pattern, against which both are proved.
 */
module Regex {
  import opened Wrappers
  import opened Text

  datatype CharClass = Digit | Space | Literal(c: char)

  predicate InClass(k: CharClass, ch: char) {
    match k
    case Digit => IsDigit(ch)
    case Space => IsSpace(ch)
    case Literal(c) => ch == c
  }

  /** `k`, `k?` and `k*` */
  datatype Item = One(k: CharClass) | Opt(k: CharClass) | Star(k: CharClass)

  type Pattern = seq<Item>

  predicate AllIn(k: CharClass, t: string) {
    forall i :: 0 <= i < |t| ==> InClass(k, t[i])
  }

  // ---------------------------------------------------------------------------
  // Declarative meaning

  /** The whole of `t` matches `p`. */
  ghost predicate Matches(p: Pattern, t: string)
    decreases |p|, 1
  {
    if p == [] then t == []
    else match p[0]
      case One(k) => |t| > 0 && InClass(k, t[0]) && Matches(p[1..], t[1..])
      case Opt(k) => (|t| > 0 && InClass(k, t[0]) && Matches(p[1..], t[1..])) || Matches(p[1..], t)
      case Star(k) => exists n: nat :: StarSplit(k, p[1..], t, n)
  }

  /** `k*` takes the first `n` characters of `t` and `rest` matches the others. */
  ghost predicate StarSplit(k: CharClass, rest: Pattern, t: string, n: nat)
    decreases |rest| + 1, 0
  {
    n <= |t| && AllIn(k, t[..n]) && Matches(rest, t[n..])
  }

  // ---------------------------------------------------------------------------
  // The backtracking matcher

  /** The longest run of `k` characters starting at `i`. */
  function RunLength(k: CharClass, s: string, i: nat): (n: nat)
    requires i <= |s|
    ensures i + n <= |s| && AllIn(k, s[i..i + n])
    ensures i + n == |s| || !InClass(k, s[i + n])
    decreases |s| - i
  {
    if i < |s| && InClass(k, s[i]) then
      var n := 1 + RunLength(k, s, i + 1);
      assert s[i..i + n] == [s[i]] + s[i + 1..i + n];
      n
    else 0
  }

  /** Where a match of `p` that starts at `i` ends, as the backtracking engine finds it. */
  function MatchFrom(p: Pattern, s: string, i: nat): (r: Option<nat>)
    requires i <= |s|
    ensures r.Some? ==> i <= r.value <= |s|
    decreases |p|, |s| - i + 1
  {
    if p == [] then Some(i)
    else match p[0]
      case One(k) => if i < |s| && InClass(k, s[i]) then MatchFrom(p[1..], s, i + 1) else None
      case Opt(k) =>
        var taken := if i < |s| && InClass(k, s[i]) then MatchFrom(p[1..], s, i + 1) else None;
        if taken.Some? then taken else MatchFrom(p[1..], s, i)
      case Star(k) => TryStar(k, p[1..], s, i, RunLength(k, s, i))
  }

  /** `k*` having taken `n` characters: try the rest there, else give one back. */
  function TryStar(k: CharClass, rest: Pattern, s: string, i: nat, n: nat): (r: Option<nat>)
    requires i + n <= |s|
    ensures r.Some? ==> i <= r.value <= |s|
    decreases |rest| + 1, n
  {
    var r := MatchFrom(rest, s, i + n);
    if r.Some? then r
    else if n == 0 then None
    else TryStar(k, rest, s, i, n - 1)
  }

  lemma SliceStep(s: string, i: nat, j: nat)
    requires i < j <= |s|
    ensures s[i..j][0] == s[i] && s[i..j][1..] == s[i + 1..j]
  {
  }

  /** A run of `k` characters is never longer than the longest one. */
  lemma {:induction false} RunLengthLongest(k: CharClass, s: string, i: nat, n: nat)
    requires i + n <= |s| && AllIn(k, s[i..i + n])
    ensures n <= RunLength(k, s, i)
    decreases n
  {
    if n > 0 {
      assert InClass(k, s[i..i + n][0]);
      assert s[i + 1..i + n] == s[i..i + n][1..];
      RunLengthLongest(k, s, i + 1, n - 1);
    }
  }

  /** A run that stops where the `k` characters stop has exactly that length. */
  lemma {:induction false} RunLengthExact(k: CharClass, s: string, i: nat, w: nat)
    requires i + w <= |s| && AllIn(k, s[i..i + w]) && (i + w == |s| || !InClass(k, s[i + w]))
    ensures RunLength(k, s, i) == w
    decreases w
  {
    if w > 0 {
      assert InClass(k, s[i..i + w][0]);
      assert s[i + 1..i + w] == s[i..i + w][1..];
      RunLengthExact(k, s, i + 1, w - 1);
    }
  }

  lemma AllInPrefix(k: CharClass, s: string, i: nat, m: nat, n: nat)
    requires m <= n && i + n <= |s| && AllIn(k, s[i..i + n])
    ensures AllIn(k, s[i..i + m])
  {
    var short, long := s[i..i + m], s[i..i + n];
    forall x | 0 <= x < m ensures InClass(k, short[x]) {
      assert short[x] == long[x];
    }
  }

  /** Whatever the matcher returns is a match. */
  lemma {:induction false} MatchFromSound(p: Pattern, s: string, i: nat)
    requires i <= |s| && MatchFrom(p, s, i).Some?
    ensures Matches(p, s[i..MatchFrom(p, s, i).value])
    decreases |p|, |s| - i + 1
  {
    var j := MatchFrom(p, s, i).value;
    if p != [] {
      match p[0]
      case One(k) =>
        MatchFromSound(p[1..], s, i + 1);
        SliceStep(s, i, j);
      case Opt(k) =>
        var taken := if i < |s| && InClass(k, s[i]) then MatchFrom(p[1..], s, i + 1) else None;
        if taken.Some? {
          MatchFromSound(p[1..], s, i + 1);
          SliceStep(s, i, j);
        } else {
          MatchFromSound(p[1..], s, i);
        }
      case Star(k) =>
        TryStarSound(k, p[1..], s, i, RunLength(k, s, i));
    }
  }

  lemma {:induction false} TryStarSound(k: CharClass, rest: Pattern, s: string, i: nat, n: nat)
    requires i + n <= |s| && AllIn(k, s[i..i + n]) && TryStar(k, rest, s, i, n).Some?
    ensures Matches([Star(k)] + rest, s[i..TryStar(k, rest, s, i, n).value])
    decreases |rest| + 1, n
  {
    var j := TryStar(k, rest, s, i, n).value;
    var p := [Star(k)] + rest;
    assert p[1..] == rest;
    if MatchFrom(rest, s, i + n).Some? {
      MatchFromSound(rest, s, i + n);
      var t := s[i..j];
      assert t[..n] == s[i..i + n] && t[n..] == s[i + n..j];
      assert StarSplit(k, rest, t, n);
    } else {
      AllInPrefix(k, s, i, n - 1, n);
      TryStarSound(k, rest, s, i, n - 1);
    }
  }

  /** Whenever some match starts at `i`, the matcher finds one. */
  lemma {:induction false} MatchFromComplete(p: Pattern, s: string, i: nat, j: nat)
    requires i <= j <= |s| && Matches(p, s[i..j])
    ensures MatchFrom(p, s, i).Some?
    decreases |p|, |s| - i + 1
  {
    if p != [] {
      match p[0]
      case One(k) =>
        SliceStep(s, i, j);
        MatchFromComplete(p[1..], s, i + 1, j);
      case Opt(k) =>
        var t := s[i..j];
        if |t| > 0 && InClass(k, t[0]) && Matches(p[1..], t[1..]) {
          SliceStep(s, i, j);
          MatchFromComplete(p[1..], s, i + 1, j);
        } else {
          MatchFromComplete(p[1..], s, i, j);
        }
      case Star(k) =>
        var t := s[i..j];
        var n: nat :| StarSplit(k, p[1..], t, n);
        assert t[..n] == s[i..i + n] && t[n..] == s[i + n..j];
        RunLengthLongest(k, s, i, n);
        TryStarComplete(k, p[1..], s, i, RunLength(k, s, i), n, j);
    }
  }

  lemma {:induction false} TryStarComplete(k: CharClass, rest: Pattern, s: string, i: nat, n: nat, m: nat, j: nat)
    requires m <= n && i + n <= |s| && i + m <= j <= |s| && Matches(rest, s[i + m..j])
    ensures TryStar(k, rest, s, i, n).Some?
    decreases |rest| + 1, n
  {
    if MatchFrom(rest, s, i + n).None? {
      if n == m {
        MatchFromComplete(rest, s, i + m, j);
      } else {
        TryStarComplete(k, rest, s, i, n - 1, m, j);
      }
    }
  }

  // ---------------------------------------------------------------------------
  // re.search

  /** `(?<=c)` in front of the pattern, or no lookbehind. */
  predicate LookbehindHolds(lookbehind: Option<char>, s: string, i: nat) {
    lookbehind.None? || (0 < i <= |s| && s[i - 1] == lookbehind.value)
  }

  /** `s[i..j]` is a match that the search may return. */
  ghost predicate MatchesAt(p: Pattern, lookbehind: Option<char>, s: string, i: nat, j: nat) {
    i <= j <= |s| && LookbehindHolds(lookbehind, s, i) && Matches(p, s[i..j])
  }

  function SearchFrom(p: Pattern, lookbehind: Option<char>, s: string, i: nat): (r: Option<(nat, nat)>)
    requires i <= |s|
    ensures r.Some? ==> i <= r.value.0 <= r.value.1 <= |s|
    decreases |s| - i
  {
    if LookbehindHolds(lookbehind, s, i) && MatchFrom(p, s, i).Some? then Some((i, MatchFrom(p, s, i).value))
    else if i == |s| then None
    else SearchFrom(p, lookbehind, s, i + 1)
  }

  /** `re.search(pattern, s)`: the span of the match, or None. */
  function Search(p: Pattern, lookbehind: Option<char>, s: string): (r: Option<(nat, nat)>)
    ensures r.Some? ==> r.value.0 <= r.value.1 <= |s|
  {
    SearchFrom(p, lookbehind, s, 0)
  }

  lemma {:induction false} SearchFromLeftmost(p: Pattern, lookbehind: Option<char>, s: string, i: nat)
    requires i <= |s|
    ensures SearchFrom(p, lookbehind, s, i).Some? ==>
      var (a, b) := SearchFrom(p, lookbehind, s, i).value;
      && LookbehindHolds(lookbehind, s, a) && MatchFrom(p, s, a) == Some(b)
      && forall x :: i <= x < a ==> !LookbehindHolds(lookbehind, s, x) || MatchFrom(p, s, x).None?
    ensures SearchFrom(p, lookbehind, s, i).None? ==>
      forall x :: i <= x <= |s| ==> !LookbehindHolds(lookbehind, s, x) || MatchFrom(p, s, x).None?
    decreases |s| - i
  {
    if !(LookbehindHolds(lookbehind, s, i) && MatchFrom(p, s, i).Some?) && i < |s| {
      SearchFromLeftmost(p, lookbehind, s, i + 1);
    }
  }

  /** What a search that succeeds found, without the claim that it is the leftmost. */
  lemma SearchFound(p: Pattern, lookbehind: Option<char>, s: string)
    requires Search(p, lookbehind, s).Some?
    ensures var (a, b) := Search(p, lookbehind, s).value;
      LookbehindHolds(lookbehind, s, a) && MatchFrom(p, s, a) == Some(b)
  {
    SearchSome(p, lookbehind, s);
  }

  /** The search returns the leftmost match, ending where the engine's backtracking ends it;
      no match starts further left. */
  lemma SearchSome(p: Pattern, lookbehind: Option<char>, s: string)
    requires Search(p, lookbehind, s).Some?
    ensures var (a, b) := Search(p, lookbehind, s).value;
      && MatchesAt(p, lookbehind, s, a, b)
      && MatchFrom(p, s, a) == Some(b)
      && forall x: nat, y: nat :: x < a ==> !MatchesAt(p, lookbehind, s, x, y)
  {
    var (a, b) := Search(p, lookbehind, s).value;
    SearchFromLeftmost(p, lookbehind, s, 0);
    MatchFromSound(p, s, a);
    forall x: nat, y: nat | x < a ensures !MatchesAt(p, lookbehind, s, x, y) {
      if MatchesAt(p, lookbehind, s, x, y) {
        MatchFromComplete(p, s, x, y);
      }
    }
  }

  /** The search fails exactly when no substring matches. */
  lemma SearchNone(p: Pattern, lookbehind: Option<char>, s: string)
    ensures Search(p, lookbehind, s).None? <==> forall x: nat, y: nat :: !MatchesAt(p, lookbehind, s, x, y)
  {
    SearchFromLeftmost(p, lookbehind, s, 0);
    if Search(p, lookbehind, s).None? {
      forall x: nat, y: nat ensures !MatchesAt(p, lookbehind, s, x, y) {
        if MatchesAt(p, lookbehind, s, x, y) {
          MatchFromComplete(p, s, x, y);
        }
      }
    } else {
      SearchSome(p, lookbehind, s);
    }
  }

  /** Positions where the lookbehind fails are passed over. */
  lemma {:induction false} SearchSkips(p: Pattern, lookbehind: Option<char>, s: string, i: nat, j: nat)
    requires i <= j <= |s| && forall x :: i <= x < j ==> !LookbehindHolds(lookbehind, s, x)
    ensures SearchFrom(p, lookbehind, s, i) == SearchFrom(p, lookbehind, s, j)
    decreases j - i
  {
    if i < j {
      SearchSkips(p, lookbehind, s, i + 1, j);
    }
  }

  /** When no position from `i` on has both the lookbehind and a match, the search fails. */
  lemma {:induction false} SearchFromNone(p: Pattern, lookbehind: Option<char>, s: string, i: nat)
    requires i <= |s|
    requires forall x :: i <= x <= |s| ==> !LookbehindHolds(lookbehind, s, x) || MatchFrom(p, s, x).None?
    ensures SearchFrom(p, lookbehind, s, i) == None
    decreases |s| - i
  {
    if i < |s| {
      SearchFromNone(p, lookbehind, s, i + 1);
    }
  }

  // ---------------------------------------------------------------------------
  // Greedy patterns

  /** The engine's first choice everywhere: every `k?` takes a character when it can, every
      `k*` its longest run. */
  function Greedy(p: Pattern, s: string, i: nat): (r: Option<nat>)
    requires i <= |s|
    ensures r.Some? ==> i <= r.value <= |s|
    decreases |p|
  {
    if p == [] then Some(i)
    else match p[0]
      case One(k) => if i < |s| && InClass(k, s[i]) then Greedy(p[1..], s, i + 1) else None
      case Opt(k) => if i < |s| && InClass(k, s[i]) then Greedy(p[1..], s, i + 1) else Greedy(p[1..], s, i)
      case Star(k) => Greedy(p[1..], s, i + RunLength(k, s, i))
  }

  /** Backtracking tries the greedy choices first, so when they succeed, that is the match. */
  lemma {:induction false} GreedyFirst(p: Pattern, s: string, i: nat)
    requires i <= |s| && Greedy(p, s, i).Some?
    ensures MatchFrom(p, s, i) == Greedy(p, s, i)
    decreases |p|
  {
    if p != [] {
      match p[0]
      case One(k) => GreedyFirst(p[1..], s, i + 1);
      case Opt(k) =>
        if i < |s| && InClass(k, s[i]) {
          GreedyFirst(p[1..], s, i + 1);
        } else {
          GreedyFirst(p[1..], s, i);
        }
      case Star(k) => GreedyFirst(p[1..], s, i + RunLength(k, s, i));
    }
  }

  /** The greedy choices end on a match. */
  lemma GreedySound(p: Pattern, s: string, i: nat)
    requires i <= |s| && Greedy(p, s, i).Some?
    ensures Matches(p, s[i..Greedy(p, s, i).value])
  {
    GreedyFirst(p, s, i);
    MatchFromSound(p, s, i);
  }

  /** The greedy choices for `p + q` are those for `p`, then those for `q` where `p` ended. */
  lemma {:induction false} GreedyConcat(p: Pattern, q: Pattern, s: string, i: nat)
    requires i <= |s|
    ensures Greedy(p + q, s, i) == match Greedy(p, s, i) case None => None case Some(k) => Greedy(q, s, k)
    decreases |p|
  {
    if p == [] {
      assert p + q == q;
    } else {
      assert (p + q)[0] == p[0] && (p + q)[1..] == p[1..] + q;
      match p[0]
      case One(k) =>
        if i < |s| && InClass(k, s[i]) { GreedyConcat(p[1..], q, s, i + 1); }
      case Opt(k) =>
        if i < |s| && InClass(k, s[i]) { GreedyConcat(p[1..], q, s, i + 1); } else { GreedyConcat(p[1..], q, s, i); }
      case Star(k) => GreedyConcat(p[1..], q, s, i + RunLength(k, s, i));
    }
  }

  /** A leading `k*` takes the whole run of `k` at `i`. */
  lemma GreedyStarHead(k: CharClass, rest: Pattern, s: string, i: nat)
    requires i <= |s|
    ensures Greedy([Star(k)] + rest, s, i) == Greedy(rest, s, i + RunLength(k, s, i))
  {
    var p := [Star(k)] + rest;
    assert p[0] == Star(k) && p[1..] == rest;
  }

  /** No item is required: the pattern matches the empty text. */
  predicate AllOptional(p: Pattern) {
    forall x :: 0 <= x < |p| ==> !p[x].One?
  }

  lemma {:induction false} GreedyAllOptional(p: Pattern, s: string, i: nat)
    requires i <= |s| && AllOptional(p)
    ensures Greedy(p, s, i).Some?
    decreases |p|
  {
    if p != [] {
      assert !p[0].One?;
      assert AllOptional(p[1..]) by {
        forall x | 0 <= x < |p[1..]| ensures !p[1..][x].One? {
          assert p[1..][x] == p[x + 1];
        }
      }
      match p[0]
      case Opt(k) =>
        if i < |s| && InClass(k, s[i]) {
          GreedyAllOptional(p[1..], s, i + 1);
        } else {
          GreedyAllOptional(p[1..], s, i);
        }
      case Star(k) => GreedyAllOptional(p[1..], s, i + RunLength(k, s, i));
    }
  }

  /** Only a pattern without required items matches the empty text. */
  lemma {:induction false} MatchesEmpty(p: Pattern)
    requires Matches(p, [])
    ensures AllOptional(p)
    decreases |p|
  {
    if p != [] {
      match p[0] {
        case Opt(k) => MatchesEmpty(p[1..]);
        case Star(k) =>
          var n: nat :| StarSplit(k, p[1..], [], n);
          MatchesEmpty(p[1..]);
      }
      forall x | 0 <= x < |p| ensures !p[x].One? {
        if x > 0 { assert p[x] == p[1..][x - 1]; }
      }
    }
  }

  /** No character belongs to both classes. */
  predicate Disjoint(a: CharClass, b: CharClass) {
    match a
    case Digit => (match b case Digit => false case Space => true case Literal(c) => !IsDigit(c))
    case Space => (match b case Digit => true case Space => false case Literal(c) => !IsSpace(c))
    case Literal(c) => (match b case Digit => !IsDigit(c) case Space => !IsSpace(c) case Literal(d) => c != d)
  }

  lemma DisjointClasses(a: CharClass, b: CharClass, ch: char)
    requires Disjoint(a, b)
    ensures !(InClass(a, ch) && InClass(b, ch))
  {
  }

  /** No match of `p` can begin with a character of class `k`. */
  predicate HeadsAvoid(k: CharClass, p: Pattern)
    decreases |p|
  {
    p == [] || (Disjoint(k, p[0].k) && (p[0].One? || HeadsAvoid(k, p[1..])))
  }

  lemma {:induction false} HeadsAvoidFirst(k: CharClass, p: Pattern, t: string)
    requires HeadsAvoid(k, p) && Matches(p, t) && |t| > 0
    ensures !InClass(k, t[0])
    decreases |p|
  {
    match p[0]
    case One(d) => DisjointClasses(k, d, t[0]);
    case Opt(d) =>
      DisjointClasses(k, d, t[0]);
      if !(InClass(d, t[0]) && Matches(p[1..], t[1..])) {
        HeadsAvoidFirst(k, p[1..], t);
      }
    case Star(d) =>
      DisjointClasses(k, d, t[0]);
      var n: nat :| StarSplit(d, p[1..], t, n);
      if n == 0 {
        assert t[0..] == t;
        HeadsAvoidFirst(k, p[1..], t);
      } else {
        assert t[..n][0] == t[0];
      }
  }

  /** Each `k?` and `k*` is followed either by nothing required or by items none of whose
      first characters belong to `k`: then giving characters back never helps. */
  predicate Delimited(p: Pattern)
    decreases |p|
  {
    p == [] || (Delimited(p[1..]) && (p[0].One? || AllOptional(p[1..]) || HeadsAvoid(p[0].k, p[1..])))
  }

  /** On a delimited pattern the greedy choices find a match whenever there is one. */
  lemma {:induction false} GreedyComplete(p: Pattern, s: string, i: nat, j: nat)
    requires Delimited(p) && i <= j <= |s| && Matches(p, s[i..j])
    ensures Greedy(p, s, i).Some?
    decreases |p|, 1
  {
    if p != [] {
      match p[0]
      case One(k) =>
        SliceStep(s, i, j);
        GreedyComplete(p[1..], s, i + 1, j);
      case Opt(k) => GreedyCompleteOpt(k, p, s, i, j);
      case Star(k) => GreedyCompleteStar(k, p, s, i, j);
    }
  }

  lemma {:induction false} GreedyCompleteOpt(k: CharClass, p: Pattern, s: string, i: nat, j: nat)
    requires p != [] && p[0] == Opt(k) && Delimited(p) && i <= j <= |s| && Matches(p, s[i..j])
    ensures Greedy(p, s, i).Some?
    decreases |p|, 0
  {
    var t, rest := s[i..j], p[1..];
    if AllOptional(rest) {
      GreedyAllOptional(rest, s, i);
      if i < |s| { GreedyAllOptional(rest, s, i + 1); }
    } else if |t| > 0 && InClass(k, t[0]) && Matches(rest, t[1..]) {
      SliceStep(s, i, j);
      GreedyComplete(rest, s, i + 1, j);
    } else {
      if |t| == 0 { MatchesEmpty(rest); }
      HeadsAvoidFirst(k, rest, t);
      GreedyComplete(rest, s, i, j);
    }
  }

  lemma {:induction false} GreedyCompleteStar(k: CharClass, p: Pattern, s: string, i: nat, j: nat)
    requires p != [] && p[0] == Star(k) && Delimited(p) && i <= j <= |s| && Matches(p, s[i..j])
    ensures Greedy(p, s, i).Some?
    decreases |p|, 0
  {
    var rest := p[1..];
    var m := RunLength(k, s, i);
    if AllOptional(rest) {
      GreedyAllOptional(rest, s, i + m);
    } else {
      var n: nat :| StarSplit(k, rest, s[i..j], n);
      StarTakesRun(k, rest, s, i, j, n);
      GreedyComplete(rest, s, i + m, j);
    }
  }

  /** When no match of `rest` begins with a `k`, a split of `k*` and `rest` gives `k*` the
      whole run of `k` characters. */
  lemma {:induction false} StarTakesRun(k: CharClass, rest: Pattern, s: string, i: nat, j: nat, n: nat)
    requires i <= j <= |s| && StarSplit(k, rest, s[i..j], n) && HeadsAvoid(k, rest) && !AllOptional(rest)
    ensures i + RunLength(k, s, i) <= j && Matches(rest, s[i + RunLength(k, s, i)..j])
  {
    var t, m := s[i..j], RunLength(k, s, i);
    assert t[..n] == s[i..i + n] && t[n..] == s[i + n..j];
    RunLengthLongest(k, s, i, n);
    if n < m {
      assert InClass(k, s[i..i + m][n]);
      if i + n == j { MatchesEmpty(rest); }
      HeadsAvoidFirst(k, rest, s[i + n..j]);
      assert false;
    }
  }

  /** On a delimited pattern the backtracking engine and the greedy choices agree. */
  lemma MatchFromIsGreedy(p: Pattern, s: string, i: nat)
    requires Delimited(p) && i <= |s|
    ensures MatchFrom(p, s, i) == Greedy(p, s, i)
  {
    if Greedy(p, s, i).Some? {
      GreedyFirst(p, s, i);
    } else if MatchFrom(p, s, i).Some? {
      MatchFromSound(p, s, i);
      GreedyComplete(p, s, i, MatchFrom(p, s, i).value);
    }
  }

  /** A match that ends in `k*` — under the greedy choices — cannot be extended by another `k`. */
  lemma {:induction false} GreedyEndsRun(p: Pattern, s: string, i: nat, k: CharClass)
    requires i <= |s| && |p| > 0 && p[|p| - 1] == Star(k) && Greedy(p, s, i).Some?
    ensures var j := Greedy(p, s, i).value; j == |s| || !InClass(k, s[j])
    decreases |p|
  {
    if |p| > 1 {
      var rest := p[1..];
      assert rest[|rest| - 1] == Star(k);
      match p[0]
      case One(d) => GreedyEndsRun(rest, s, i + 1, k);
      case Opt(d) =>
        if i < |s| && InClass(d, s[i]) {
          GreedyEndsRun(rest, s, i + 1, k);
        } else {
          GreedyEndsRun(rest, s, i, k);
        }
      case Star(d) => GreedyEndsRun(rest, s, i + RunLength(d, s, i), k);
    }
  }

  // ---------------------------------------------------------------------------
  // What a match contains

  /** One more `k` character in front of a match of `k* …` is still a match. */
  lemma PrependStar(p: Pattern, t: string, k: CharClass, ch: char)
    requires |p| > 0 && p[0] == Star(k) && InClass(k, ch) && Matches(p, t)
    ensures Matches(p, [ch] + t)
  {
    var n: nat :| StarSplit(k, p[1..], t, n);
    var t' := [ch] + t;
    assert t'[..n + 1] == [ch] + t[..n] && t'[n + 1..] == t[n..];
    assert StarSplit(k, p[1..], t', n + 1);
  }

  /** Every item's class is disjoint from `k`. */
  predicate ClassesAvoid(k: CharClass, p: Pattern) {
    forall x :: 0 <= x < |p| ==> Disjoint(k, p[x].k)
  }

  /** A match of a pattern whose classes all avoid `k` contains no `k` character. */
  lemma {:induction false} MatchAvoids(k: CharClass, p: Pattern, t: string)
    requires ClassesAvoid(k, p) && Matches(p, t)
    ensures forall x :: 0 <= x < |t| ==> !InClass(k, t[x])
    decreases |p|
  {
    if p != [] {
      var rest := p[1..];
      assert ClassesAvoid(k, rest) by {
        forall x | 0 <= x < |rest| ensures Disjoint(k, rest[x].k) { assert rest[x] == p[x + 1]; }
      }
      match p[0] {
        case One(d) =>
          MatchAvoids(k, rest, t[1..]);
          DisjointClasses(k, d, t[0]);
          forall x | 0 <= x < |t| ensures !InClass(k, t[x]) { if x > 0 { assert t[x] == t[1..][x - 1]; } }
        case Opt(d) =>
          if |t| > 0 && InClass(d, t[0]) && Matches(rest, t[1..]) {
            MatchAvoids(k, rest, t[1..]);
            DisjointClasses(k, d, t[0]);
            forall x | 0 <= x < |t| ensures !InClass(k, t[x]) { if x > 0 { assert t[x] == t[1..][x - 1]; } }
          } else {
            MatchAvoids(k, rest, t);
          }
        case Star(d) =>
          var n: nat :| StarSplit(d, rest, t, n);
          MatchAvoids(k, rest, t[n..]);
          forall x | 0 <= x < |t| ensures !InClass(k, t[x]) {
            if x < n {
              assert t[x] == t[..n][x];
              DisjointClasses(k, d, t[x]);
            } else {
              assert t[x] == t[n..][x - n];
            }
          }
      }
    }
  }

  function CountOf(t: string, c: char): nat {
    if t == [] then 0 else (if t[0] == c then 1 else 0) + CountOf(t[1..], c)
  }

  /** The number of required items `c` in the pattern. */
  function RequiredCount(p: Pattern, c: char): nat {
    if p == [] then 0 else (if p[0] == One(Literal(c)) then 1 else 0) + RequiredCount(p[1..], c)
  }

  lemma {:induction false} RequiredCountConcat(p: Pattern, q: Pattern, c: char)
    ensures RequiredCount(p + q, c) == RequiredCount(p, c) + RequiredCount(q, c)
  {
    if p == [] {
      assert p + q == q;
    } else {
      assert (p + q)[0] == p[0] && (p + q)[1..] == p[1..] + q;
      RequiredCountConcat(p[1..], q, c);
    }
  }

  /** `c` appears in the pattern only as required items, and no other class contains it. */
  predicate OnlyRequired(p: Pattern, c: char) {
    forall x :: 0 <= x < |p| ==> p[x] == One(Literal(c)) || !InClass(p[x].k, c)
  }

  lemma CountOfAllIn(k: CharClass, t: string, c: char)
    requires AllIn(k, t) && !InClass(k, c)
    ensures CountOf(t, c) == 0
  {
    if t != [] {
      assert AllIn(k, t[1..]) by {
        forall x | 0 <= x < |t[1..]| ensures InClass(k, t[1..][x]) { assert t[1..][x] == t[x + 1]; }
      }
      CountOfAllIn(k, t[1..], c);
    }
  }

  lemma {:induction false} CountOfConcat(a: string, b: string, c: char)
    ensures CountOf(a + b, c) == CountOf(a, c) + CountOf(b, c)
  {
    if a != [] {
      assert (a + b)[1..] == a[1..] + b;
      CountOfConcat(a[1..], b, c);
    } else {
      assert a + b == b;
    }
  }

  /** In any match, `c` occurs exactly as often as the pattern requires it. */
  lemma {:induction false} MatchCount(p: Pattern, t: string, c: char)
    requires OnlyRequired(p, c) && Matches(p, t)
    ensures CountOf(t, c) == RequiredCount(p, c)
    decreases |p|
  {
    if p != [] {
      var rest := p[1..];
      assert OnlyRequired(rest, c) by {
        forall x | 0 <= x < |rest| ensures rest[x] == One(Literal(c)) || !InClass(rest[x].k, c) { assert rest[x] == p[x + 1]; }
      }
      assert p[0] == One(Literal(c)) || !InClass(p[0].k, c);
      match p[0] {
        case One(d) =>
          MatchCount(rest, t[1..], c);
        case Opt(d) =>
          if |t| > 0 && InClass(d, t[0]) && Matches(rest, t[1..]) {
            MatchCount(rest, t[1..], c);
          } else {
            MatchCount(rest, t, c);
          }
        case Star(d) =>
          var n: nat :| StarSplit(d, rest, t, n);
          MatchCount(rest, t[n..], c);
          CountOfAllIn(d, t[..n], c);
          assert t == t[..n] + t[n..];
          CountOfConcat(t[..n], t[n..], c);
      }
    }
  }

  /** `q` accepts whatever `p` accepts: some required items of `p` are optional in `q`. */
  predicate Relaxes(p: Pattern, q: Pattern) {
    |p| == |q| && forall x :: 0 <= x < |p| ==> q[x] == p[x] || (p[x].One? && q[x] == Opt(p[x].k))
  }

  lemma {:induction false} RelaxedMatches(p: Pattern, q: Pattern, t: string)
    requires Relaxes(p, q) && Matches(p, t)
    ensures Matches(q, t)
    decreases |p|
  {
    if p != [] {
      assert Relaxes(p[1..], q[1..]) by {
        forall x | 0 <= x < |p[1..]| ensures q[1..][x] == p[1..][x] || (p[1..][x].One? && q[1..][x] == Opt(p[1..][x].k)) {
          assert p[1..][x] == p[x + 1] && q[1..][x] == q[x + 1];
        }
      }
      match p[0] {
        case One(k) => RelaxedMatches(p[1..], q[1..], t[1..]);
        case Opt(k) =>
          if |t| > 0 && InClass(k, t[0]) && Matches(p[1..], t[1..]) {
            RelaxedMatches(p[1..], q[1..], t[1..]);
          } else {
            RelaxedMatches(p[1..], q[1..], t);
          }
        case Star(k) =>
          var n: nat :| StarSplit(k, p[1..], t, n);
          RelaxedMatches(p[1..], q[1..], t[n..]);
          assert StarSplit(k, q[1..], t, n);
      }
    }
  }

  /** `t` splits after `n` characters into a match of `p` and a match of `q`. */
  ghost predicate SplitMatch(p: Pattern, q: Pattern, t: string, n: nat) {
    n <= |t| && Matches(p, t[..n]) && Matches(q, t[n..])
  }

  /** A match of `p + q` is a match of `p` followed by a match of `q`. */
  lemma {:induction false} MatchesConcat(p: Pattern, q: Pattern, t: string)
    requires Matches(p + q, t)
    ensures exists n: nat :: SplitMatch(p, q, t, n)
    decreases |p|
  {
    if p == [] {
      assert p + q == q && t[..0] == [] && t[0..] == t;
      assert SplitMatch(p, q, t, 0);
    } else {
      var pq := p + q;
      assert pq[1..] == p[1..] + q;
      match p[0] {
        case One(k) =>
          MatchesConcat(p[1..], q, t[1..]);
          var n: nat :| SplitMatch(p[1..], q, t[1..], n);
          assert t[..n + 1][1..] == t[1..][..n] && t[n + 1..] == t[1..][n..];
          assert SplitMatch(p, q, t, n + 1);
        case Opt(k) =>
          if |t| > 0 && InClass(k, t[0]) && Matches(pq[1..], t[1..]) {
            MatchesConcat(p[1..], q, t[1..]);
            var n: nat :| SplitMatch(p[1..], q, t[1..], n);
            assert t[..n + 1][1..] == t[1..][..n] && t[n + 1..] == t[1..][n..];
            assert SplitMatch(p, q, t, n + 1);
          } else {
            MatchesConcat(p[1..], q, t);
            var n: nat :| SplitMatch(p[1..], q, t, n);
            assert SplitMatch(p, q, t, n);
          }
        case Star(k) =>
          var m: nat :| StarSplit(k, pq[1..], t, m);
          MatchesConcat(p[1..], q, t[m..]);
          var n: nat :| SplitMatch(p[1..], q, t[m..], n);
          assert t[..m + n][..m] == t[..m] && t[..m + n][m..] == t[m..][..n] && t[m + n..] == t[m..][n..];
          assert StarSplit(k, p[1..], t[..m + n], m);
          assert SplitMatch(p, q, t, m + n);
      }
    }
  }
}
