/**
 * Character classes, zero-padded decimal rendering, Python's `str.strip()` and the
 * code-point order in which Python and SQLite compare strings.
 */
module Text {

  /** `\d` and the `%Y`, `%m`, `%d` digits, restricted to ASCII. */
  predicate IsDigit(c: char) {
    '0' <= c <= '9'
  }

  /** Python's `str.isspace()`: the characters `\s` matches and `strip()` removes. */
  predicate IsSpace(c: char) {
    var n := c as int;
    || 0x09 <= n <= 0x0D || 0x1C <= n <= 0x20 || n == 0x85 || n == 0xA0 || n == 0x1680
    || 0x2000 <= n <= 0x200A || n == 0x2028 || n == 0x2029 || n == 0x202F || n == 0x205F || n == 0x3000
  }

  predicate AllDigits(s: string) {
    forall i :: 0 <= i < |s| ==> IsDigit(s[i])
  }

  predicate AllSpace(s: string) {
    forall i :: 0 <= i < |s| ==> IsSpace(s[i])
  }

  function Pow10(n: nat): (p: nat)
    ensures p >= 1
  {
    if n == 0 then 1 else 10 * Pow10(n - 1)
  }

  function DigitChar(n: nat): (c: char)
    requires n < 10
    ensures IsDigit(c)
  {
    ('0' as int + n) as char
  }

  /** The digits `DigitChar` writes. */
  lemma DigitCharValues()
    ensures DigitChar(0) == '0' && DigitChar(1) == '1' && DigitChar(2) == '2' && DigitChar(3) == '3'
    ensures DigitChar(4) == '4' && DigitChar(5) == '5' && DigitChar(6) == '6' && DigitChar(7) == '7'
    ensures DigitChar(8) == '8' && DigitChar(9) == '9'
  {
  }

  function DigitOf(c: char): (n: nat)
    requires IsDigit(c)
    ensures n < 10 && DigitChar(n) == c
  {
    c as int - '0' as int
  }

  /** The value of a run of decimal digits, as `int(s)` reads it. */
  function DigitsValue(s: string): (n: nat)
    requires AllDigits(s)
    ensures n < Pow10(|s|)
  {
    if s == [] then 0 else DigitsValue(s[..|s| - 1]) * 10 + DigitOf(s[|s| - 1])
  }

  /** `n` in exactly `width` decimal digits, padded on the left with '0' (as `%02d`, `%04d`). */
  function ZeroPadded(n: nat, width: nat): (s: string)
    ensures |s| == width && AllDigits(s)
  {
    if width == 0 then [] else ZeroPadded(n / 10, width - 1) + [DigitChar(n % 10)]
  }

  /** Reading back a zero-padded rendering gives the number, when it fits in the width. */
  lemma {:induction false} ZeroPaddedValue(n: nat, width: nat)
    requires n < Pow10(width)
    ensures DigitsValue(ZeroPadded(n, width)) == n
  {
    if width > 0 {
      var s := ZeroPadded(n, width);
      assert s[..|s| - 1] == ZeroPadded(n / 10, width - 1);
      ZeroPaddedValue(n / 10, width - 1);
    }
  }

  /** Two renderings in the same width are equal only for equal numbers. */
  lemma ZeroPaddedInjective(a: nat, b: nat, width: nat)
    requires a < Pow10(width) && b < Pow10(width)
    requires ZeroPadded(a, width) == ZeroPadded(b, width)
    ensures a == b
  {
    ZeroPaddedValue(a, width);
    ZeroPaddedValue(b, width);
  }

  lemma ShiftDigit(d: nat, p: nat, u: nat, l: nat)
    ensures (d * p + u) * 10 + l == d * (10 * p) + (u * 10 + l)
  {
  }

  /** The leading digit carries the weight of the remaining width. */
  lemma {:induction false} DigitsValueFront(s: string)
    requires AllDigits(s) && |s| > 0
    ensures DigitsValue(s) == DigitOf(s[0]) * Pow10(|s| - 1) + DigitsValue(s[1..])
  {
    if |s| > 1 {
      var init := s[..|s| - 1];
      DigitsValueFront(init);
      assert init[1..] == s[1..][..|s[1..]| - 1];
      assert DigitsValue(s[1..]) == DigitsValue(init[1..]) * 10 + DigitOf(s[|s| - 1]);
      ShiftDigit(DigitOf(s[0]), Pow10(|s| - 2), DigitsValue(init[1..]), DigitOf(s[|s| - 1]));
    }
  }

  /** A smaller leading digit outweighs whatever follows it. */
  lemma PlaceValueOrder(d1: nat, d2: nat, p: nat, x: nat, y: nat)
    requires d1 < d2 && x < p && y < p
    ensures d1 * p + x < d2 * p + y
  {
    assert (d1 + 1) * p <= d2 * p;
  }

  /** `str.lstrip()` */
  function StripLeading(s: string): (r: string)
    ensures |r| <= |s| && r == s[|s| - |r|..]
    ensures AllSpace(s[..|s| - |r|])
    ensures r == [] || !IsSpace(r[0])
  {
    if |s| > 0 && IsSpace(s[0]) then
      var r := StripLeading(s[1..]);
      assert s[1..][..|s[1..]| - |r|] == s[1..|s| - |r|];
      r
    else s
  }

  /** `str.rstrip()` */
  function StripTrailing(s: string): (r: string)
    ensures |r| <= |s| && r == s[..|r|]
    ensures AllSpace(s[|r|..])
    ensures r == [] || !IsSpace(r[|r| - 1])
  {
    if |s| > 0 && IsSpace(s[|s| - 1]) then
      var r := StripTrailing(s[..|s| - 1]);
      assert s[..|s| - 1][|r|..] + [s[|s| - 1]] == s[|r|..];
      r
    else s
  }

  /** `str.strip()`: the longest piece of `s` that neither starts nor ends with whitespace,
      with only whitespace cut away on either side. */
  function Strip(s: string): (r: string)
    ensures |r| <= |s|
    ensures r == [] || (!IsSpace(r[0]) && !IsSpace(r[|r| - 1]))
  {
    var t := StripLeading(s);
    var r := StripTrailing(t);
    assert r != [] ==> r[0] == t[0];
    r
  }

  /** ... and what it cuts away on either side is whitespace: it is the piece of `s` that
      starts after the leading whitespace, and every character before or after it is
      whitespace. */
  lemma StripSpan(s: string)
    ensures var r, a := Strip(s), |s| - |StripLeading(s)|;
      && 0 <= a <= |s| - |r|
      && (forall i :: 0 <= i < |r| ==> r[i] == s[a + i])
      && (forall i :: 0 <= i < a ==> IsSpace(s[i]))
      && (forall i :: a + |r| <= i < |s| ==> IsSpace(s[i]))
  {
    var t := StripLeading(s);
    StripCuts(s, t, Strip(s), |s| - |t|);
  }

  /** Where `Strip` cuts: the leading whitespace goes first, then the trailing. */
  lemma StripCuts(s: string, t: string, r: string, a: nat)
    requires |t| <= |s| && a == |s| - |t| && t == s[a..] && AllSpace(s[..a])
    requires |r| <= |t| && r == t[..|r|] && AllSpace(t[|r|..])
    ensures forall i :: 0 <= i < |r| ==> r[i] == s[a + i]
    ensures forall i :: 0 <= i < a ==> IsSpace(s[i])
    ensures forall i :: a + |r| <= i < |s| ==> IsSpace(s[i])
  {
    forall i | 0 <= i < a ensures IsSpace(s[i]) {
      assert s[..a][i] == s[i];
    }
    forall i | a + |r| <= i < |s| ensures IsSpace(s[i]) {
      assert t[|r|..][i - a - |r|] == s[i];
    }
  }

  /** A text without whitespace is its own strip. */
  lemma StripNoSpace(s: string)
    requires forall i :: 0 <= i < |s| ==> !IsSpace(s[i])
    ensures Strip(s) == s
  {
    assert StripLeading(s) == s;
  }

  /** Stripping a text that is whitespace followed by a piece with non-space ends leaves the piece. */
  lemma StripAround(a: string, b: string)
    requires AllSpace(a) && |b| > 0 && !IsSpace(b[0]) && !IsSpace(b[|b| - 1])
    ensures Strip(a + b) == b
  {
    var s := a + b;
    assert s[|a|] == b[0];
    var r := StripLeading(s);
    assert r == b;
    assert StripTrailing(b) == b;
  }

  /** `a <= b` on Python strings and SQLite text under the BINARY collation: code-point order. */
  predicate LexLe(a: string, b: string) {
    if a == [] then true
    else if b == [] then false
    else if a[0] != b[0] then a[0] < b[0]
    else LexLe(a[1..], b[1..])
  }

  lemma {:induction false} LexLeReflexive(a: string)
    ensures LexLe(a, a)
  {
    if a != [] { LexLeReflexive(a[1..]); }
  }

  lemma {:induction false} LexLeAntisymmetric(a: string, b: string)
    requires LexLe(a, b) && LexLe(b, a)
    ensures a == b
  {
    if a != [] && b != [] {
      LexLeAntisymmetric(a[1..], b[1..]);
      assert a == [a[0]] + a[1..] && b == [b[0]] + b[1..];
    }
  }

  lemma {:induction false} LexLeTransitive(a: string, b: string, c: string)
    requires LexLe(a, b) && LexLe(b, c)
    ensures LexLe(a, c)
  {
    if a != [] && b != [] && c != [] && a[0] == b[0] == c[0] {
      LexLeTransitive(a[1..], b[1..], c[1..]);
    }
  }

  lemma {:induction false} LexLeTotal(a: string, b: string)
    ensures LexLe(a, b) || LexLe(b, a)
  {
    if a != [] && b != [] && a[0] == b[0] {
      LexLeTotal(a[1..], b[1..]);
    }
  }

  /** Comparing two texts that start with pieces of the same length: the first pieces decide,
      unless they are equal. */
  lemma {:induction false} LexLeConcat(p: string, q: string, p': string, q': string)
    requires |p| == |p'|
    ensures LexLe(p + q, p' + q') <==> (p != p' && LexLe(p, p')) || (p == p' && LexLe(q, q'))
  {
    if p != [] {
      assert (p + q)[1..] == p[1..] + q;
      assert (p' + q')[1..] == p'[1..] + q';
      LexLeConcat(p[1..], q, p'[1..], q');
      if p[0] == p'[0] {
        assert p == p' <==> p[1..] == p'[1..] by {
          assert p == [p[0]] + p[1..] && p' == [p'[0]] + p'[1..];
        }
      }
    } else {
      assert p + q == q && p' + q' == q';
    }
  }

  /** On digit strings of one length, code-point order is numeric order. */
  lemma {:induction false} LexLeDigits(a: string, b: string)
    requires |a| == |b| && AllDigits(a) && AllDigits(b)
    ensures LexLe(a, b) <==> DigitsValue(a) <= DigitsValue(b)
  {
    if a != [] {
      DigitsValueFront(a);
      DigitsValueFront(b);
      var p := Pow10(|a| - 1);
      var x, y := DigitsValue(a[1..]), DigitsValue(b[1..]);
      assert x < p && y < p;
      if a[0] < b[0] {
        PlaceValueOrder(DigitOf(a[0]), DigitOf(b[0]), p, x, y);
      } else if a[0] > b[0] {
        PlaceValueOrder(DigitOf(b[0]), DigitOf(a[0]), p, y, x);
      } else {
        LexLeDigits(a[1..], b[1..]);
      }
    }
  }

  /** `sub` occurs in `s` starting at position `i`. */
  predicate OccursAt(s: string, sub: string, i: nat) {
    i + |sub| <= |s| && s[i..i + |sub|] == sub
  }

  /** `sub in s`: `sub` occurs in `s` at some position. */
  predicate Contains(s: string, sub: string)
    decreases |s|
  {
    |sub| <= |s| && (s[..|sub|] == sub || Contains(s[1..], sub))
  }

  /** `Contains` holds exactly when the substring occurs at some position. */
  lemma {:induction false} ContainsAt(s: string, sub: string)
    ensures Contains(s, sub) <==> exists i: nat :: OccursAt(s, sub, i)
    decreases |s|
  {
    if |sub| <= |s| && s[..|sub|] != sub {
      ContainsAt(s[1..], sub);
      if exists i: nat :: OccursAt(s, sub, i) {
        var i: nat :| OccursAt(s, sub, i);
        assert i > 0;
        assert OccursAt(s[1..], sub, i - 1);
      }
      if Contains(s[1..], sub) {
        var i: nat :| OccursAt(s[1..], sub, i);
        assert OccursAt(s, sub, i + 1);
      }
    } else if |sub| <= |s| {
      assert OccursAt(s, sub, 0);
    }
  }
}
