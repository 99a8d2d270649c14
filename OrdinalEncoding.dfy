/**
 * The ordinal encoding of request types that `gen_rows` performs in both versions of
 * `read_all_performance_metrics_from_db`: a request type seen for the first time is
 * given the number of types already known, and keeps that code from then on.
 */
module OrdinalEncoding {
  import opened Dicts

  /** The codes are 0, 1, 2, ... in the order in which the types were first seen. */
  ghost predicate Dense(known: Dict<string, nat>) {
    && Wf(known)
    && forall i :: 0 <= i < |known.order| ==> known.order[i] in known.entries && known.entries[known.order[i]] == i
  }

  /** `if request_type not in known_request_types: known_request_types[request_type] =
      len(known_request_types)`, then `known_request_types[request_type]`. */
  function Encode(known: Dict<string, nat>, t: string): (r: (Dict<string, nat>, nat))
    ensures t in r.0.entries && r.0.entries[t] == r.1
  {
    if t in known.entries then (known, known.entries[t])
    else (Put(known, t, |known.entries|), |known.entries|)
  }

  /** A known type keeps its code and leaves the table as it was; a new type is appended
      with the number of types known so far as its code, and no other code changes. */
  lemma EncodeStep(known: Dict<string, nat>, t: string)
    requires Dense(known)
    ensures var (k, c) := Encode(known, t);
      && Dense(k)
      && (t in known.entries ==> k == known && c == IndexOf(known.order, t))
      && (t !in known.entries ==> k.order == known.order + [t] && c == |known.order|)
      && forall x :: x in known.entries ==> x in k.entries && k.entries[x] == known.entries[x]
  {
    LenOfWf(known);
    if t in known.entries {
      var i := IndexOf(known.order, t);
      assert known.entries[known.order[i]] == i;
    }
  }

  /** The codes of `types`, encoded one after another starting from `known`. */
  function EncodeAll(known: Dict<string, nat>, types: seq<string>): (r: (Dict<string, nat>, seq<nat>))
    ensures |r.1| == |types|
  {
    if types == [] then (known, [])
    else
      var (k, codes) := EncodeAll(known, types[..|types| - 1]);
      var (k', c) := Encode(k, types[|types| - 1]);
      (k', codes + [c])
  }

  /** `seen`, then the other elements of `types` in the order of their first occurrence. */
  function Sightings(seen: seq<string>, types: seq<string>): seq<string> {
    if types == [] then seen
    else
      var f := Sightings(seen, types[..|types| - 1]);
      if types[|types| - 1] in f then f else f + [types[|types| - 1]]
  }

  /** The distinct elements of `types` in the order of their first occurrence. */
  function FirstSightings(types: seq<string>): seq<string> {
    Sightings([], types)
  }

  /** The first position of `x` in `s`. */
  function IndexOf(s: seq<string>, x: string): (i: nat)
    requires x in s
    ensures i < |s| && s[i] == x && forall j :: 0 <= j < i ==> s[j] != x
  {
    if s[0] == x then 0 else 1 + IndexOf(s[1..], x)
  }

  lemma IndexOfExtend(s: seq<string>, y: string, x: string)
    requires x in s
    ensures x in s + [y] && IndexOf(s + [y], x) == IndexOf(s, x)
  {
    var i, j := IndexOf(s, x), IndexOf(s + [y], x);
    assert (s + [y])[i] == x;
    assert s[j] == x || j == |s|;
  }

  /** Encoding a sequence of types from a dense table keeps it dense and keeps every earlier
      code; the table then lists the known types followed by the new ones in order of first
      sighting. */
  lemma {:induction false} EncodeAllTable(known: Dict<string, nat>, types: seq<string>)
    requires Dense(known)
    ensures var k := EncodeAll(known, types).0;
      && Dense(k)
      && k.order == Sightings(known.order, types)
      && (forall x :: x in k.entries <==> x in known.entries || x in types)
      && (forall x :: x in known.entries ==> x in k.entries && k.entries[x] == known.entries[x])
  {
    if types != [] {
      var n := |types| - 1;
      var init, t := types[..n], types[n];
      EncodeAllTable(known, init);
      var k0 := EncodeAll(known, init).0;
      EncodeStep(k0, t);
      assert EncodeAll(known, types).0 == Encode(k0, t).0;
      assert t in k0.entries <==> t in k0.order;
      SplitLast(types);
    }
  }

  /** ... and each element's code is the position of its type in that list. */
  lemma {:induction false} EncodeAllCodes(known: Dict<string, nat>, types: seq<string>)
    requires Dense(known)
    ensures var r := EncodeAll(known, types);
      forall i :: 0 <= i < |types| ==> types[i] in r.0.order && r.1[i] == IndexOf(r.0.order, types[i])
  {
    if types != [] {
      var n := |types| - 1;
      var init, t := types[..n], types[n];
      EncodeAllCodes(known, init);
      EncodeAllTable(known, init);
      var r0 := EncodeAll(known, init);
      var e := Encode(r0.0, t);
      assert EncodeAll(known, types) == (e.0, r0.1 + [e.1]);
      SplitLast(types);
      CodesExtend(r0.0, r0.1, init, t);
    }
  }

  lemma SplitLast<T>(s: seq<T>)
    requires s != []
    ensures s == s[..|s| - 1] + [s[|s| - 1]]
  {
  }

  /** Coding one more type keeps every earlier code a position in the table. */
  lemma CodesExtend(k0: Dict<string, nat>, codes: seq<nat>, prefix: seq<string>, t: string)
    requires Dense(k0) && |codes| == |prefix|
    requires forall i :: 0 <= i < |prefix| ==> prefix[i] in k0.order && codes[i] == IndexOf(k0.order, prefix[i])
    ensures var (k, c) := Encode(k0, t);
      forall i :: 0 <= i < |prefix| + 1 ==> (prefix + [t])[i] in k.order && (codes + [c])[i] == IndexOf(k.order, (prefix + [t])[i])
  {
    EncodeStep(k0, t);
    var (k, c) := Encode(k0, t);
    assert t in k0.entries <==> t in k0.order;
    forall i | 0 <= i < |prefix| + 1 ensures (prefix + [t])[i] in k.order && (codes + [c])[i] == IndexOf(k.order, (prefix + [t])[i]) {
      if i < |prefix| {
        assert (prefix + [t])[i] == prefix[i] && (codes + [c])[i] == codes[i];
        if t !in k0.entries {
          IndexOfExtend(k0.order, t, prefix[i]);
        }
      } else if t !in k0.entries {
        assert k.order[|k0.order|] == t;
      }
    }
  }

  /** Each element's code is its type's entry in the table that coding ends with. */
  lemma {:induction false} EncodeAllEntries(known: Dict<string, nat>, types: seq<string>)
    ensures var r := EncodeAll(known, types);
      forall i :: 0 <= i < |types| ==> types[i] in r.0.entries && r.1[i] == r.0.entries[types[i]]
  {
    if types != [] {
      var n := |types| - 1;
      var init, t := types[..n], types[n];
      EncodeAllEntries(known, init);
      var r0 := EncodeAll(known, init);
      var r := EncodeAll(known, types);
      assert r.0 == Encode(r0.0, t).0 && r.1 == r0.1 + [Encode(r0.0, t).1];
      forall i | 0 <= i < n ensures types[i] in r.0.entries && r.1[i] == r.0.entries[types[i]] {
        assert types[i] == init[i];
      }
    }
  }

  /** The code of the element at `i` is what coding it gives after the elements before it. */
  lemma {:induction false} EncodeAllAt(known: Dict<string, nat>, types: seq<string>, i: nat)
    requires i < |types|
    ensures EncodeAll(known, types).1[i] == Encode(EncodeAll(known, types[..i]).0, types[i]).1
  {
    var n := |types| - 1;
    if i < n {
      EncodeAllAt(known, types[..n], i);
      assert types[..n][..i] == types[..i];
      assert types[..n][i] == types[i];
    }
  }

  /** A type neither known nor seen earlier gets as its code the number of types known at
      that point: the known ones, then the new ones in order of first sighting. */
  lemma NewTypeGetsTableSize(known: Dict<string, nat>, types: seq<string>, i: nat)
    requires Dense(known) && i < |types| && types[i] !in known.entries && types[i] !in types[..i]
    ensures EncodeAll(known, types).1[i] == |Sightings(known.order, types[..i])|
  {
    EncodeAllAt(known, types, i);
    EncodeAllTable(known, types[..i]);
    LenOfWf(EncodeAll(known, types[..i]).0);
  }

  /** Distinct types have distinct codes. */
  lemma DenseInjective(known: Dict<string, nat>, x: string, y: string)
    requires Dense(known) && x in known.entries && y in known.entries
    ensures known.entries[x] == known.entries[y] <==> x == y
  {
    var i := IndexOf(known.order, x);
    var j := IndexOf(known.order, y);
    assert known.entries[x] == i && known.entries[y] == j;
  }

  /** The codes are exactly 0, ..., k - 1 for k known types. */
  lemma DenseCodes(known: Dict<string, nat>)
    requires Dense(known)
    ensures forall c: nat :: c in known.entries.Values <==> c < |known.order|
  {
    forall c: nat ensures c in known.entries.Values <==> c < |known.order| {
      if c < |known.order| {
        assert known.entries[known.order[c]] == c;
      }
      if c in known.entries.Values {
        var x :| x in known.entries && known.entries[x] == c;
        var i := IndexOf(known.order, x);
        assert known.entries[known.order[i]] == i;
      }
    }
  }

  /** From an empty table, the code of each element is the position of its type among the
      distinct types in order of first sighting. */
  lemma CodesFromEmpty(types: seq<string>)
    ensures var r := EncodeAll(Empty(), types);
      && r.0.order == FirstSightings(types)
      && forall i :: 0 <= i < |types| ==>
           types[i] in FirstSightings(types) && r.1[i] == IndexOf(FirstSightings(types), types[i]) && r.1[i] < |FirstSightings(types)|
  {
    EncodeAllTable(Empty(), types);
    EncodeAllCodes(Empty(), types);
  }

  /** The sightings start with the first element. */
  lemma {:induction false} FirstSightingsStart(types: seq<string>)
    requires types != []
    ensures |FirstSightings(types)| > 0 && FirstSightings(types)[0] == types[0]
  {
    var n := |types| - 1;
    if n > 0 {
      FirstSightingsStart(types[..n]);
      assert types[..n][0] == types[0];
    } else {
      assert types[..n] == [];
      assert Sightings([], types[..n]) == [];
      assert FirstSightings(types) == [types[0]];
    }
  }

  /** The first element of any sequence is coded 0 when coding starts from an empty map. */
  lemma FirstCodeZero(types: seq<string>)
    requires types != []
    ensures EncodeAll(Empty(), types).1[0] == 0
  {
    CodesFromEmpty(types);
    FirstSightingsStart(types);
  }

  /** GET, POST, GET are coded 0, 1, 0. */
  lemma GetPostGet()
    ensures EncodeAll(Empty(), ["GET", "POST", "GET"]).1 == [0, 1, 0]
  {
    var t := ["GET", "POST", "GET"];
    assert t[..2] == ["GET", "POST"] && t[..2][..1] == ["GET"] && t[..2][..1][..0] == [];
    var e: Dict<string, nat> := Empty();
    var k1 := Put(e, "GET", 0);
    assert ["GET"][..0] == [] && ["GET", "POST"][..1] == ["GET"];
    assert |e.entries| == 0;
    assert EncodeAll(e, []) == (e, []);
    assert Encode(e, "GET") == (k1, 0);
    assert [] + [0] == [0];
    assert EncodeAll(e, ["GET"]) == (k1, [0]);
    var k2 := Put(k1, "POST", 1);
    assert |k1.entries| == 1;
    assert Encode(k1, "POST") == (k2, 1);
    assert [0] + [1] == [0, 1];
    assert EncodeAll(e, ["GET", "POST"]) == (k2, [0, 1]);
    assert Encode(k2, "GET") == (k2, 0);
    assert [0, 1] + [0] == [0, 1, 0];
  }
}
