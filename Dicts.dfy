/**
 * Python's `dict`: a finite map that also remembers the order in which its keys
 * were first inserted. Assigning to an existing key replaces its value and keeps
 * its position; iteration (`items()`) follows that order; a dict comprehension
 * assigns its items one after another, so a repeated key keeps its first position
 * and its last value.
 */
module Dicts {

  datatype Dict<K(==, !new), V> = Dict(order: seq<K>, entries: map<K, V>)

  /** The keys are listed once each, and exactly the keys of the map are listed. */
  ghost predicate Wf<K(!new), V>(d: Dict<K, V>) {
    && (forall i, j :: 0 <= i < j < |d.order| ==> d.order[i] != d.order[j])
    && (forall k :: k in d.entries <==> k in d.order)
  }

  /** `dict()` */
  function Empty<K(==, !new), V>(): (d: Dict<K, V>)
    ensures Wf(d) && d.entries == map[]
  {
    Dict([], map[])
  }

  /** `d[k]` with the miss-free default of `dict.get(k, 0)`-style lookups left to the caller. */
  function Get<K(==, !new), V>(d: Dict<K, V>, k: K): V
    requires k in d.entries
  {
    d.entries[k]
  }

  /** `d[k] = v` */
  function Put<K(==, !new), V>(d: Dict<K, V>, k: K, v: V): (r: Dict<K, V>)
    ensures Wf(d) ==> Wf(r)
    ensures r.entries == d.entries[k := v]
    ensures Wf(d) && k in d.entries ==> r.order == d.order
    ensures k !in d.entries ==> r.order == d.order + [k]
  {
    if k in d.entries then Dict(d.order, d.entries[k := v])
    else Dict(d.order + [k], d.entries[k := v])
  }

  /** `list(d.items())` */
  function Items<K(==, !new), V>(d: Dict<K, V>): (xs: seq<(K, V)>)
    requires Wf(d)
    ensures |xs| == |d.order|
    ensures forall i :: 0 <= i < |xs| ==> xs[i].0 == d.order[i] && xs[i].1 == d.entries[d.order[i]]
  {
    seq(|d.order|, i requires 0 <= i < |d.order| => (d.order[i], d.entries[d.order[i]]))
  }

  /** `{k: v for k, v in xs}`: the items assigned one after another. */
  function FromItems<K(==, !new), V>(xs: seq<(K, V)>): (d: Dict<K, V>)
    ensures Wf(d)
  {
    if xs == [] then Empty()
    else
      var last := xs[|xs| - 1];
      Put(FromItems(xs[..|xs| - 1]), last.0, last.1)
  }

  ghost predicate DistinctKeys<K, V>(xs: seq<(K, V)>) {
    forall i, j :: 0 <= i < j < |xs| ==> xs[i].0 != xs[j].0
  }

  /** Building a dict from items whose keys are distinct loses nothing: iterating it gives the items back. */
  lemma {:induction false} ItemsOfFromItems<K(!new), V>(xs: seq<(K, V)>)
    requires DistinctKeys(xs)
    ensures Items(FromItems(xs)) == xs
  {
    if xs != [] {
      var ys, x := xs[..|xs| - 1], xs[|xs| - 1];
      ItemsOfFromItems(ys);
      var d := FromItems(ys);
      assert x.0 !in d.entries by {
        forall i | 0 <= i < |d.order| ensures d.order[i] != x.0 {
          assert Items(d)[i].0 == ys[i].0 == xs[i].0;
        }
      }
      var r := FromItems(xs);
      assert r == Put(d, x.0, x.1);
      assert r.order == d.order + [x.0];
      forall i | 0 <= i < |xs|
        ensures Items(r)[i] == xs[i]
      {
        if i < |ys| {
          assert d.order[i] == ys[i].0 != x.0;
        }
      }
    }
  }

  /** Rebuilding a dict from its own items gives the same dict, order included. */
  lemma FromItemsOfItems<K(!new), V>(d: Dict<K, V>)
    requires Wf(d)
    ensures FromItems(Items(d)) == d
  {
    var xs := Items(d);
    assert DistinctKeys(xs) by {
      forall i, j | 0 <= i < j < |xs| ensures xs[i].0 != xs[j].0 {
        assert xs[i].0 == d.order[i] && xs[j].0 == d.order[j];
      }
    }
    ItemsOfFromItems(xs);
    var r := FromItems(xs);
    assert r.order == d.order by {
      assert |Items(r)| == |r.order|;
      forall i | 0 <= i < |d.order| ensures r.order[i] == d.order[i] {
        assert Items(r)[i].0 == xs[i].0;
      }
    }
    forall k | k in d.entries ensures k in r.entries && r.entries[k] == d.entries[k] {
      var i :| 0 <= i < |d.order| && d.order[i] == k;
      assert Items(r)[i] == xs[i];
    }
    assert r.entries == d.entries;
  }

  /** Each key of the items is in the dict, holding the value of its last item. */
  lemma {:induction false} FromItemsLastValue<K(!new), V>(xs: seq<(K, V)>, i: int)
    requires 0 <= i < |xs|
    ensures xs[i].0 in FromItems(xs).entries
    ensures (forall j :: i < j < |xs| ==> xs[j].0 != xs[i].0) ==> FromItems(xs).entries[xs[i].0] == xs[i].1
  {
    var n := |xs| - 1;
    var init := xs[..n];
    if i < n {
      assert init[i] == xs[i];
      FromItemsLastValue(init, i);
      if forall j :: i < j < |xs| ==> xs[j].0 != xs[i].0 {
        assert xs[n].0 != xs[i].0;
        assert forall j :: i < j < |init| ==> init[j].0 != init[i].0 by {
          forall j | i < j < |init| ensures init[j].0 != init[i].0 {
            assert init[j] == xs[j];
          }
        }
      }
    }
  }

  /** `len(d)`: a well-formed dict has as many entries as it lists keys. */
  lemma LenOfWf<K(!new), V>(d: Dict<K, V>)
    requires Wf(d)
    ensures |d.entries| == |d.order|
  {
    assert d.entries.Keys == set x | x in d.order;
    DistinctCard(d.order);
  }

  lemma {:induction false} DistinctCard<K>(s: seq<K>)
    requires forall i, j :: 0 <= i < j < |s| ==> s[i] != s[j]
    ensures |set x | x in s| == |s|
  {
    if s != [] {
      var n := |s| - 1;
      DistinctCard(s[..n]);
      assert (set x | x in s) == (set x | x in s[..n]) + {s[n]};
      assert s[n] !in s[..n];
    }
  }
}
