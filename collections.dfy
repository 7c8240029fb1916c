/**
 * The part of Laravel's `Collection` the package uses on string-keyed data:
 * a PHP array with string keys is an ordered sequence of (key, value) entries,
 * and `mapWithKeys` assigns each produced entry in turn, so a repeated key
 * keeps its first position and takes the last value (`MapWithKeysKeepsFirstPosition`,
 * `MapWithKeysTakesLastValue`).
 */
module Collections {

  /** A PHP array with string keys, in insertion order. */
  type OrderedMap<V> = seq<(string, V)>

  /** `->keys()`: the keys in order. */
  function KeysOf<V>(m: OrderedMap<V>): seq<string> {
    seq(|m|, i requires 0 <= i < |m| => m[i].0)
  }

  /** `->values()`: the values in order. */
  function ValuesOf<V>(m: OrderedMap<V>): seq<V> {
    seq(|m|, i requires 0 <= i < |m| => m[i].1)
  }

  /** Pairs up two sequences of equal length. */
  function Zip<V>(ks: seq<string>, vs: seq<V>): OrderedMap<V>
    requires |ks| == |vs|
  {
    seq(|ks|, i requires 0 <= i < |ks| => (ks[i], vs[i]))
  }

  predicate Distinct(s: seq<string>) {
    forall i, j :: 0 <= i < j < |s| ==> s[i] != s[j]
  }

  /** Position of the first occurrence of `x` in `s`. */
  function IndexOf(s: seq<string>, x: string): (r: nat)
    requires x in s
    ensures r < |s| && s[r] == x
    ensures forall i :: 0 <= i < r ==> s[i] != x
  {
    if s[0] == x then 0 else 1 + IndexOf(s[1..], x)
  }

  /** Position of the last occurrence of `x` in `s`. */
  function LastIndexOf(s: seq<string>, x: string): (r: nat)
    requires x in s
    ensures r < |s| && s[r] == x
    ensures forall i :: r < i < |s| ==> s[i] != x
    decreases |s|
  {
    if s[|s| - 1] == x then |s| - 1
    else
      assert x in s[..|s| - 1] by {
        var i :| 0 <= i < |s| && s[i] == x;
        assert s[..|s| - 1][i] == x;
      }
      LastIndexOf(s[..|s| - 1], x)
  }

  /** `$array[$k] = $v`: overwrites in place when the key is present, appends otherwise. */
  function Put<V>(m: OrderedMap<V>, k: string, v: V): (r: OrderedMap<V>)
    ensures forall x :: x in KeysOf(r) <==> x in KeysOf(m) || x == k
    ensures k in KeysOf(m) ==> KeysOf(r) == KeysOf(m)
    ensures k in KeysOf(m) ==> (|r| == |m| &&
      forall i :: 0 <= i < |m| ==> r[i] == (if i == IndexOf(KeysOf(m), k) then (k, v) else m[i]))
    ensures k !in KeysOf(m) ==> r == m + [(k, v)]
    ensures Distinct(KeysOf(m)) ==> Distinct(KeysOf(r))
  {
    var ks := KeysOf(m);
    if k in ks then
      var i := IndexOf(ks, k);
      var r := m[i := (k, v)];
      assert KeysOf(r) == ks;
      r
    else
      var r := m + [(k, v)];
      assert KeysOf(r) == ks + [k];
      r
  }

  /** `mapWithKeys`: assigns the produced entries one after another. */
  function MapWithKeys<V>(entries: OrderedMap<V>): OrderedMap<V>
    decreases |entries|
  {
    if entries == [] then []
    else
      var last := entries[|entries| - 1];
      Put(MapWithKeys(entries[..|entries| - 1]), last.0, last.1)
  }

  /** The result of `mapWithKeys` has each key once, and exactly the keys produced. */
  lemma {:induction false} MapWithKeysKeys<V>(entries: OrderedMap<V>)
    ensures Distinct(KeysOf(MapWithKeys(entries)))
    ensures forall k :: k in KeysOf(MapWithKeys(entries)) <==> k in KeysOf(entries)
    decreases |entries|
  {
    if entries != [] {
      var init := entries[..|entries| - 1];
      MapWithKeysKeys(init);
      assert KeysOf(entries) == KeysOf(init) + [entries[|entries| - 1].0];
    }
  }

  /** When the produced keys are all different, `mapWithKeys` keeps every entry in order. */
  lemma {:induction false} MapWithKeysOfDistinct<V>(entries: OrderedMap<V>)
    requires Distinct(KeysOf(entries))
    ensures MapWithKeys(entries) == entries
    decreases |entries|
  {
    if entries != [] {
      var init := entries[..|entries| - 1];
      var last := entries[|entries| - 1];
      var ks := KeysOf(entries);
      assert ks == KeysOf(init) + [last.0];
      assert Distinct(KeysOf(init)) by {
        forall i, j | 0 <= i < j < |init|
          ensures KeysOf(init)[i] != KeysOf(init)[j]
        {
          assert KeysOf(init)[i] == ks[i] && KeysOf(init)[j] == ks[j];
        }
      }
      MapWithKeysOfDistinct(init);
      assert last.0 !in KeysOf(init) by {
        forall i | 0 <= i < |init|
          ensures KeysOf(init)[i] != last.0
        {
          assert KeysOf(init)[i] == ks[i] && ks[|ks| - 1] == last.0;
          assert ks[i] != ks[|ks| - 1];
        }
      }
      assert entries == init + [last];
    }
  }

  /** Zipping `keys()` with `values()` rebuilds the array. */
  lemma ZipKeysValues<V>(m: OrderedMap<V>)
    ensures |KeysOf(m)| == |ValuesOf(m)| == |m|
    ensures Zip(KeysOf(m), ValuesOf(m)) == m
  {
  }

  /** Appending an element leaves the first occurrence of an earlier one where it was. */
  lemma IndexOfSnoc(s: seq<string>, x: string, y: string)
    requires x in s
    ensures x in s + [y] && IndexOf(s + [y], x) == IndexOf(s, x)
  {
    assert (s + [y])[IndexOf(s, x)] == x;
  }

  /** An element appended to a sequence without it first occurs at the end. */
  lemma IndexOfAppended(s: seq<string>, x: string)
    requires x !in s
    ensures x in s + [x] && IndexOf(s + [x], x) == |s|
  {
    assert (s + [x])[|s|] == x;
  }

  /** Appending a different element leaves the last occurrence of `x` where it was. */
  lemma LastIndexOfSnoc(s: seq<string>, x: string, y: string)
    requires x in s && x != y
    ensures x in s + [y] && LastIndexOf(s + [y], x) == LastIndexOf(s, x)
  {
    assert (s + [y])[..|s|] == s;
  }

  /** After `$array[$k] = $v` on distinct keys, the entry of `k` holds `v` and
      every other entry is the one that stood at that position before. */
  lemma PutEntry<V>(m: OrderedMap<V>, k: string, v: V, i: nat)
    requires Distinct(KeysOf(m)) && i < |Put(m, k, v)|
    ensures var r := Put(m, k, v);
      && (r[i].0 == k ==> r[i].1 == v)
      && (r[i].0 != k ==> i < |m| && r[i] == m[i])
  {
    var r := Put(m, k, v);
    if k in KeysOf(m) {
      var idx := IndexOf(KeysOf(m), k);
      if i != idx {
        assert r[i] == m[i];
        assert KeysOf(m)[i] == m[i].0;
      }
    } else if i < |m| {
      assert r[i] == m[i];
      assert KeysOf(m)[i] == m[i].0;
    }
  }

  /** Under `mapWithKeys` each key takes the value of its last entry. */
  lemma {:induction false} MapWithKeysTakesLastValue<V>(entries: OrderedMap<V>)
    ensures forall i :: 0 <= i < |MapWithKeys(entries)| ==>
      MapWithKeys(entries)[i].0 in KeysOf(entries) &&
      MapWithKeys(entries)[i].1 == entries[LastIndexOf(KeysOf(entries), MapWithKeys(entries)[i].0)].1
    decreases |entries|
  {
    var r := MapWithKeys(entries);
    MapWithKeysKeys(entries);
    if entries != [] {
      var init := entries[..|entries| - 1];
      var last := entries[|entries| - 1];
      var r0 := MapWithKeys(init);
      MapWithKeysTakesLastValue(init);
      MapWithKeysKeys(init);
      var ks := KeysOf(entries);
      assert ks == KeysOf(init) + [last.0];
      forall i | 0 <= i < |r|
        ensures r[i].0 in ks && r[i].1 == entries[LastIndexOf(ks, r[i].0)].1
      {
        assert r[i].0 == KeysOf(r)[i];
        PutEntry(r0, last.0, last.1, i);
        if r[i].0 == last.0 {
          assert ks[|ks| - 1] == last.0;
          assert LastIndexOf(ks, last.0) == |entries| - 1;
        } else {
          var key := r[i].0;
          assert r[i] == r0[i];
          assert key in KeysOf(init) && r0[i].1 == init[LastIndexOf(KeysOf(init), key)].1;
          LastIndexOfSnoc(KeysOf(init), key, last.0);
          assert entries[LastIndexOf(KeysOf(init), key)] == init[LastIndexOf(KeysOf(init), key)];
        }
      }
    }
  }

  /** `rk` lists elements of `ks` in the order of their first occurrence in `ks`. */
  predicate InFirstOccurrenceOrder(rk: seq<string>, ks: seq<string>) {
    && (forall p :: 0 <= p < |rk| ==> rk[p] in ks)
    && (forall i, j :: 0 <= i < j < |rk| && rk[i] in ks && rk[j] in ks ==> IndexOf(ks, rk[i]) < IndexOf(ks, rk[j]))
  }

  /** Appending to `ks` keeps the order; when the appended element is new, it may be appended to `rk` too. */
  lemma FirstOccurrenceOrderSnoc(rk: seq<string>, ks: seq<string>, y: string)
    requires InFirstOccurrenceOrder(rk, ks)
    ensures InFirstOccurrenceOrder(rk, ks + [y])
    ensures y !in ks ==> InFirstOccurrenceOrder(rk + [y], ks + [y])
  {
    var ks' := ks + [y];
    forall p | 0 <= p < |rk|
      ensures rk[p] in ks' && IndexOf(ks', rk[p]) == IndexOf(ks, rk[p]) < |ks|
    {
      IndexOfSnoc(ks, rk[p], y);
    }
    if y !in ks {
      IndexOfAppended(ks, y);
      var rk' := rk + [y];
      forall i, j | 0 <= i < j < |rk'| && rk'[i] in ks' && rk'[j] in ks'
        ensures IndexOf(ks', rk'[i]) < IndexOf(ks', rk'[j])
      {
        assert rk'[i] == rk[i];
        if j < |rk| {
          assert rk'[j] == rk[j];
        }
      }
    }
  }

  /** Under `mapWithKeys` each key stands where its first entry stood: the
      result lists the keys in the order they first occur. */
  lemma {:induction false} MapWithKeysKeepsFirstPosition<V>(entries: OrderedMap<V>)
    ensures InFirstOccurrenceOrder(KeysOf(MapWithKeys(entries)), KeysOf(entries))
    decreases |entries|
  {
    if entries != [] {
      var init := entries[..|entries| - 1];
      var last := entries[|entries| - 1];
      var rk0 := KeysOf(MapWithKeys(init));
      var ks0 := KeysOf(init);
      MapWithKeysKeepsFirstPosition(init);
      MapWithKeysKeys(init);
      assert KeysOf(entries) == ks0 + [last.0];
      FirstOccurrenceOrderSnoc(rk0, ks0, last.0);
      if last.0 !in rk0 {
        assert KeysOf(MapWithKeys(entries)) == rk0 + [last.0];
      }
    }
  }
}
