/**
 * The `InteractWithCollection` trait: views of an enum's `cases()` as
 * Laravel collections.
 */
module InteractWithCollection {
  import opened Enums
  import opened Collections

  /** `collection()`: `Collection::make(static::cases())`. */
  function CollectionOf(cases: seq<EnumCase>): seq<EnumCase> {
    cases
  }

  /** `keyValuePairs()`: `mapWithKeys` from each case to `name => value`. */
  function KeyValuePairs(cases: seq<EnumCase>): OrderedMap<string> {
    var c := CollectionOf(cases);
    MapWithKeys(seq(|c|, i requires 0 <= i < |c| => (c[i].name, c[i].value)))
  }

  /** `keys()`: the keys of `keyValuePairs()`. */
  function Keys(cases: seq<EnumCase>): seq<string> {
    KeysOf(KeyValuePairs(cases))
  }

  /** `values()`: the values of `keyValuePairs()`. */
  function Values(cases: seq<EnumCase>): seq<string> {
    ValuesOf(KeyValuePairs(cases))
  }

  /** For an enum (whose case names PHP keeps distinct), every view keeps
      declaration order: `collection()` is the case list itself, `keyValuePairs()`
      pairs each case's name with its value, `keys()` lists the names and
      `values()` the values. */
  lemma ViewsFollowCaseOrder(cases: seq<EnumCase>)
    requires UniqueCaseNames(cases)
    ensures CollectionOf(cases) == cases
    ensures var pairs := KeyValuePairs(cases);
      |pairs| == |cases| && forall i :: 0 <= i < |cases| ==> pairs[i] == (cases[i].name, cases[i].value)
    ensures |Keys(cases)| == |Values(cases)| == |cases|
    ensures forall i :: 0 <= i < |cases| ==> Keys(cases)[i] == cases[i].name && Values(cases)[i] == cases[i].value
  {
    var entries := seq(|cases|, i requires 0 <= i < |cases| => (cases[i].name, cases[i].value));
    assert forall i :: 0 <= i < |cases| ==> KeysOf(entries)[i] == cases[i].name;
    MapWithKeysOfDistinct(entries);
  }

  /** Whatever the case list, `keys()` has no repeats and pairs up with
      `values()` to give back `keyValuePairs()`. */
  lemma KeysZipValues(cases: seq<EnumCase>)
    ensures Collections.Distinct(Keys(cases))
    ensures forall k :: k in Keys(cases) <==> exists i :: 0 <= i < |cases| && cases[i].name == k
    ensures |Keys(cases)| == |Values(cases)|
    ensures Zip(Keys(cases), Values(cases)) == KeyValuePairs(cases)
  {
    var entries := seq(|cases|, i requires 0 <= i < |cases| => (cases[i].name, cases[i].value));
    MapWithKeysKeys(entries);
    forall k
      ensures k in KeysOf(entries) <==> exists i :: 0 <= i < |cases| && cases[i].name == k
    {
      if k in KeysOf(entries) {
        var i :| 0 <= i < |entries| && KeysOf(entries)[i] == k;
        assert cases[i].name == k;
      }
      if exists i :: 0 <= i < |cases| && cases[i].name == k {
        var i :| 0 <= i < |cases| && cases[i].name == k;
        assert KeysOf(entries)[i] == k;
      }
    }
    ZipKeysValues(KeyValuePairs(cases));
  }
}
