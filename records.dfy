/**
 * The record queries of `MutableArray`/`ImmutableArray` (and the free
 * `extractMap`): `Array.prototype.find`/`findIndex` with a key test or a
 * needle test, and projection onto chosen keys. A record is a map from field
 * name to value; a field the record does not have reads as `undefined`.
 */
module Records {
  import opened Wrappers

  /** A plain JavaScript object of uniform value type. */
  type Record<V> = map<string, V>

  /** A `Partial<U>` needle: each listed key carries a value, possibly `undefined`. */
  type Needle<V> = map<string, Option<V>>

  /** A `Pick<U, K>` projection: a listed key that the source lacks is present with `undefined`. */
  type Projection<V> = map<string, Option<V>>

  /** `r[key]`: the field's value, or `undefined` when the record lacks it. */
  function Field<V>(r: Record<V>, key: string): (f: Option<V>)
    ensures f == None <==> key !in r
    ensures key in r ==> f == Some(r[key])
  {
    if key in r then Some(r[key]) else None
  }

  /** `Array.prototype.findIndex`: the lowest index whose element satisfies `p`, or -1. */
  function FindIndex<T>(s: seq<T>, p: T -> bool): (r: int)
    ensures -1 <= r < |s|
    ensures r >= 0 ==> p(s[r]) && forall j :: 0 <= j < r ==> !p(s[j])
    ensures r == -1 <==> forall j :: 0 <= j < |s| ==> !p(s[j])
    decreases |s|
  {
    if |s| == 0 then -1
    else if p(s[0]) then 0
    else
      var k := FindIndex(s[1..], p);
      assert forall j :: 1 <= j < |s| ==> s[j] == s[1..][j - 1];
      if k < 0 then -1 else k + 1
  }

  /** `Array.prototype.find`: the element at `FindIndex`, or `undefined`. */
  function Find<T>(s: seq<T>, p: T -> bool): (r: Option<T>)
    ensures r == None <==> forall j :: 0 <= j < |s| ==> !p(s[j])
    ensures r != None ==> exists i :: 0 <= i < |s| && r.value == s[i] && p(s[i]) &&
                                      forall j :: 0 <= j < i ==> !p(s[j])
  {
    var i := FindIndex(s, p);
    if i < 0 then None else Some(s[i])
  }

  /** The `findBy`/`findIndexBy` test: field `key` strictly equals `value` (a missing field is `undefined`). */
  predicate KeyIs<V(==)>(r: Record<V>, key: string, value: Option<V>)
    ensures KeyIs(r, key, value) && value == None ==> key !in r
    ensures KeyIs(r, key, value) && value != None ==> key in r && r[key] == value.value
    ensures key in r && value == Some(r[key]) ==> KeyIs(r, key, value)
  {
    Field(r, key) == value
  }

  /** `findIndexBy(key, value)`: the lowest index whose `key` field equals `value`, or -1. */
  function FindIndexBy<V(==)>(s: seq<Record<V>>, key: string, value: Option<V>): (r: int)
    ensures -1 <= r < |s|
    ensures r >= 0 ==> Field(s[r], key) == value && forall j :: 0 <= j < r ==> Field(s[j], key) != value
    ensures r == -1 <==> forall j :: 0 <= j < |s| ==> Field(s[j], key) != value
  {
    FindIndex(s, rec => KeyIs(rec, key, value))
  }

  /** `findBy(key, value)`: the element at `findIndexBy(key, value)`, or `undefined` when that is -1. */
  function FindBy<V(==)>(s: seq<Record<V>>, key: string, value: Option<V>): (r: Option<Record<V>>)
    ensures FindIndexBy(s, key, value) == -1 ==> r == None
    ensures FindIndexBy(s, key, value) >= 0 ==> r == Some(s[FindIndexBy(s, key, value)])
    ensures r != None ==> Field(r.value, key) == value
  {
    Find(s, rec => KeyIs(rec, key, value))
  }

  /**
   * The predicate that `findWhere`/`findIndexWhere` hand to `find`/`findIndex`:
   * it returns false as soon as one needle field is EQUAL to the candidate's,
   * so a candidate passes only when no needle field equals its value. This is
   * the code as written; the interface's comment ("based on any number of
   * matching object keys") describes the opposite polarity, see
   * `AllNeedleFieldsEqual`. An empty needle passes every candidate.
   */
  predicate NoNeedleFieldEqual<V(==)>(needle: Needle<V>, r: Record<V>)
    ensures needle == map[] ==> NoNeedleFieldEqual(needle, r)
    ensures NoNeedleFieldEqual(needle, r) ==>
              forall key :: key in needle && needle[key] == None ==> key in r
    ensures NoNeedleFieldEqual(needle, r) ==>
              forall key :: key in needle && key in r ==> needle[key] != Some(r[key])
  {
    forall key :: key in needle ==> Field(r, key) != needle[key]
  }

  /** `findIndexWhere(needle)`: the lowest index that passes `NoNeedleFieldEqual`, or -1. */
  function FindIndexWhere<V(==)>(s: seq<Record<V>>, needle: Needle<V>): (r: int)
    ensures -1 <= r < |s|
    ensures r >= 0 ==> (forall key :: key in needle ==> Field(s[r], key) != needle[key]) &&
                       forall j :: 0 <= j < r ==> exists key :: key in needle && Field(s[j], key) == needle[key]
    ensures r == -1 <==> forall j :: 0 <= j < |s| ==> exists key :: key in needle && Field(s[j], key) == needle[key]
  {
    FindIndex(s, rec => NoNeedleFieldEqual(needle, rec))
  }

  /** `findWhere(needle)`: the element at `findIndexWhere(needle)`, or `undefined` when that is -1. */
  function FindWhere<V(==)>(s: seq<Record<V>>, needle: Needle<V>): (r: Option<Record<V>>)
    ensures FindIndexWhere(s, needle) == -1 ==> r == None
    ensures FindIndexWhere(s, needle) >= 0 ==> r == Some(s[FindIndexWhere(s, needle)])
  {
    Find(s, rec => NoNeedleFieldEqual(needle, rec))
  }

  /** An empty needle passes the first element. */
  lemma EmptyNeedleFindsFirst<V>(s: seq<Record<V>>)
    requires |s| > 0
    ensures FindIndexWhere(s, map[]) == 0
    ensures FindWhere(s, map[]) == Some(s[0])
  {
  }

  /**
   * The `reduce` inside `extractMap`: starting from `{}`, each listed key in
   * turn is set to the record's field (`undefined` when missing).
   */
  function Pick<V>(r: Record<V>, keys: seq<string>): (p: Projection<V>)
    ensures p.Keys == set k | k in keys
    ensures forall k :: k in p ==> p[k] == Field(r, k)
    decreases |keys|
  {
    if keys == [] then map[]
    else
      var last := keys[|keys| - 1];
      var prev := Pick(r, keys[..|keys| - 1]);
      assert forall k :: k in keys <==> k in keys[..|keys| - 1] || k == last;
      prev[last := Field(r, last)]
  }

  /** `extractMap(array, ...keys)`: each record projected onto `keys`, in the same order. */
  function ExtractMap<V>(s: seq<Record<V>>, keys: seq<string>): (r: seq<Projection<V>>)
    ensures |r| == |s|
    ensures forall i :: 0 <= i < |s| ==> r[i].Keys == set k | k in keys
    ensures forall i, k :: 0 <= i < |s| && k in r[i] ==> r[i][k] == Field(s[i], k)
  {
    seq(|s|, i requires 0 <= i < |s| => Pick(s[i], keys))
  }

  /** A listed key appears in every projection; an unlisted key appears in none. */
  lemma ExtractMapKeys<V>(s: seq<Record<V>>, keys: seq<string>, i: int, k: string)
    requires 0 <= i < |s|
    ensures k in ExtractMap(s, keys)[i] <==> k in keys
    ensures k in keys ==> ExtractMap(s, keys)[i][k] == Field(s[i], k)
  {
  }

  /** The example `[{a:1,b:2,c:3}].extractMap('a','b')` gives `[{a:1,b:2}]`. */
  lemma ExtractMapExample()
    ensures ExtractMap([map["a" := 1, "b" := 2, "c" := 3]], ["a", "b"]) ==
            [map["a" := Some(1), "b" := Some(2)]]
  {
  }

  /** The example `[{id:1},{id:2},{id:2}].findIndexBy('id', 2)` gives 1. */
  lemma FindIndexByExample()
    ensures FindIndexBy([map["id" := 1], map["id" := 2], map["id" := 2]], "id", Some(2)) == 1
  {
  }

  // ---------------------------------------------------------------------
  // The matching polarity the interface's comment describes.

  /** A candidate matches when every needle field equals its own. */
  predicate AllNeedleFieldsEqual<V(==)>(needle: Needle<V>, r: Record<V>)
  {
    forall key :: key in needle ==> Field(r, key) == needle[key]
  }

  /** `findIndexWhere` with the documented polarity: the lowest index matching every needle field, or -1. */
  function FindIndexWhereAllEqual<V(==)>(s: seq<Record<V>>, needle: Needle<V>): (r: int)
    ensures -1 <= r < |s|
    ensures r >= 0 ==> (forall key :: key in needle ==> Field(s[r], key) == needle[key]) &&
                       forall j :: 0 <= j < r ==> exists key :: key in needle && Field(s[j], key) != needle[key]
    ensures r == -1 <==> forall j :: 0 <= j < |s| ==> exists key :: key in needle && Field(s[j], key) != needle[key]
  {
    FindIndex(s, rec => AllNeedleFieldsEqual(needle, rec))
  }

  /**
   * The two polarities disagree on the plainest case: with the needle
   * `{id: 2}` over `[{id:1},{id:2},{id:3}]` the code picks index 0, the
   * record `{id:1}`, while the documented behaviour picks index 1.
   */
  lemma WherePolarityCounterexample()
    ensures FindIndexWhere([map["id" := 1], map["id" := 2], map["id" := 3]], map["id" := Some(2)]) == 0
    ensures FindIndexWhereAllEqual([map["id" := 1], map["id" := 2], map["id" := 3]], map["id" := Some(2)]) == 1
  {
    var s := [map["id" := 1], map["id" := 2], map["id" := 3]];
    var needle := map["id" := Some(2)];
    assert Field(s[0], "id") == Some(1);
    assert NoNeedleFieldEqual(needle, s[0]);
    assert Field(s[1], "id") == Some(2);
    assert !AllNeedleFieldsEqual(needle, s[0]);
    assert AllNeedleFieldsEqual(needle, s[1]);
  }

  /** For a one-field needle the code's test is the exact negation of the documented one. */
  lemma SingleFieldPolarity<V>(key: string, value: Option<V>, r: Record<V>)
    ensures NoNeedleFieldEqual(map[key := value], r) <==> !AllNeedleFieldsEqual(map[key := value], r)
  {
    var needle := map[key := value];
    assert key in needle && needle[key] == value;
  }
}
