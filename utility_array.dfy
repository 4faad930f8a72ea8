/**
 * `MutableArray<T>`: an array with a `last` accessor and index-based
 * `replaceAt`/`removeAt` that change it in place through `splice`, plus the
 * record-only `removeWhere`. `ImmutableArray<T>` is the same class without the
 * `last` setter; its `replaceAt`/`removeAt` splice in place just the same, so
 * this one class models both. The record queries live in `Records`.
 */
module UtilityArray {
  import opened Wrappers
  import opened ArraySplice
  import opened Records

  /** The `element` argument of `populate`: a value to repeat, or a generator called with each index. */
  datatype Element<T> = Value(v: T) | Generator(f: nat -> T)
  {
    /** What slot `index` of a populated array holds. */
    function At(index: nat): (r: T)
      ensures Value? ==> r == v
      ensures Generator? ==> r == f(index)
    {
      match this
      case Value(v) => v
      case Generator(f) => f(index)
    }
  }

  /**
   * `populatedArray(count, element)` (and the body of `populate`): `count`
   * slots filled with `element`, or with `element(i)` at slot `i`.
   */
  function PopulatedArray<T>(count: nat, element: Element<T>): (r: seq<T>)
    ensures |r| == count
    ensures forall i :: 0 <= i < count ==> r[i] == element.At(i)
  {
    seq(count, i requires 0 <= i < count => element.At(i))
  }

  /** Populating with a plain value puts that same value in every slot. */
  lemma PopulateValueUniform<T>(count: nat, v: T)
    ensures forall i :: 0 <= i < count ==> PopulatedArray(count, Value(v))[i] == v
    ensures forall i, j :: 0 <= i < count && 0 <= j < count ==>
              PopulatedArray(count, Value(v))[i] == PopulatedArray(count, Value(v))[j]
  {
  }

  /** A generator is called at every index from 0 to `count - 1`: slot `i` holds `f(i)`. */
  lemma PopulateGenerator<T>(count: nat, f: nat -> T)
    ensures |PopulatedArray(count, Generator(f))| == count
    ensures forall i :: 0 <= i < count ==> PopulatedArray(count, Generator(f))[i] == f(i)
  {
  }

  /** Populating one more slot extends the array by the next generated element. */
  lemma PopulateExtends<T>(count: nat, element: Element<T>)
    ensures PopulatedArray(count + 1, element) == PopulatedArray(count, element) + [element.At(count)]
  {
  }

  class MutableArray<T> {
    /** The array's elements, index 0 first. */
    var items: seq<T>

    /** `new MutableArray(...items)`. */
    constructor (items: seq<T>)
      ensures this.items == items
    {
      this.items := items;
    }

    /** `MutableArray.populate(count, element)`; a negative count throws `RangeError` in the source. */
    static method Populate(count: int, element: Element<T>) returns (a: MutableArray<T>)
      requires count >= 0
      ensures fresh(a)
      ensures a.items == PopulatedArray(count, element)
    {
      a := new MutableArray(PopulatedArray(count, element));
    }

    /** The `last` getter: the final element, or `undefined` on an empty array. */
    function Last(): (r: Option<T>)
      reads this
      ensures r == None <==> |items| == 0
      ensures r != None ==> r.value == items[|items| - 1]
    {
      if |items| > 0 then Some(items[|items| - 1]) else None
    }

    /**
     * The `last` setter: writes the final slot only when the array is
     * non-empty and the value is not `undefined`; otherwise nothing changes.
     */
    method SetLast(value: Option<T>)
      modifies this
      ensures |items| == |old(items)|
      ensures |old(items)| > 0 && value != None ==>
                items == old(items)[|old(items)| - 1 := value.value] && Last() == value
      ensures |old(items)| == 0 || value == None ==> items == old(items)
    {
      if |items| > 0 && value != None {
        items := items[|items| - 1 := value.value];
      }
    }

    /**
     * `replaceAt(index, value)`, i.e. `splice(index, 1, value)?.[0]`: in range
     * it swaps in `value` and returns the old element; at or past the end it
     * appends `value` and returns `undefined`; a negative index counts from the end.
     */
    method ReplaceAt(index: int, value: T) returns (replaced: Option<T>)
      modifies this
      ensures items == Splice(old(items), index, [value]).rest
      ensures replaced == FirstOf(Splice(old(items), index, [value]).removed)
      ensures 0 <= index < |old(items)| ==>
                replaced == Some(old(items)[index]) && items == old(items)[index := value]
      ensures index >= |old(items)| ==> replaced == None && items == old(items) + [value]
      ensures index < 0 && |old(items)| > 0 ==>
                var at := if |old(items)| + index < 0 then 0 else |old(items)| + index;
                replaced == Some(old(items)[at]) && items == old(items)[at := value]
      ensures |old(items)| == 0 ==> replaced == None && items == [value]
    {
      ghost var s := items;
      var r := Splice(items, index, [value]);
      items := r.rest;
      replaced := FirstOf(r.removed);
      if 0 <= index < |s| {
        SpliceReplaceInRange(s, index, value);
      } else if index >= |s| {
        SpliceAtOrPastEnd(s, index, [value]);
      } else if |s| > 0 {
        var at := if |s| + index < 0 then 0 else |s| + index;
        SpliceNegative(s, index, [value]);
        SpliceReplaceInRange(s, at, value);
      } else {
        SpliceEmpty(index, [value]);
      }
    }

    /**
     * `removeAt(index)`, i.e. `splice(index, 1)?.[0]`: in range it removes and
     * returns that element; at or past the end it changes nothing and returns
     * `undefined`; a negative index counts from the end, clamped at 0.
     */
    method RemoveAt(index: int) returns (removed: Option<T>)
      modifies this
      ensures items == Splice(old(items), index, []).rest
      ensures removed == FirstOf(Splice(old(items), index, []).removed)
      ensures 0 <= index < |old(items)| ==>
                removed == Some(old(items)[index]) &&
                items == old(items)[..index] + old(items)[index + 1..] &&
                |items| == |old(items)| - 1
      ensures index >= |old(items)| ==> removed == None && items == old(items)
      ensures index < 0 && |old(items)| > 0 ==>
                var at := if |old(items)| + index < 0 then 0 else |old(items)| + index;
                removed == Some(old(items)[at]) && items == old(items)[..at] + old(items)[at + 1..]
      ensures |old(items)| == 0 ==> removed == None && items == old(items)
    {
      ghost var s := items;
      var r := Splice(items, index, []);
      items := r.rest;
      removed := FirstOf(r.removed);
      if 0 <= index < |s| {
        SpliceRemoveInRange(s, index);
      } else if index >= |s| {
        SpliceAtOrPastEnd(s, index, []);
      } else if |s| > 0 {
        var at := if |s| + index < 0 then 0 else |s| + index;
        SpliceNegative(s, index, []);
        SpliceRemoveInRange(s, at);
      } else {
        SpliceEmpty<T>(index, []);
      }
    }
  }

  /**
   * `removeWhere(needle)`, i.e. `removeAt(findIndexWhere(needle))`, on an
   * array of records (the source types `this` as such). When no element
   * passes, the index is -1 and the LAST element is removed.
   */
  method RemoveWhere<V(==)>(a: MutableArray<Record<V>>, needle: Needle<V>) returns (removed: Option<Record<V>>)
    modifies a
    ensures a.items == Splice(old(a.items), FindIndexWhere(old(a.items), needle), []).rest
    ensures removed == FirstOf(Splice(old(a.items), FindIndexWhere(old(a.items), needle), []).removed)
    ensures FindIndexWhere(old(a.items), needle) >= 0 ==>
              var i := FindIndexWhere(old(a.items), needle);
              removed == Some(old(a.items)[i]) && a.items == old(a.items)[..i] + old(a.items)[i + 1..]
    ensures FindIndexWhere(old(a.items), needle) == -1 && |old(a.items)| > 0 ==>
              removed == Some(old(a.items)[|old(a.items)| - 1]) && a.items == old(a.items)[..|old(a.items)| - 1]
    ensures |old(a.items)| == 0 ==> removed == None && a.items == []
  {
    ghost var s := a.items;
    var i := FindIndexWhere(a.items, needle);
    removed := a.RemoveAt(i);
    if i == -1 && |s| > 0 {
      SpliceRemoveLast(s);
    }
  }

  /**
   * The pure effect of `removeWhere`: when nothing passes the needle test on
   * a non-empty array, the last element is removed and returned rather than
   * `undefined`.
   */
  lemma RemoveWhereNoMatchRemovesLast<V>(s: seq<Record<V>>, needle: Needle<V>)
    requires |s| > 0
    requires forall j :: 0 <= j < |s| ==> exists key :: key in needle && Field(s[j], key) == needle[key]
    ensures FirstOf(Splice(s, FindIndexWhere(s, needle), []).removed) == Some(s[|s| - 1])
    ensures Splice(s, FindIndexWhere(s, needle), []).rest == s[..|s| - 1]
  {
  }

  /**
   * With the code's polarity, `removeWhere({id: 2})` over
   * `[{id:1},{id:2},{id:3}]` removes and returns `{id:1}`, not `{id:2}`.
   */
  lemma RemoveWhereExample()
    ensures var s := [map["id" := 1], map["id" := 2], map["id" := 3]];
            var i := FindIndexWhere(s, map["id" := Some(2)]);
            FirstOf(Splice(s, i, []).removed) == Some(map["id" := 1]) &&
            Splice(s, i, []).rest == [map["id" := 2], map["id" := 3]]
  {
  }

  /**
   * `removeWhere` as its comments describe it: remove the first record whose
   * fields equal every needle field, or return `undefined` and leave the
   * array alone when there is none.
   */
  function RemoveFirstWhere<V(==)>(s: seq<Record<V>>, needle: Needle<V>): (r: Spliced<Record<V>>)
    ensures r.removed == [] <==> FindIndexWhereAllEqual(s, needle) == -1
    ensures r.removed == [] ==> r.rest == s
    ensures r.removed != [] ==>
              var i := FindIndexWhereAllEqual(s, needle);
              r.removed == [s[i]] && r.rest == s[..i] + s[i + 1..]
  {
    var i := FindIndexWhereAllEqual(s, needle);
    if i < 0 then Spliced([], s)
    else
      SpliceRemoveInRange(s, i);
      Splice(s, i, [])
  }

  /** The corrected removal takes `{id:2}` out of `[{id:1},{id:2},{id:3}]` for the needle `{id: 2}`. */
  lemma RemoveFirstWhereExample()
    ensures RemoveFirstWhere([map["id" := 1], map["id" := 2], map["id" := 3]], map["id" := Some(2)]) ==
            Spliced([map["id" := 2]], [map["id" := 1], map["id" := 3]])
  {
    var s := [map["id" := 1], map["id" := 2], map["id" := 3]];
    WherePolarityCounterexample();
    assert s[..1] + s[2..] == [map["id" := 1], map["id" := 3]];
  }
}
