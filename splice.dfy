/**
 * `Array.prototype.splice(index, 1, ...items)` on a value sequence: the one
 * primitive through which `replaceAt` and `removeAt` change an array.
 * A negative index counts from the end and is clamped at 0; an index at or
 * past the end is clamped to the length, where nothing is deleted.
 */
module ArraySplice {
  import opened Wrappers

  /** The position at which `splice` starts acting on an array of length `len`. */
  function SpliceStart(len: nat, index: int): (start: nat)
    ensures start <= len
    ensures 0 <= index <= len ==> start == index
  {
    if index < 0 then (if len + index < 0 then 0 else len + index)
    else if index > len then len
    else index
  }

  /** What `splice` returns (`removed`) and what it leaves in the array (`rest`). */
  datatype Spliced<T> = Spliced(removed: seq<T>, rest: seq<T>)

  /** `s.splice(index, 1, ...items)`: delete at most one element and insert `items` in its place. */
  function Splice<T>(s: seq<T>, index: int, items: seq<T>): (r: Spliced<T>)
    ensures |r.removed| <= 1
    ensures |r.rest| == |s| - |r.removed| + |items|
    ensures r.removed == [] <==> SpliceStart(|s|, index) == |s|
  {
    var start := SpliceStart(|s|, index);
    var n := if start < |s| then 1 else 0;
    Spliced(s[start..start + n], s[..start] + items + s[start + n..])
  }

  /** `spliced?.[0]`: the first removed element, or `undefined` when nothing was removed. */
  function FirstOf<T>(s: seq<T>): (r: Option<T>)
    ensures r == None <==> s == []
    ensures r != None ==> r.value == s[0]
  {
    if s == [] then None else Some(s[0])
  }

  /** An in-range index removes exactly the element there and inserts `items` in its place. */
  lemma SpliceInRange<T>(s: seq<T>, index: int, items: seq<T>)
    requires 0 <= index < |s|
    ensures Splice(s, index, items) == Spliced([s[index]], s[..index] + items + s[index + 1..])
  {
  }

  /** `replaceAt` in range: the old element comes back and the array is `s[index := v]`, same length. */
  lemma SpliceReplaceInRange<T>(s: seq<T>, index: int, v: T)
    requires 0 <= index < |s|
    ensures FirstOf(Splice(s, index, [v]).removed) == Some(s[index])
    ensures Splice(s, index, [v]).rest == s[index := v]
    ensures |Splice(s, index, [v]).rest| == |s|
  {
  }

  /** `removeAt` in range: the element comes back, the length drops by one, later elements shift down. */
  lemma SpliceRemoveInRange<T>(s: seq<T>, index: int)
    requires 0 <= index < |s|
    ensures FirstOf(Splice(s, index, []).removed) == Some(s[index])
    ensures Splice(s, index, []).rest == s[..index] + s[index + 1..]
    ensures |Splice(s, index, []).rest| == |s| - 1
    ensures forall j :: 0 <= j < index ==> Splice(s, index, []).rest[j] == s[j]
    ensures forall j :: index <= j < |s| - 1 ==> Splice(s, index, []).rest[j] == s[j + 1]
  {
  }

  /** An index at or past the end deletes nothing and appends `items`. */
  lemma SpliceAtOrPastEnd<T>(s: seq<T>, index: int, items: seq<T>)
    requires index >= |s|
    ensures Splice(s, index, items) == Spliced([], s + items)
  {
  }

  /** A negative index acts at `max(|s| + index, 0)`. */
  lemma SpliceNegative<T>(s: seq<T>, index: int, items: seq<T>)
    requires index < 0
    ensures Splice(s, index, items) == Splice(s, if |s| + index < 0 then 0 else |s| + index, items)
  {
  }

  /** `splice(-1, 1)` on a non-empty array removes the last element. */
  lemma SpliceRemoveLast<T>(s: seq<T>)
    requires |s| > 0
    ensures Splice(s, -1, []) == Spliced([s[|s| - 1]], s[..|s| - 1])
  {
  }

  /** On an empty array `splice` removes nothing, whatever the index. */
  lemma SpliceEmpty<T>(index: int, items: seq<T>)
    ensures Splice([], index, items) == Spliced([], items)
  {
  }

  /**
   * Inverse: putting the removed elements back in place of the inserted ones
   * rebuilds the original array.
   */
  lemma SpliceRestore<T>(s: seq<T>, index: int, items: seq<T>)
    ensures var r := Splice(s, index, items);
            var start := SpliceStart(|s|, index);
            start + |items| <= |r.rest| &&
            r.rest[..start] + r.removed + r.rest[start + |items|..] == s
  {
  }

  /** `replaceAt(i, old)` right after `replaceAt(i, v)` restores the array. */
  lemma ReplaceRoundTrip<T>(s: seq<T>, index: int, v: T)
    requires 0 <= index < |s|
    ensures Splice(Splice(s, index, [v]).rest, index, [s[index]]).rest == s
  {
  }
}
