# base-ts-utils array and number helpers in Dafny

This project models the array utility layer of `src/lib/array.ts` and the
number helpers of `src/lib/formatting.ts`.

The array layer is `MutableArray<T>`: a JavaScript array with some extras.
- A `last` getter and setter.
- `replaceAt` and `removeAt`, which change the array in place through `splice`.
- `removeWhere`.
- The record queries `findBy`, `findIndexBy`, `findWhere`, `findIndexWhere` and `extractMap`.
- The static `populate` and the free functions `populatedArray` and `extractMap`.

`ImmutableArray<T>` is the same class without the `last` setter, so one class models both.

The number helpers are:
- `getNumberOrdinal`, the suffix 'st', 'nd', 'rd' or 'th' of a number.
- `isNumberBetween` and `isNumberInRange`, inclusive or exclusive range membership.
- `NumericRange`, a pair of bounds.

Layout:
- `wrappers.dfy`: `Option`, where `None` is JavaScript's `undefined`.
- `splice.dfy` (module `ArraySplice`): `splice(index, 1, ...items)` on a sequence. A negative index counts from the end and is clamped at 0. An index at or past the end is clamped to the length and deletes nothing.
- `records.dfy` (module `Records`): a record is a `map<string, V>`, and a missing field reads as `undefined`. This module holds `find`/`findIndex` and the key and needle queries built on them, plus the `extractMap` projection.
- `utility_array.dfy` (module `UtilityArray`): class `MutableArray<T>` with a `seq` field `items`. Its mutators are methods with `modifies` clauses. `ReplaceAt` and `RemoveAt` are proved against `Splice`, and `SetLast` states its new array directly. `populatedArray` and `populate` are here too. `removeWhere` is a method on a `MutableArray` of records, because the source restricts its `this` to an array of records.
- `formatting.dfy` (module `Formatting`): JavaScript's truncating `%`, the ordinal rule and range membership.

Three behaviours are modelled exactly as the code has them:
- The needle test of `findWhere`/`findIndexWhere` rejects a candidate as soon as one needle field is equal to the candidate's. See Findings.
- When no element passes that test, `removeWhere` calls `removeAt(-1)`, which removes the last element. See Findings.
- `replaceAt` with an index at or past the end appends the value.

`extractMap` always sets each listed key, and the value is `undefined` when the source record lacks the field.

## Model

| member | source | states |
|---|---|---|
| `ArraySplice.SpliceStart` | src/lib/array.ts:141-147 | splice's start position lies within the array, and an index already in 0..length is used unchanged |
| `ArraySplice.Splice` | src/lib/array.ts:141-147 | `splice(index, 1, ...items)` removes at most one element; the new length is old length minus removed plus inserted; nothing is removed exactly when the clamped start is the length |
| `ArraySplice.FirstOf` | src/lib/array.ts:142 | `?.[0]` is `undefined` exactly for an empty removal, else the first removed element |
| `ArraySplice.SpliceInRange` | src/lib/array.ts:141-147 | an in-range index removes exactly that element and puts the inserted items in its place |
| `ArraySplice.SpliceReplaceInRange` | src/lib/array.ts:141-143 | `replaceAt` in range returns the old element and leaves `s[i := v]`, same length |
| `ArraySplice.SpliceRemoveInRange` | src/lib/array.ts:145-147 | `removeAt` in range returns `s[i]` and leaves `s[..i] + s[i+1..]`; the length drops by one, earlier elements stay and later ones shift down one place |
| `ArraySplice.SpliceAtOrPastEnd` | src/lib/array.ts:141-147 | an index at or past the end removes nothing and appends the inserted items |
| `ArraySplice.SpliceNegative` | src/lib/array.ts:141-147 | a negative index acts at `max(length + index, 0)` |
| `ArraySplice.SpliceRemoveLast` | src/lib/array.ts:145-147 | `splice(-1, 1)` on a non-empty array removes exactly the last element |
| `ArraySplice.SpliceEmpty` | src/lib/array.ts:141-147 | on an empty array splice removes nothing, whatever the index |
| `ArraySplice.SpliceRestore` | src/lib/array.ts:141-147 | inverse: putting the removed elements back in place of the inserted ones rebuilds the original array |
| `ArraySplice.ReplaceRoundTrip` | src/lib/array.ts:141-143 | `replaceAt(i, old)` after `replaceAt(i, v)` restores the array |
| `Records.Field` | src/lib/array.ts:170 | reading a field gives `undefined` exactly when the record lacks it, else the field's value |
| `Records.FindIndex` | src/lib/array.ts:178 | `findIndex` gives the lowest index satisfying the test, or -1 exactly when no element does |
| `Records.Find` | src/lib/array.ts:170 | `find` gives `undefined` exactly when no element satisfies the test, else the first element that does |
| `Records.KeyIs` | src/lib/array.ts:170 | the `findBy`/`findIndexBy` test: matching `undefined` means the record lacks the key, matching a defined value means the field holds it, and a present field always matches its own value |
| `Records.FindIndexBy` | src/lib/array.ts:173-179 | the lowest index whose field equals the value (a missing field equals `undefined`), or -1 exactly when none does |
| `Records.FindBy` | src/lib/array.ts:165-171 | the element at `findIndexBy`'s index, or `undefined` when that is -1; a found element has the field equal to the value |
| `Records.NoNeedleFieldEqual` | src/lib/array.ts:193-200 | the needle test as written: an empty needle passes every record; a passing record has every `undefined`-valued needle key, and no needle field equal to its own |
| `Records.FindIndexWhere` | src/lib/array.ts:192-201 | the lowest index where no needle field equals the record's field, with every earlier index having some equal field; -1 exactly when every element has an equal field |
| `Records.FindWhere` | src/lib/array.ts:181-190 | the element at `findIndexWhere`'s index, or `undefined` when that is -1 |
| `Records.EmptyNeedleFindsFirst` | src/lib/array.ts:192-201 | an empty needle gives index 0 and the first element on a non-empty array |
| `Records.Pick` | src/lib/array.ts:157-162 | the `reduce` projection has exactly the listed keys, each mapped to the record's field or `undefined` |
| `Records.ExtractMap` | src/lib/array.ts:301-311 | the result has the source's length and order; entry i has exactly the listed keys, each with record i's field value |
| `Records.ExtractMapKeys` | src/lib/array.ts:153-163 | a key appears in a projection if and only if it is listed, and then carries the source field |
| `Records.ExtractMapExample` | src/lib/array.ts:153-163 | `[{a:1,b:2,c:3}].extractMap('a','b')` is `[{a:1,b:2}]` |
| `Records.FindIndexByExample` | src/lib/array.ts:173-179 | `[{id:1},{id:2},{id:2}].findIndexBy('id', 2)` is 1 |
| `Records.FindIndexWhereAllEqual` | src/lib/array.ts:88-108 | the documented needle search, with the test `AllNeedleFieldsEqual` (every needle field equals the record's, line 89): the lowest index whose fields equal every needle field, or -1 exactly when none does |
| `Records.WherePolarityCounterexample` | src/lib/array.ts:192-201 | for the needle `{id:2}` over `[{id:1},{id:2},{id:3}]`, the code gives index 0 and the documented search gives 1 |
| `Records.SingleFieldPolarity` | src/lib/array.ts:192-201 | for a one-field needle, the code's test is exactly the negation of "all needle fields equal" |
| `UtilityArray.Element.At` | src/lib/array.ts:121-128 | a plain value fills a slot whatever its index; a generator is called with the slot's index |
| `UtilityArray.PopulatedArray` | src/lib/array.ts:291-299 | `populatedArray(count, element)` has length `count`, and slot i holds the value or the generator's result for i |
| `UtilityArray.PopulateValueUniform` | src/lib/array.ts:298 | populating with a plain value puts that same value in every slot |
| `UtilityArray.PopulateGenerator` | src/lib/array.ts:296 | populating with a generator f gives length `count` with slot i equal to `f(i)` |
| `UtilityArray.PopulateExtends` | src/lib/array.ts:295-298 | populating one more slot appends the element for the next index |
| `UtilityArray.MutableArray.constructor` | src/lib/array.ts:124 | `new MutableArray(...items)` holds exactly `items` |
| `UtilityArray.MutableArray.Populate` | src/lib/array.ts:119-129 | `populate` returns a new array whose elements are `populatedArray(count, element)` |
| `UtilityArray.MutableArray.Last` | src/lib/array.ts:131-133 | the `last` getter is `undefined` exactly on an empty array, else the final element |
| `UtilityArray.MutableArray.SetLast` | src/lib/array.ts:135-139 | the `last` setter keeps the length; it writes only the final slot, only when the array is non-empty and the value is defined, and then `last` reads back the value; otherwise nothing changes |
| `UtilityArray.MutableArray.ReplaceAt` | src/lib/array.ts:141-143 | the new array is splice's result. In range it returns the old element and leaves `s[i := v]`. At or past the end it appends and returns `undefined`. A negative index replaces at `max(length + index, 0)`. On an empty array it appends and returns `undefined` |
| `UtilityArray.MutableArray.RemoveAt` | src/lib/array.ts:145-147 | the new array is splice's result. In range it returns `s[i]`, leaves `s[..i] + s[i+1..]` and drops the length by one. Past the end, or on an empty array, nothing changes and it returns `undefined`. A negative index removes at `max(length + index, 0)` |
| `UtilityArray.RemoveWhere` | src/lib/array.ts:149-151 | `removeAt(findIndexWhere(needle))`: it removes and returns exactly the first passing element; when none passes on a non-empty array it removes and returns the last; an empty array stays empty |
| `UtilityArray.RemoveWhereNoMatchRemovesLast` | src/lib/array.ts:149-151 | when no element passes the needle test, the effect on a non-empty array is to remove and return the last element |
| `UtilityArray.RemoveWhereExample` | src/lib/array.ts:149-151 | `removeWhere({id:2})` over `[{id:1},{id:2},{id:3}]` returns `{id:1}` and leaves `[{id:2},{id:3}]` |
| `UtilityArray.RemoveFirstWhere` | src/lib/array.ts:28-37 | documented `removeWhere`, with both corrections: removes exactly the first record whose fields equal every needle field, or returns `undefined` and leaves the array unchanged when there is none |
| `UtilityArray.RemoveFirstWhereExample` | src/lib/array.ts:28-37 | the corrected removal with needle `{id:2}` over `[{id:1},{id:2},{id:3}]` removes `{id:2}` and leaves `[{id:1},{id:3}]` |
| `Formatting.NumberOrdinal.Text` | src/lib/formatting.ts:1 | an ordinal's text is one of "st", "nd", "rd", "th" |
| `Formatting.JsRemainder` | src/lib/formatting.ts:19-22 | JavaScript `%` by a positive divisor: the remainder has the dividend's sign, is smaller than the divisor in magnitude, and differs from the dividend by a multiple of the divisor |
| `Formatting.IsNumberBetween` | src/lib/formatting.ts:61-72 | a member lies within the bounds, and an exclusive member is neither bound; conversely every value within the bounds is an inclusive member and every value strictly between them an exclusive member |
| `Formatting.IsNumberInRange` | src/lib/formatting.ts:43-49 | range membership is `lower <= v <= upper` when inclusive and `lower < v < upper` otherwise, on the two bounds of a `NumericRange` (src/lib/formatting.ts:3-10) |
| `Formatting.ExclusiveImpliesInclusive` | src/lib/formatting.ts:61-72 | a value in the exclusive range is in the inclusive range |
| `Formatting.Endpoints` | src/lib/formatting.ts:57-72 | the bounds are never in the exclusive range; they are in the inclusive range if and only if `lower <= upper` |
| `Formatting.EmptyRanges` | src/lib/formatting.ts:67-71 | no value is in the exclusive range when `lower >= upper`, nor in the inclusive range when `lower > upper` |
| `Formatting.RangeExample` | src/lib/formatting.ts:39-40 | the inclusive range 2-5 holds exactly 2, 3, 4, 5; the exclusive one holds exactly 3 and 4 |
| `Formatting.GetNumberOrdinal` | src/lib/formatting.ts:18-32 | "th" whenever `value % 100` lies in 10..20; "st", "nd" and "rd" only when `value % 10` is 1, 2 and 3 respectively |
| `Formatting.OrdinalOfNatural` | src/lib/formatting.ts:18-32 | for n >= 0: "st" if and only if the last digit is 1 and the last two are not 11, likewise "nd" with 2/12 and "rd" with 3/13; otherwise "th" |
| `Formatting.OrdinalPeriodic` | src/lib/formatting.ts:19-22 | for n >= 0 the suffix of n + 100 equals that of n |
| `Formatting.OrdinalOfNegative` | src/lib/formatting.ts:13-31 | every negative number gets "th" |
| `Formatting.OrdinalExamples` | src/lib/formatting.ts:18-32 | 1st, 2nd, 3rd, 4th, 11th, 12th, 13th, 21st, 22nd, 103rd, 111th, and -1 gives "th" |

## Left out

- `src/index.ts` is a demo that logs to the console. It imports a `UtilityArray` that `src/lib/array.ts` does not export.
- `src/lib/global/array.ts` is not part of this model. It patches `Array.prototype` globally and repeats the class logic.
- The `.d.ts` files in `src/types` hold only declarations. They were read as signature documentation.
- `ImmutableArray` (src/lib/array.ts:205-289) is modelled by `MutableArray`. It has no `last` setter, and its `replaceAt`/`removeAt` still splice in place, so nothing else differs.
- The record queries `findBy`, `findIndexBy`, `findWhere`, `findIndexWhere` and `extractMap` are functions over the array's `items`, not class members. A generic Dafny class cannot restrict its element type per member.
- Numbers are integers. NaN, infinities, fractional indices (truncated by `splice`) and fractional counts are out of scope.
- `UtilityArray.MutableArray.Populate` and UtilityArray.PopulatedArray: a negative count is excluded, by a precondition on `Populate` and by the `nat` type of `PopulatedArray`'s count. The source throws `RangeError` there, from `Array(count)` (src/lib/array.ts:125, 128, 296, 298).
- UtilityArray.MutableArray.Last, ArraySplice.FirstOf and Records.Field: elements and field values are assumed never to be `undefined` themselves, so `undefined` means "empty", "nothing removed" or "field missing". In the source, an array holding `undefined` (for example one built by `populate(2, undefined)`) reads `last` as `undefined` while non-empty. `replaceAt`/`removeAt` of such an element also return `undefined`, and the `last` setter cannot store `undefined`. A field read also finds names inherited from `Object.prototype`, such as `toString`, which the model treats as missing. Both are out of scope.
- `new MutableArray(n)` with a single numeric item creates `n` holes. The model takes its items as a sequence, so this quirk is out of scope.
- A generator is a pure Dafny function. A generator with side effects is out of scope.
- UtilityArray.PopulatedArray and `UtilityArray.MutableArray.Populate`: the source picks the path with `element instanceof Function` (src/lib/array.ts:123, 216, 295), so a function-valued element is always called as a generator and can never be the fill value. The model's `Element` tag lets the caller choose `Value(f)` for a function `f`, which the source cannot do.
- The model uses value semantics. It leaves out three JavaScript object behaviours:
  - `===` on object-valued fields compares identity.
  - `fill` with an object makes every slot share one reference.
  - `Object.entries` enumerates in a particular order. The needle test's answer does not depend on that order.
- Equality of values is Dafny equality on an equality type `V`.
- `extractMap` leaves the source unchanged, and calling it twice gives equal results. Both follow from value semantics, so no lemma states them.
- The type-level parts are out of scope: `this:` parameter typing, `Symbol.species` and `Pick`/`Partial`.

## Findings

| source | as written | input that shows it | evidently intended | confidence | as-written member | corrected member |
|---|---|---|---|---|---|---|
| src/lib/array.ts:192-201 | the needle test returns false as soon as a needle field EQUALS the candidate's, so only candidates with no equal field match | needle `{id:2}` over `[{id:1},{id:2},{id:3}]` gives index 0 (`{id:1}`) | match the first element whose fields equal the needle's ("based on any number of matching object keys", line 89), giving index 1 | not executed | `Records.WherePolarityCounterexample` | `Records.FindIndexWhereAllEqual` |
| src/lib/array.ts:149-151 | `removeAt(findIndexWhere(..))` passes -1 when nothing matches, and `splice(-1, 1)` removes the last element | needle `{id:5}` over `[{id:5},{id:5}]`: nothing passes, and the second `{id:5}` is removed and returned | return `undefined` and leave the array unchanged when not found (line 32); the corrected definition also matches on equal fields, as line 89 describes | not executed | `UtilityArray.RemoveWhereNoMatchRemovesLast` | `UtilityArray.RemoveFirstWhere` |

The class methods keep the code's behaviour, because that is what the repository does.
- `findWhere`, `findIndexWhere` and `UtilityArray.RemoveWhere` use the as-written needle test.
- `UtilityArray.RemoveWhere` removes the last element when nothing passes.

The corrected definitions sit beside them with their intended properties proved.
