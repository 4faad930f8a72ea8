/**
 * Number helpers: the ordinal suffix of a number and inclusive/exclusive
 * range membership. JavaScript numbers are modelled as integers.
 */
module Formatting {

  /** `NumberOrdinal`: one of 'st', 'nd', 'rd', 'th'. */
  datatype NumberOrdinal = St | Nd | Rd | Th
  {
    /** The suffix as text. */
    function Text(): (t: string)
      ensures t in {"st", "nd", "rd", "th"}
    {
      match this
      case St => "st"
      case Nd => "nd"
      case Rd => "rd"
      case Th => "th"
    }
  }

  /** `NumericRange`: a lower and an upper bound. */
  datatype NumericRange = NumericRange(lowerBound: int, upperBound: int)

  /**
   * JavaScript's `a % b` for a positive divisor: it truncates toward zero, so
   * the remainder takes the sign of `a` (Dafny's `%` never goes negative).
   */
  function JsRemainder(a: int, b: int): (r: int)
    requires b > 0
    ensures -b < r < b
    ensures a >= 0 ==> r >= 0
    ensures a <= 0 ==> r <= 0
    ensures (a - r) % b == 0
  {
    RemainderLeavesMultiple(if a >= 0 then a else -a, b);
    if a >= 0 then a % b else -((-a) % b)
  }

  /** Taking away the remainder leaves a multiple of the divisor, with either sign. */
  lemma RemainderLeavesMultiple(x: int, b: int)
    requires x >= 0 && b > 0
    ensures (x - x % b) % b == 0
    ensures (-x + x % b) % b == 0
  {
    var q := x / b;
    assert x - x % b == b * q;
    assert -x + x % b == b * -q;
    RemainderUnique(b * q, b, q, 0);
    RemainderUnique(b * -q, b, -q, 0);
  }

  /** Division with remainder is unique: `b * k + d` with `0 <= d < b` leaves remainder `d`. */
  lemma RemainderUnique(n: int, b: int, k: int, d: int)
    requires b > 0 && 0 <= d < b && n == b * k + d
    ensures n % b == d
  {
    var m, q := n % b, n / b;
    var e := k - q;
    assert b * e == m - d by {
      assert n == b * q + m;
      assert b * e == b * k - b * q;
    }
    assert e == 0;
  }

  /** `isNumberBetween(value, lowerBound, upperBound, inclusive = false)`. */
  predicate IsNumberBetween(value: int, lowerBound: int, upperBound: int, inclusive: bool := false)
    ensures IsNumberBetween(value, lowerBound, upperBound, inclusive) ==> lowerBound <= value <= upperBound
    ensures !inclusive && IsNumberBetween(value, lowerBound, upperBound, inclusive) ==>
              value != lowerBound && value != upperBound
    ensures inclusive && lowerBound <= value <= upperBound ==> IsNumberBetween(value, lowerBound, upperBound, inclusive)
    ensures !inclusive && lowerBound < value < upperBound ==> IsNumberBetween(value, lowerBound, upperBound, inclusive)
  {
    if inclusive then value >= lowerBound && value <= upperBound
    else value > lowerBound && value < upperBound
  }

  /** `isNumberInRange(value, range, inclusive = false)`: `isNumberBetween` on the range's two bounds. */
  predicate IsNumberInRange(value: int, range: NumericRange, inclusive: bool := false)
    ensures IsNumberInRange(value, range, inclusive) <==>
              if inclusive then range.lowerBound <= value <= range.upperBound
              else range.lowerBound < value < range.upperBound
  {
    IsNumberBetween(value, range.lowerBound, range.upperBound, inclusive)
  }

  /** Exclusive membership implies inclusive membership. */
  lemma ExclusiveImpliesInclusive(value: int, lowerBound: int, upperBound: int)
    requires IsNumberBetween(value, lowerBound, upperBound, false)
    ensures IsNumberBetween(value, lowerBound, upperBound, true)
  {
  }

  /** The bounds themselves are members only of the inclusive range, and then only when it is non-empty. */
  lemma Endpoints(lowerBound: int, upperBound: int)
    ensures !IsNumberBetween(lowerBound, lowerBound, upperBound, false)
    ensures !IsNumberBetween(upperBound, lowerBound, upperBound, false)
    ensures IsNumberBetween(lowerBound, lowerBound, upperBound, true) <==> lowerBound <= upperBound
    ensures IsNumberBetween(upperBound, lowerBound, upperBound, true) <==> lowerBound <= upperBound
  {
  }

  /** An exclusive range with `lower >= upper`, or an inclusive one with `lower > upper`, holds nothing. */
  lemma EmptyRanges(value: int, lowerBound: int, upperBound: int)
    ensures lowerBound >= upperBound ==> !IsNumberBetween(value, lowerBound, upperBound, false)
    ensures lowerBound > upperBound ==> !IsNumberBetween(value, lowerBound, upperBound, true)
  {
  }

  /** The source's example: 2, 3, 4, 5 lie in the inclusive range 2-5; only 3 and 4 in the exclusive one. */
  lemma RangeExample(value: int)
    ensures IsNumberInRange(value, NumericRange(2, 5), true) <==> value in {2, 3, 4, 5}
    ensures IsNumberInRange(value, NumericRange(2, 5)) <==> value in {3, 4}
  {
  }

  /**
   * `getNumberOrdinal(value)`: "th" when `value % 100` lies in 10..20
   * inclusive, otherwise by `value % 10`: 1 "st", 2 "nd", 3 "rd", anything
   * else "th" (both remainders as JavaScript computes them).
   */
  function GetNumberOrdinal(value: int): (r: NumberOrdinal)
    ensures IsNumberBetween(JsRemainder(value, 100), 10, 20, true) ==> r == Th
    ensures r == St ==> JsRemainder(value, 10) == 1
    ensures r == Nd ==> JsRemainder(value, 10) == 2
    ensures r == Rd ==> JsRemainder(value, 10) == 3
  {
    if IsNumberBetween(JsRemainder(value, 100), 10, 20, true) then Th
    else
      match JsRemainder(value, 10)
      case 1 => St
      case 2 => Nd
      case 3 => Rd
      case _ => Th
  }

  /**
   * For a non-negative number the 10..20 window matters only for 11, 12, 13
   * (the others in it end in 0 or 4..9 anyway): the suffix is "st", "nd" or
   * "rd" exactly when the last digit is 1, 2 or 3 and the last two digits
   * are not 11, 12 or 13.
   */
  lemma OrdinalOfNatural(n: nat)
    ensures GetNumberOrdinal(n) == St <==> n % 10 == 1 && n % 100 != 11
    ensures GetNumberOrdinal(n) == Nd <==> n % 10 == 2 && n % 100 != 12
    ensures GetNumberOrdinal(n) == Rd <==> n % 10 == 3 && n % 100 != 13
    ensures GetNumberOrdinal(n) == Th <==> !(n % 10 in {1, 2, 3}) || n % 100 in {11, 12, 13}
  {
  }

  /** For non-negative numbers the suffix repeats every hundred. */
  lemma OrdinalPeriodic(n: nat)
    ensures GetNumberOrdinal(n + 100) == GetNumberOrdinal(n)
  {
  }

  /**
   * The comment only promises positive inputs: for a negative number
   * JavaScript's last-digit remainder lies in -9..0, so the suffix is always "th".
   */
  lemma OrdinalOfNegative(value: int)
    requires value < 0
    ensures GetNumberOrdinal(value) == Th
  {
  }

  /** Worked examples: 1st, 2nd, 3rd, 4th, 11th, 12th, 13th, 21st, 22nd, 103rd, 111th, -1th. */
  lemma OrdinalExamples()
    ensures GetNumberOrdinal(1) == St && GetNumberOrdinal(2) == Nd && GetNumberOrdinal(3) == Rd
    ensures GetNumberOrdinal(4) == Th && GetNumberOrdinal(11) == Th && GetNumberOrdinal(12) == Th
    ensures GetNumberOrdinal(13) == Th && GetNumberOrdinal(21) == St && GetNumberOrdinal(22) == Nd
    ensures GetNumberOrdinal(103) == Rd && GetNumberOrdinal(111) == Th && GetNumberOrdinal(-1) == Th
  {
  }
}
