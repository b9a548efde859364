/** The median-of-up-to-three selector of `src/median.rs`.

    Elements are compared through a `partial_cmp`-like function that
    returns `None` for incomparable values (a floating-point NaN, for
    instance); `less_eq` panics on those. */
module Median {
  import opened Wrappers

  /** `x <= y` under the comparator, the way `less_eq` reads it. */
  predicate Le<T>(cmp: (T, T) -> Option<Ordering>, x: T, y: T) {
    cmp(x, y) == Some(Less) || cmp(x, y) == Some(Equal)
  }

  /** `less_eq`: `<=` on a partially ordered type, panicking when the
      two values are incomparable. */
  function LessEq<T>(cmp: (T, T) -> Option<Ordering>, x: T, y: T): (r: Outcome<bool>)
    ensures r.Panicked? <==> cmp(x, y).None?
    ensures r.Returned? ==> (r.value <==> Le(cmp, x, y))
  {
    match cmp(x, y)
    case None => Panicked
    case Some(Less) => Returned(true)
    case Some(Equal) => Returned(true)
    case Some(Greater) => Returned(false)
  }

  /** `small_median`: the index of a median of a slice of one to three
      elements, by a fixed decision tree; any other length is
      `unimplemented!()`. */
  function SmallMedian<T>(cmp: (T, T) -> Option<Ordering>, arr: seq<T>): (r: Outcome<nat>)
    ensures r.Returned? ==> 1 <= |arr| <= 3 && r.value < |arr|
  {
    match |arr|
    case 1 => Returned(0)
    case 2 =>
      var le01 :- LessEq(cmp, arr[0], arr[1]);
      Returned(if le01 then 0 else 1)
    case 3 =>
      var le12 :- LessEq(cmp, arr[1], arr[2]);
      if le12 then
        var le10 :- LessEq(cmp, arr[1], arr[0]);
        if le10 then
          var le02 :- LessEq(cmp, arr[0], arr[2]);
          Returned(if le02 then 0 else 2)
        else
          Returned(1)
      else
        var le20 :- LessEq(cmp, arr[2], arr[0]);
        if le20 then
          var le01 :- LessEq(cmp, arr[0], arr[1]);
          Returned(if le01 then 0 else 1)
        else
          Returned(2)
    case _ => Panicked
  }

  /** Every pair of elements of `arr` is comparable and `<=` is total on them. */
  predicate TotalOn<T>(cmp: (T, T) -> Option<Ordering>, arr: seq<T>) {
    forall i, j :: 0 <= i < |arr| && 0 <= j < |arr| ==>
      cmp(arr[i], arr[j]).Some? && (Le(cmp, arr[i], arr[j]) || Le(cmp, arr[j], arr[i]))
  }

  /** `arr[m]` is a median of three: the other two positions `j`, `k`
      hold one element below it and one above it. */
  predicate IsMedianOfThree<T>(cmp: (T, T) -> Option<Ordering>, arr: seq<T>, m: nat)
    requires |arr| == 3
  {
    m < 3 &&
    exists j: nat, k: nat :: j < 3 && k < 3 && j != m && k != m && j != k &&
      Le(cmp, arr[j], arr[m]) && Le(cmp, arr[m], arr[k])
  }

  /** Lengths 0 and more than 3 are `unimplemented!()`. */
  lemma UnsupportedLengthPanics<T>(cmp: (T, T) -> Option<Ordering>, arr: seq<T>)
    requires |arr| == 0 || |arr| > 3
    ensures SmallMedian(cmp, arr).Panicked?
  {
  }

  /** The first comparison `small_median` makes panics on incomparable
      values: `arr[0]` against `arr[1]` for two elements, `arr[1]`
      against `arr[2]` for three. */
  lemma IncomparablePanics<T>(cmp: (T, T) -> Option<Ordering>, arr: seq<T>)
    requires |arr| == 2 ==> cmp(arr[0], arr[1]).None?
    requires |arr| == 3 ==> cmp(arr[1], arr[2]).None?
    requires 2 <= |arr| <= 3
    ensures SmallMedian(cmp, arr).Panicked?
  {
  }

  /** One element, comparable with itself or not: index 0. Two elements
      whose one comparison succeeds: index 0 when `arr[0] <= arr[1]`
      (ties included), otherwise index 1, the smaller one. */
  lemma MedianOfOneOrTwo<T>(cmp: (T, T) -> Option<Ordering>, arr: seq<T>)
    requires |arr| == 1 || (|arr| == 2 && cmp(arr[0], arr[1]).Some?)
    ensures |arr| == 1 ==> SmallMedian(cmp, arr) == Returned(0)
    ensures |arr| == 2 ==> SmallMedian(cmp, arr) == Returned(if Le(cmp, arr[0], arr[1]) then 0 else 1)
    ensures |arr| == 2 && cmp(arr[0], arr[1]) == Some(Equal) ==> SmallMedian(cmp, arr) == Returned(0)
    ensures |arr| == 2 && cmp(arr[0], arr[1]) == Some(Greater) ==> SmallMedian(cmp, arr) == Returned(1)
  {
  }

  /** Three pairwise comparable elements: `small_median` returns and
      the element at the returned index is a median. */
  lemma {:induction false} MedianOfThree<T>(cmp: (T, T) -> Option<Ordering>, arr: seq<T>)
    requires |arr| == 3 && TotalOn(cmp, arr)
    ensures SmallMedian(cmp, arr).Returned?
    ensures IsMedianOfThree(cmp, arr, SmallMedian(cmp, arr).value)
  {
    var a0, a1, a2 := arr[0], arr[1], arr[2];
    assert cmp(a1, a2).Some? && cmp(a1, a0).Some? && cmp(a0, a2).Some?;
    assert cmp(a2, a0).Some? && cmp(a0, a1).Some?;
    assert Le(cmp, a1, a2) || Le(cmp, a2, a1);
    assert Le(cmp, a1, a0) || Le(cmp, a0, a1);
    assert Le(cmp, a0, a2) || Le(cmp, a2, a0);
    var m := SmallMedian(cmp, arr).value;
    if Le(cmp, a1, a2) {
      if Le(cmp, a1, a0) {
        if Le(cmp, a0, a2) {
          assert m == 0 && Le(cmp, arr[1], arr[0]) && Le(cmp, arr[0], arr[2]);
        } else {
          assert m == 2 && Le(cmp, arr[1], arr[2]) && Le(cmp, arr[2], arr[0]);
        }
      } else {
        assert m == 1 && Le(cmp, arr[0], arr[1]) && Le(cmp, arr[1], arr[2]);
      }
    } else {
      if Le(cmp, a2, a0) {
        if Le(cmp, a0, a1) {
          assert m == 0 && Le(cmp, arr[2], arr[0]) && Le(cmp, arr[0], arr[1]);
        } else {
          assert m == 1 && Le(cmp, arr[2], arr[1]) && Le(cmp, arr[1], arr[0]);
        }
      } else {
        assert m == 2 && Le(cmp, arr[0], arr[2]) && Le(cmp, arr[2], arr[1]);
      }
    }
  }

  /** The natural comparison of two reals: always comparable. */
  function RealCmp(x: real, y: real): Option<Ordering> {
    Some(if x < y then Less else if x == y then Equal else Greater)
  }

  /** The natural comparison of two integers. */
  function IntCmp(x: int, y: int): Option<Ordering> {
    Some(if x < y then Less else if x == y then Equal else Greater)
  }

  /** On reals, `less_eq` never panics and is `x < y || x == y`. */
  lemma LessEqOnReals(x: real, y: real)
    ensures LessEq(RealCmp, x, y) == Returned(x < y || x == y)
  {
  }

  /** The documented examples of `small_median` on floats. */
  lemma DocExamples()
    ensures SmallMedian(RealCmp, [1.0]) == Returned(0)
    ensures SmallMedian(RealCmp, [1.0, 2.0]) == Returned(0)
    ensures SmallMedian(RealCmp, [2.0, 1.0]) == Returned(1)
    ensures SmallMedian(RealCmp, [1.0, 2.0, 3.0]) == Returned(1)
    ensures SmallMedian(RealCmp, [1.0, 3.0, 2.0]) == Returned(2)
    ensures SmallMedian(RealCmp, [3.0, 1.0, 2.0]) == Returned(2)
    ensures SmallMedian(RealCmp, [2.0, 1.0, 3.0]) == Returned(0)
    ensures SmallMedian(RealCmp, [3.0, 2.0, 1.0]) == Returned(1)
    ensures SmallMedian(RealCmp, [2.0, 3.0, 1.0]) == Returned(0)
  {
  }

  /** The unit test of `small_median` on integers. */
  lemma UnitExample()
    ensures SmallMedian(IntCmp, [1, 2, 3]) == Returned(1)
  {
  }
}
