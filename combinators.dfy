/**
  Comparator combinators over values: reversing an order (descending sort
  keys) and placing nulls before or after every non-null value.
 */
module Combinators {
  import opened Values
  import opened Orderings

  /** A comparison function over values, as a column type's Compare is. */
  type ValueCompare = (Value, Value) -> int

  /** CompareDescending: the reverse of cmp's order. */
  function CompareDescending(cmp: ValueCompare): (r: ValueCompare)
    ensures forall a, b :: r(a, b) == -cmp(a, b)
  {
    (a: Value, b: Value) => -cmp(a, b)
  }

  /** CompareNullsFirst: null is below every non-null value, two nulls tie,
      and cmp decides between two non-null values. */
  function CompareNullsFirst(cmp: ValueCompare): (r: ValueCompare)
    ensures forall a: Value, b: Value :: a.IsNull() && b.IsNull() ==> r(a, b) == 0
    ensures forall a: Value, b: Value :: a.IsNull() && !b.IsNull() ==> r(a, b) == -1
    ensures forall a: Value, b: Value :: !a.IsNull() && b.IsNull() ==> r(a, b) == 1
    ensures forall a: Value, b: Value :: !a.IsNull() && !b.IsNull() ==> r(a, b) == cmp(a, b)
  {
    (a: Value, b: Value) =>
      if a.IsNull() then (if b.IsNull() then 0 else -1)
      else if b.IsNull() then 1
      else cmp(a, b)
  }

  /** CompareNullsLast: null is above every non-null value, two nulls tie,
      and cmp decides between two non-null values. */
  function CompareNullsLast(cmp: ValueCompare): (r: ValueCompare)
    ensures forall a: Value, b: Value :: a.IsNull() && b.IsNull() ==> r(a, b) == 0
    ensures forall a: Value, b: Value :: a.IsNull() && !b.IsNull() ==> r(a, b) == 1
    ensures forall a: Value, b: Value :: !a.IsNull() && b.IsNull() ==> r(a, b) == -1
    ensures forall a: Value, b: Value :: !a.IsNull() && !b.IsNull() ==> r(a, b) == cmp(a, b)
  {
    (a: Value, b: Value) =>
      if a.IsNull() then (if b.IsNull() then 0 else 1)
      else if b.IsNull() then -1
      else cmp(a, b)
  }

  /** Reversing twice gives back the original results. */
  lemma DescendingInvolution(cmp: ValueCompare)
    ensures forall a, b :: CompareDescending(CompareDescending(cmp))(a, b) == cmp(a, b)
  {
  }

  /** The null-placement wrappers consult cmp only on pairs of non-null
      values: comparators that agree there give identical wrapped ones. */
  lemma NullPlacementIgnoresNullPairs(cmp1: ValueCompare, cmp2: ValueCompare)
    requires forall a: Value, b: Value :: !a.IsNull() && !b.IsNull() ==> cmp1(a, b) == cmp2(a, b)
    ensures forall a, b :: CompareNullsFirst(cmp1)(a, b) == CompareNullsFirst(cmp2)(a, b)
    ensures forall a, b :: CompareNullsLast(cmp1)(a, b) == CompareNullsLast(cmp2)(a, b)
  {
  }

  /** Nulls-last is nulls-first seen through a mirror: reversing the value
      order, placing nulls first, and reversing the whole again. */
  lemma NullsLastMirrorsNullsFirst(cmp: ValueCompare)
    ensures forall a, b ::
              CompareNullsLast(cmp)(a, b) == CompareDescending(CompareNullsFirst(CompareDescending(cmp)))(a, b)
  {
  }

  /** Null placement is layered over the direction: "nulls first" puts nulls
      below every non-null value whether or not the values are reversed. */
  lemma NullPlacementIndependentOfDirection(cmp: ValueCompare, descending: bool, a: Value, b: Value)
    requires a.IsNull() && !b.IsNull()
    ensures var c := if descending then CompareDescending(cmp) else cmp;
      CompareNullsFirst(c)(a, b) < 0 && CompareNullsFirst(c)(b, a) > 0 &&
      CompareNullsLast(c)(a, b) > 0 && CompareNullsLast(c)(b, a) < 0
  {
  }

  lemma DescendingPreservesOrdering(cmp: ValueCompare)
    requires IsOrdering(cmp)
    ensures IsOrdering(CompareDescending(cmp))
  {
    var d := CompareDescending(cmp);
    forall a, b, c | d(a, b) <= 0 && d(b, c) <= 0 ensures d(a, c) <= 0 {
      assert cmp(c, b) <= 0 && cmp(b, a) <= 0;
    }
  }

  lemma NullsFirstPreservesOrdering(cmp: ValueCompare)
    requires IsOrdering(cmp)
    ensures IsOrdering(CompareNullsFirst(cmp))
  {
    var n := CompareNullsFirst(cmp);
    forall a, b, c | n(a, b) <= 0 && n(b, c) <= 0 ensures n(a, c) <= 0 {
      if !a.IsNull() && !b.IsNull() && !c.IsNull() {
        assert cmp(a, b) <= 0 && cmp(b, c) <= 0;
      }
    }
  }

  lemma NullsLastPreservesOrdering(cmp: ValueCompare)
    requires IsOrdering(cmp)
    ensures IsOrdering(CompareNullsLast(cmp))
  {
    var n := CompareNullsLast(cmp);
    forall a, b, c | n(a, b) <= 0 && n(b, c) <= 0 ensures n(a, c) <= 0 {
      if !a.IsNull() && !b.IsNull() && !c.IsNull() {
        assert cmp(a, b) <= 0 && cmp(b, c) <= 0;
      }
    }
  }
}
