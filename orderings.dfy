/**
  Three-way comparison functions in general: what it means for one to be an
  ordering, the natural order on integers, and lexicographic comparison of
  sequences, which both the 128-bit block comparison and the scanning row
  comparator are instances of.
 */
module Orderings {

  /** Results are -1, 0 or +1. */
  ghost predicate ThreeWay<T(!new)>(cmp: (T, T) -> int) {
    forall a, b :: -1 <= cmp(a, b) <= 1
  }

  /** Swapping the arguments negates the result. */
  ghost predicate Antisymmetric<T(!new)>(cmp: (T, T) -> int) {
    forall a, b :: cmp(a, b) == -cmp(b, a)
  }

  /** "Not greater than" is transitive. */
  ghost predicate Transitive<T(!new)>(cmp: (T, T) -> int) {
    forall a, b, c :: cmp(a, b) <= 0 && cmp(b, c) <= 0 ==> cmp(a, c) <= 0
  }

  /** A three-way comparison that induces a total preorder (a strict weak
      ordering on its "less than" part): what a sort needs. */
  ghost predicate IsOrdering<T(!new)>(cmp: (T, T) -> int) {
    ThreeWay(cmp) && Antisymmetric(cmp) && Transitive(cmp)
  }

  /** The natural order on integers, as a three-way comparison. */
  function CompareInt(x: int, y: int): (r: int)
    ensures -1 <= r <= 1
    ensures r < 0 <==> x < y
    ensures r == 0 <==> x == y
  {
    if x < y then -1 else if x > y then 1 else 0
  }

  /** Lexicographic order: the first position where the elements compare
      unequal decides; when one sequence runs out first it is the smaller. */
  function LexCompare<T>(cmp: (T, T) -> int, s1: seq<T>, s2: seq<T>): int
    decreases |s1|
  {
    if |s1| == 0 && |s2| == 0 then 0
    else if |s1| == 0 then -1
    else if |s2| == 0 then 1
    else if cmp(s1[0], s2[0]) != 0 then cmp(s1[0], s2[0])
    else LexCompare(cmp, s1[1..], s2[1..])
  }

  /** The first unequal pair at position k decides, whatever follows. */
  lemma {:induction false} LexFirstDifference<T>(cmp: (T, T) -> int, s1: seq<T>, s2: seq<T>, k: nat)
    requires k < |s1| && k < |s2|
    requires forall j :: 0 <= j < k ==> cmp(s1[j], s2[j]) == 0
    requires cmp(s1[k], s2[k]) != 0
    ensures LexCompare(cmp, s1, s2) == cmp(s1[k], s2[k])
    decreases k
  {
    if k > 0 {
      assert cmp(s1[0], s2[0]) == 0;
      LexFirstDifference(cmp, s1[1..], s2[1..], k - 1);
    }
  }

  /** Prefix law: when every shared position ties, the shorter sequence is
      the smaller one, and equal lengths compare equal. */
  lemma {:induction false} LexCommonPrefix<T>(cmp: (T, T) -> int, s1: seq<T>, s2: seq<T>)
    requires forall j :: 0 <= j < |s1| && j < |s2| ==> cmp(s1[j], s2[j]) == 0
    ensures |s1| < |s2| ==> LexCompare(cmp, s1, s2) == -1
    ensures |s1| > |s2| ==> LexCompare(cmp, s1, s2) == 1
    ensures |s1| == |s2| ==> LexCompare(cmp, s1, s2) == 0
    decreases |s1|
  {
    if |s1| > 0 && |s2| > 0 {
      assert cmp(s1[0], s2[0]) == 0;
      LexCommonPrefix(cmp, s1[1..], s2[1..]);
    }
  }

  /** A tie means equal lengths and a tie at every position, and conversely. */
  lemma {:induction false} LexZeroIff<T>(cmp: (T, T) -> int, s1: seq<T>, s2: seq<T>)
    ensures LexCompare(cmp, s1, s2) == 0 <==>
      |s1| == |s2| && forall j :: 0 <= j < |s1| ==> cmp(s1[j], s2[j]) == 0
    decreases |s1|
  {
    if |s1| > 0 && |s2| > 0 && cmp(s1[0], s2[0]) == 0 {
      LexZeroIff(cmp, s1[1..], s2[1..]);
      if |s1| == |s2| && forall j :: 0 <= j < |s1[1..]| ==> cmp(s1[1..][j], s2[1..][j]) == 0 {
        forall j | 0 <= j < |s1| ensures cmp(s1[j], s2[j]) == 0 {
          if j > 0 { assert s1[j] == s1[1..][j - 1] && s2[j] == s2[1..][j - 1]; }
        }
      }
    }
  }

  /** Lexicographic comparison of two sequences that start with the same
      number of elements: the heads decide unless they tie. */
  lemma {:induction false} LexAppend<T>(cmp: (T, T) -> int, a1: seq<T>, a2: seq<T>, b1: seq<T>, b2: seq<T>)
    requires |a1| == |b1|
    ensures LexCompare(cmp, a1 + a2, b1 + b2) ==
      if LexCompare(cmp, a1, b1) != 0 then LexCompare(cmp, a1, b1) else LexCompare(cmp, a2, b2)
    decreases |a1|
  {
    if |a1| > 0 {
      assert (a1 + a2)[0] == a1[0] && (b1 + b2)[0] == b1[0];
      assert (a1 + a2)[1..] == a1[1..] + a2 && (b1 + b2)[1..] == b1[1..] + b2;
      LexAppend(cmp, a1[1..], a2, b1[1..], b2);
    } else {
      assert a1 + a2 == a2 && b1 + b2 == b2;
    }
  }

  lemma {:induction false} LexThreeWay<T(!new)>(cmp: (T, T) -> int, s1: seq<T>, s2: seq<T>)
    requires ThreeWay(cmp)
    ensures -1 <= LexCompare(cmp, s1, s2) <= 1
    decreases |s1|
  {
    if |s1| > 0 && |s2| > 0 && cmp(s1[0], s2[0]) == 0 {
      LexThreeWay(cmp, s1[1..], s2[1..]);
    }
  }

  lemma {:induction false} LexAntisymmetric<T(!new)>(cmp: (T, T) -> int, s1: seq<T>, s2: seq<T>)
    requires Antisymmetric(cmp)
    ensures LexCompare(cmp, s1, s2) == -LexCompare(cmp, s2, s1)
    decreases |s1|
  {
    if |s1| > 0 && |s2| > 0 {
      assert cmp(s1[0], s2[0]) == -cmp(s2[0], s1[0]);
      if cmp(s1[0], s2[0]) == 0 {
        LexAntisymmetric(cmp, s1[1..], s2[1..]);
      }
    }
  }

  lemma {:induction false} LexTransitive<T(!new)>(cmp: (T, T) -> int, s1: seq<T>, s2: seq<T>, s3: seq<T>)
    requires Antisymmetric(cmp) && Transitive(cmp)
    requires LexCompare(cmp, s1, s2) <= 0 && LexCompare(cmp, s2, s3) <= 0
    ensures LexCompare(cmp, s1, s3) <= 0
    decreases |s1|
  {
    if |s1| > 0 {
      var a, b, c := s1[0], s2[0], s3[0];
      assert cmp(a, b) <= 0 && cmp(b, c) <= 0;
      assert cmp(a, c) <= 0;
      if cmp(a, c) == 0 {
        assert cmp(c, a) == 0;
        assert cmp(c, b) <= 0;
        assert cmp(b, a) <= 0;
        LexTransitive(cmp, s1[1..], s2[1..], s3[1..]);
      }
    }
  }

  /** Lexicographic comparison of sequences is an ordering whenever the
      element comparison is. */
  lemma LexIsOrdering<T(!new)>(cmp: (T, T) -> int)
    requires IsOrdering(cmp)
    ensures IsOrdering((s1: seq<T>, s2: seq<T>) => LexCompare(cmp, s1, s2))
  {
    var lex := (s1: seq<T>, s2: seq<T>) => LexCompare(cmp, s1, s2);
    forall s1, s2 ensures -1 <= lex(s1, s2) <= 1 && lex(s1, s2) == -lex(s2, s1) {
      LexThreeWay(cmp, s1, s2);
      LexAntisymmetric(cmp, s1, s2);
    }
    forall s1, s2, s3 | lex(s1, s2) <= 0 && lex(s2, s3) <= 0 ensures lex(s1, s3) <= 0 {
      LexTransitive(cmp, s1, s2, s3);
    }
  }
}
