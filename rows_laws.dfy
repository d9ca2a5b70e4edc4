/**
  Laws of the row comparators: what the scanning locator looks at, the
  prefix order it gives repeated columns, the agreement of the positional
  fast path with the scan on rows laid out one value per column, the
  "first non-zero wins" combination, and the fact that each of them is an
  ordering on rows whenever the value comparators are.
 */
module RowLaws {
  import opened Values
  import opened Orderings
  import opened Combinators
  import opened RowCompare

  // ---------------------------------------------------------------------
  // The scanning locator

  lemma {:induction false} MatchingAppend(a: Row, b: Row, tag: int16)
    ensures Matching(a + b, tag) == Matching(a, tag) + Matching(b, tag)
    decreases |a|
  {
    if a == [] {
      assert a + b == b;
    } else {
      assert (a + b)[0] == a[0];
      assert (a + b)[1..] == a[1..] + b;
      MatchingAppend(a[1..], b, tag);
    }
  }

  /** A row holds no value for the column exactly when no stored tag matches. */
  lemma {:induction false} MatchingEmptyIff(row: Row, tag: int16)
    ensures Matching(row, tag) == [] <==> forall j :: 0 <= j < |row| ==> row[j].columnTag != tag
    decreases |row|
  {
    if row != [] {
      MatchingEmptyIff(row[1..], tag);
      if forall j :: 0 <= j < |row[1..]| ==> row[1..][j].columnTag != tag {
        if row[0].columnTag != tag {
          forall j | 0 <= j < |row| ensures row[j].columnTag != tag {
            if j > 0 { assert row[j] == row[1..][j - 1]; }
          }
        }
      } else {
        var j :| 0 <= j < |row[1..]| && row[1..][j].columnTag == tag;
        assert row[j + 1].columnTag == tag;
      }
    }
  }

  /** Inserting a value of another column anywhere in the first row, or in
      the second, leaves the result unchanged (and so does removing one). */
  lemma ScanIgnoresOtherColumns(columnIndex: int16, compare: ValueCompare, row1: Row, row2: Row, k: nat, v: Value)
    requires k <= |row1|
    requires v.columnTag != Complement(columnIndex)
    ensures ScanOrder(columnIndex, compare, row1[..k] + [v] + row1[k..], row2) == ScanOrder(columnIndex, compare, row1, row2)
    ensures ScanOrder(columnIndex, compare, row2, row1[..k] + [v] + row1[k..]) == ScanOrder(columnIndex, compare, row2, row1)
  {
    var tag := Complement(columnIndex);
    var longer := row1[..k] + [v] + row1[k..];
    MatchingAppend(row1[..k] + [v], row1[k..], tag);
    MatchingAppend(row1[..k], [v], tag);
    MatchingAppend(row1[..k], row1[k..], tag);
    assert row1[..k] + row1[k..] == row1;
    assert Matching([v], tag) == [];
    assert Matching(longer, tag) == Matching(row1, tag);
  }

  /** Neither row holds a value for the column: the rows tie on it. One
      row holds none and the other some: the empty one is smaller. */
  lemma ScanAbsentColumn(columnIndex: int16, compare: ValueCompare, row1: Row, row2: Row)
    requires forall j :: 0 <= j < |row1| ==> row1[j].columnTag != Complement(columnIndex)
    ensures ScanOrder(columnIndex, compare, row1, row2) ==
      if forall j :: 0 <= j < |row2| ==> row2[j].columnTag != Complement(columnIndex) then 0 else -1
  {
    MatchingEmptyIff(row1, Complement(columnIndex));
    MatchingEmptyIff(row2, Complement(columnIndex));
  }

  /** The first position where the two runs of column values compare
      unequal decides the result. */
  lemma ScanFirstDifference(columnIndex: int16, compare: ValueCompare, row1: Row, row2: Row, k: nat)
    requires var m1, m2 := Matching(row1, Complement(columnIndex)), Matching(row2, Complement(columnIndex));
      k < |m1| && k < |m2| && compare(m1[k], m2[k]) != 0 &&
      forall j :: 0 <= j < k ==> compare(m1[j], m2[j]) == 0
    ensures var m1, m2 := Matching(row1, Complement(columnIndex)), Matching(row2, Complement(columnIndex));
      ScanOrder(columnIndex, compare, row1, row2) == compare(m1[k], m2[k])
  {
    var tag := Complement(columnIndex);
    LexFirstDifference(compare, Matching(row1, tag), Matching(row2, tag), k);
  }

  /** Prefix law for repeated columns: when the first row's run is a proper
      prefix of the second's (every shared position ties), the first row
      is smaller and, swapped, greater. */
  lemma ScanPrefix(columnIndex: int16, compare: ValueCompare, row1: Row, row2: Row)
    requires var m1, m2 := Matching(row1, Complement(columnIndex)), Matching(row2, Complement(columnIndex));
      |m1| < |m2| &&
      forall j :: 0 <= j < |m1| ==> compare(m1[j], m2[j]) == 0 && compare(m2[j], m1[j]) == 0
    ensures ScanOrder(columnIndex, compare, row1, row2) == -1
    ensures ScanOrder(columnIndex, compare, row2, row1) == 1
  {
    var tag := Complement(columnIndex);
    LexCommonPrefix(compare, Matching(row1, tag), Matching(row2, tag));
    LexCommonPrefix(compare, Matching(row2, tag), Matching(row1, tag));
  }

  lemma ScanIsOrdering(columnIndex: int16, compare: ValueCompare)
    requires IsOrdering(compare)
    ensures IsOrdering((row1: Row, row2: Row) => ScanOrder(columnIndex, compare, row1, row2))
  {
    var tag := Complement(columnIndex);
    LexIsOrdering(compare);
    var lex := (s1: seq<Value>, s2: seq<Value>) => LexCompare(compare, s1, s2);
    var scan := (row1: Row, row2: Row) => ScanOrder(columnIndex, compare, row1, row2);
    forall r1, r2 ensures scan(r1, r2) == lex(Matching(r1, tag), Matching(r2, tag)) {
    }
  }

  // ---------------------------------------------------------------------
  // The fast path against the scan

  /** A row whose leading values, up to and including position i, are laid
      out one per leaf column in column order (the value at position j is
      tagged with the complement of j), and in which no later value belongs
      to column i. Values after position i may be of repeated columns, any
      number of them each. */
  ghost predicate DirectUpTo(row: Row, i: int16) {
    && 0 <= i as int < |row|
    && (forall j :: 0 <= j <= i as int ==> row[j].columnTag as int == -j - 1)
    && (forall j :: i as int < j < |row| ==> row[j].columnTag != Complement(i))
  }

  lemma MatchingDirect(row: Row, i: int16)
    requires DirectUpTo(row, i)
    ensures Matching(row, Complement(i)) == [row[i]]
  {
    var tag, n := Complement(i), i as int;
    assert row == row[..n] + [row[n]] + row[n + 1..];
    MatchingAppend(row[..n] + [row[n]], row[n + 1..], tag);
    MatchingAppend(row[..n], [row[n]], tag);
    MatchingEmptyIff(row[..n], tag);
    MatchingEmptyIff(row[n + 1..], tag);
  }

  /** On rows laid out one value per column up to the sorted column, and
      holding no other value of it, the positional fast path and the scan
      over the same (possibly reversed) comparator agree: choosing the fast
      path never changes a result, whatever the repeated columns after it
      hold. */
  lemma FastPathAgreesWithScan(columnIndex: int16, compare: ValueCompare, row1: Row, row2: Row)
    requires DirectUpTo(row1, columnIndex) && DirectUpTo(row2, columnIndex)
    ensures EvalColumn(IndexAscending(columnIndex, compare), row1, row2) ==
            EvalColumn(Scan(columnIndex, compare), row1, row2)
    ensures EvalColumn(IndexDescending(columnIndex, compare), row1, row2) ==
            EvalColumn(Scan(columnIndex, CompareDescending(compare)), row1, row2)
  {
    MatchingDirect(row1, columnIndex);
    MatchingDirect(row2, columnIndex);
    var a, b := row1[columnIndex], row2[columnIndex];
    SingletonLex(compare, a, b);
    SingletonLex(CompareDescending(compare), a, b);
  }

  lemma SingletonLex(compare: ValueCompare, a: Value, b: Value)
    ensures LexCompare(compare, [a], [b]) == compare(a, b)
  {
    assert [a][1..] == [] && [b][1..] == [];
  }

  // ---------------------------------------------------------------------
  // First non-zero wins

  /** Key precedence: if every earlier comparator ties and the k-th does
      not, the k-th decides. */
  lemma {:induction false} ColumnsFirstNonZero(compareFuncs: seq<ColumnComparator>, row1: Row, row2: Row, k: nat)
    requires k < |compareFuncs|
    requires forall j :: 0 <= j < k ==> EvalColumn(compareFuncs[j], row1, row2) == Some(0)
    requires EvalColumn(compareFuncs[k], row1, row2).Some? && EvalColumn(compareFuncs[k], row1, row2).value != 0
    ensures EvalColumns(compareFuncs, row1, row2) == EvalColumn(compareFuncs[k], row1, row2)
    decreases k
  {
    if k > 0 {
      assert EvalColumn(compareFuncs[0], row1, row2) == Some(0);
      ColumnsFirstNonZero(compareFuncs[1..], row1, row2, k - 1);
    }
  }

  /** Every comparator ties: the rows tie. */
  lemma {:induction false} ColumnsAllTie(compareFuncs: seq<ColumnComparator>, row1: Row, row2: Row)
    requires forall j :: 0 <= j < |compareFuncs| ==> EvalColumn(compareFuncs[j], row1, row2) == Some(0)
    ensures EvalColumns(compareFuncs, row1, row2) == Some(0)
    decreases |compareFuncs|
  {
    if compareFuncs != [] {
      assert EvalColumn(compareFuncs[0], row1, row2) == Some(0);
      ColumnsAllTie(compareFuncs[1..], row1, row2);
    }
  }

  /** The k-th comparator decides: every comparator before it ties and it
      gives the combined result. */
  ghost predicate DecidesAt(compareFuncs: seq<ColumnComparator>, row1: Row, row2: Row, k: int) {
    && 0 <= k < |compareFuncs|
    && (forall j :: 0 <= j < k ==> EvalColumn(compareFuncs[j], row1, row2) == Some(0))
    && EvalColumn(compareFuncs[k], row1, row2) == EvalColumns(compareFuncs, row1, row2)
  }

  /** Conversely, a non-zero result is the result of some comparator, and
      every comparator before it tied. */
  lemma {:induction false} ColumnsNonZeroHasWitness(compareFuncs: seq<ColumnComparator>, row1: Row, row2: Row)
    requires EvalColumns(compareFuncs, row1, row2).Some? && EvalColumns(compareFuncs, row1, row2).value != 0
    ensures exists k :: DecidesAt(compareFuncs, row1, row2, k)
    decreases |compareFuncs|
  {
    if EvalColumn(compareFuncs[0], row1, row2) == Some(0) {
      ColumnsNonZeroHasWitness(compareFuncs[1..], row1, row2);
      var k :| DecidesAt(compareFuncs[1..], row1, row2, k);
      assert forall j :: 0 < j < k + 1 ==> compareFuncs[j] == compareFuncs[1..][j - 1];
      assert DecidesAt(compareFuncs, row1, row2, k + 1);
    } else {
      assert DecidesAt(compareFuncs, row1, row2, 0);
    }
  }

  /** Splitting the keys: the later keys are consulted only when all the
      earlier ones tie. */
  lemma {:induction false} ColumnsAppend(fs: seq<ColumnComparator>, gs: seq<ColumnComparator>, row1: Row, row2: Row)
    ensures EvalColumns(fs + gs, row1, row2) ==
      if EvalColumns(fs, row1, row2) == Some(0) then EvalColumns(gs, row1, row2) else EvalColumns(fs, row1, row2)
    decreases |fs|
  {
    if fs == [] {
      assert fs + gs == gs;
    } else {
      assert (fs + gs)[0] == fs[0];
      assert (fs + gs)[1..] == fs[1..] + gs;
      ColumnsAppend(fs[1..], gs, row1, row2);
    }
  }

  // ---------------------------------------------------------------------
  // Orderings on rows

  function Negated(o: Option<int>): Option<int> {
    match o
    case None => None
    case Some(x) => Some(-x)
  }

  /** Defined, and not greater. */
  predicate NotAbove(o: Option<int>) {
    o.Some? && o.value <= 0
  }

  /** A row comparison that may panic (None) is an ordering when its
      results are -1, 0 or +1, swapping the rows negates the result (and
      panics on both or neither order), and "not greater" is transitive. */
  ghost predicate RowOrdering(f: (Row, Row) -> Option<int>) {
    && (forall r1, r2 :: f(r1, r2).Some? ==> -1 <= f(r1, r2).value <= 1)
    && (forall r1, r2 :: f(r1, r2) == Negated(f(r2, r1)))
    && (forall r1, r2, r3 :: NotAbove(f(r1, r2)) && NotAbove(f(r2, r3)) ==> NotAbove(f(r1, r3)))
  }

  /** Every value comparator the column comparators hold is an ordering. */
  ghost predicate OrderedColumns(compareFuncs: seq<ColumnComparator>) {
    forall k :: 0 <= k < |compareFuncs| ==> IsOrdering(compareFuncs[k].compare)
  }

  lemma ColumnAntisymmetric(c: ColumnComparator, row1: Row, row2: Row)
    requires IsOrdering(c.compare)
    ensures EvalColumn(c, row1, row2) == Negated(EvalColumn(c, row2, row1))
    ensures EvalColumn(c, row1, row2).Some? ==> -1 <= EvalColumn(c, row1, row2).value <= 1
  {
    match c
    case IndexAscending(i, compare) =>
      if InBounds(i, row1, row2) {
        assert compare(row1[i], row2[i]) == -compare(row2[i], row1[i]);
        assert -1 <= compare(row1[i], row2[i]) <= 1;
      }
    case IndexDescending(i, compare) =>
      if InBounds(i, row1, row2) {
        assert compare(row1[i], row2[i]) == -compare(row2[i], row1[i]);
        assert -1 <= compare(row1[i], row2[i]) <= 1;
      }
    case Scan(i, compare) =>
      var tag := Complement(i);
      LexAntisymmetric(compare, Matching(row1, tag), Matching(row2, tag));
      LexThreeWay(compare, Matching(row1, tag), Matching(row2, tag));
  }

  lemma ColumnTransitive(c: ColumnComparator, row1: Row, row2: Row, row3: Row)
    requires IsOrdering(c.compare)
    requires NotAbove(EvalColumn(c, row1, row2)) && NotAbove(EvalColumn(c, row2, row3))
    ensures NotAbove(EvalColumn(c, row1, row3))
  {
    match c
    case IndexAscending(i, compare) =>
      assert compare(row1[i], row2[i]) <= 0 && compare(row2[i], row3[i]) <= 0;
    case IndexDescending(i, compare) =>
      assert compare(row2[i], row1[i]) <= 0 && compare(row3[i], row2[i]) <= 0;
      assert compare(row3[i], row1[i]) <= 0;
      assert compare(row1[i], row3[i]) == -compare(row3[i], row1[i]);
    case Scan(i, compare) =>
      var tag := Complement(i);
      LexTransitive(compare, Matching(row1, tag), Matching(row2, tag), Matching(row3, tag));
  }

  lemma ColumnIsOrdering(c: ColumnComparator)
    requires IsOrdering(c.compare)
    ensures RowOrdering((row1: Row, row2: Row) => EvalColumn(c, row1, row2))
  {
    var f := (row1: Row, row2: Row) => EvalColumn(c, row1, row2);
    forall r1, r2 ensures f(r1, r2) == Negated(f(r2, r1)) && (f(r1, r2).Some? ==> -1 <= f(r1, r2).value <= 1) {
      ColumnAntisymmetric(c, r1, r2);
    }
    forall r1, r2, r3 | NotAbove(f(r1, r2)) && NotAbove(f(r2, r3)) ensures NotAbove(f(r1, r3)) {
      ColumnTransitive(c, r1, r2, r3);
    }
  }

  lemma {:induction false} ColumnsThreeWayAntisymmetric(compareFuncs: seq<ColumnComparator>, row1: Row, row2: Row)
    requires OrderedColumns(compareFuncs)
    ensures EvalColumns(compareFuncs, row1, row2) == Negated(EvalColumns(compareFuncs, row2, row1))
    ensures EvalColumns(compareFuncs, row1, row2).Some? ==> -1 <= EvalColumns(compareFuncs, row1, row2).value <= 1
    decreases |compareFuncs|
  {
    if compareFuncs != [] {
      var g := compareFuncs[0];
      assert IsOrdering(g.compare);
      ColumnAntisymmetric(g, row1, row2);
      ColumnsThreeWayAntisymmetric(compareFuncs[1..], row1, row2);
    }
  }

  lemma {:induction false} ColumnsTransitive(compareFuncs: seq<ColumnComparator>, row1: Row, row2: Row, row3: Row)
    requires OrderedColumns(compareFuncs)
    requires NotAbove(EvalColumns(compareFuncs, row1, row2)) && NotAbove(EvalColumns(compareFuncs, row2, row3))
    ensures NotAbove(EvalColumns(compareFuncs, row1, row3))
    decreases |compareFuncs|
  {
    if compareFuncs != [] {
      var g := compareFuncs[0];
      assert IsOrdering(g.compare);
      assert NotAbove(EvalColumn(g, row1, row2)) && NotAbove(EvalColumn(g, row2, row3));
      ColumnTransitive(g, row1, row2, row3);
      if EvalColumn(g, row1, row3) == Some(0) {
        ColumnAntisymmetric(g, row3, row1);
        ColumnTransitive(g, row3, row1, row2);
        ColumnTransitive(g, row2, row3, row1);
        ColumnAntisymmetric(g, row3, row2);
        ColumnAntisymmetric(g, row2, row1);
        ColumnsTransitive(compareFuncs[1..], row1, row2, row3);
      }
    }
  }

  /** The lexicographic combination of orderings is an ordering on rows. */
  lemma ColumnsIsOrdering(compareFuncs: seq<ColumnComparator>)
    requires OrderedColumns(compareFuncs)
    ensures RowOrdering((row1: Row, row2: Row) => EvalColumns(compareFuncs, row1, row2))
  {
    var f := (row1: Row, row2: Row) => EvalColumns(compareFuncs, row1, row2);
    forall r1, r2 ensures f(r1, r2) == Negated(f(r2, r1)) && (f(r1, r2).Some? ==> -1 <= f(r1, r2).value <= 1) {
      ColumnsThreeWayAntisymmetric(compareFuncs, r1, r2);
    }
    forall r1, r2, r3 | NotAbove(f(r1, r2)) && NotAbove(f(r2, r3)) ensures NotAbove(f(r1, r3)) {
      ColumnsTransitive(compareFuncs, r1, r2, r3);
    }
  }
}
