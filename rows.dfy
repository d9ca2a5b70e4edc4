/**
  Row comparators: the positional fast paths, the scanning column locator,
  and the lexicographic "first non-zero wins" combination of several of
  them.

  The Go code builds these as closures. Here each closure is a value of
  `ColumnComparator` or `RowComparator` holding what the closure captures;
  `EvalColumn`, `EvalColumns` and `Eval` give their meaning, and the methods
  `CompareColumn`, `CompareRowsFuncOfColumns`, `CompareRowsFuncOfScan` and
  `CompareRows` run them the way the closures' bodies do.

  The fast path indexes `row[columnIndex]` and panics when that index is out
  of range; the meaning functions return `None` for that panic.
 */
module RowCompare {
  import opened Values
  import opened Orderings
  import opened Combinators

  /** A comparator for one sort key. */
  datatype ColumnComparator =
    | IndexAscending(columnIndex: int16, compare: ValueCompare)
    | IndexDescending(columnIndex: int16, compare: ValueCompare)
    | Scan(columnIndex: int16, compare: ValueCompare)

  /** What compareRowsFuncOf returns: compareRowsUnordered, a single column
      comparator, or compareRowsFuncOfColumns over two or more. */
  datatype RowComparator =
    | Unordered
    | Single(column: ColumnComparator)
    | Lexicographic(columns: seq<ColumnComparator>)

  // ---------------------------------------------------------------------
  // Positional fast path

  /** The fast path can index both rows at columnIndex. */
  predicate InBounds(columnIndex: int16, row1: Row, row2: Row) {
    0 <= columnIndex as int < |row1| && columnIndex as int < |row2|
  }

  /** compareRowsFuncOfIndexAscending: the values at position columnIndex. */
  function CompareRowsFuncOfIndexAscending(columnIndex: int16, compare: ValueCompare, row1: Row, row2: Row): int
    requires InBounds(columnIndex, row1, row2)
  {
    compare(row1[columnIndex], row2[columnIndex])
  }

  /** compareRowsFuncOfIndexDescending: the negation of the ascending one. */
  function CompareRowsFuncOfIndexDescending(columnIndex: int16, compare: ValueCompare, row1: Row, row2: Row): (r: int)
    requires InBounds(columnIndex, row1, row2)
    ensures r == -CompareRowsFuncOfIndexAscending(columnIndex, compare, row1, row2)
    ensures r == CompareRowsFuncOfIndexAscending(columnIndex, CompareDescending(compare), row1, row2)
  {
    -compare(row1[columnIndex], row2[columnIndex])
  }

  // ---------------------------------------------------------------------
  // Scanning column locator

  /** The values of row whose stored tag is tag, in row order. */
  function Matching(row: Row, tag: int16): (m: seq<Value>)
    ensures |m| <= |row|
    ensures forall k :: 0 <= k < |m| ==> m[k].columnTag == tag
  {
    if row == [] then []
    else (if row[0].columnTag == tag then [row[0]] else []) + Matching(row[1..], tag)
  }

  /** What the scanning comparator computes: the lexicographic order of the
      two runs of values stored for the column. */
  function ScanOrder(columnIndex: int16, compare: ValueCompare, row1: Row, row2: Row): int {
    var tag := Complement(columnIndex);
    LexCompare(compare, Matching(row1, tag), Matching(row2, tag))
  }

  /** One step of the scan: the values from position i on are the value at
      i, when it matches, followed by those after it. */
  lemma MatchingFrom(row: Row, i: nat, tag: int16)
    requires i < |row|
    ensures Matching(row[i..], tag) ==
      (if row[i].columnTag == tag then [row[i]] else []) + Matching(row[i + 1..], tag)
  {
    assert row[i..][0] == row[i];
    assert row[i..][1..] == row[i + 1..];
  }

  /** Advances a cursor past the values of other columns; the values of
      the column from the cursor on stay the same. */
  method SkipOtherColumns(row: Row, i: nat, tag: int16) returns (j: nat)
    requires i <= |row|
    ensures i <= j <= |row|
    ensures j < |row| ==> row[j].columnTag == tag
    ensures forall k :: i <= k < j ==> row[k].columnTag != tag
    ensures Matching(row[j..], tag) == Matching(row[i..], tag)
  {
    j := i;
    while j < |row| && row[j].columnTag != tag
      invariant i <= j <= |row|
      invariant forall k :: i <= k < j ==> row[k].columnTag != tag
      invariant Matching(row[j..], tag) == Matching(row[i..], tag)
    {
      MatchingFrom(row, j, tag);
      j := j + 1;
    }
  }

  /** The closure returned by compareRowsFuncOfScan, applied to two rows:
      one cursor per row skips values of other columns; two exhausted rows
      tie, an exhausted row is smaller, and otherwise the current pair is
      compared and the cursors advance on a tie. */
  method CompareRowsFuncOfScan(columnIndex: int16, compare: ValueCompare, row1: Row, row2: Row) returns (r: int)
    ensures r == ScanOrder(columnIndex, compare, row1, row2)
  {
    var tag := Complement(columnIndex);
    var i1, i2 := 0, 0;
    while true
      invariant 0 <= i1 <= |row1| && 0 <= i2 <= |row2|
      invariant ScanOrder(columnIndex, compare, row1, row2) ==
        LexCompare(compare, Matching(row1[i1..], tag), Matching(row2[i2..], tag))
      decreases |row1| - i1
    {
      i1 := SkipOtherColumns(row1, i1, tag);
      i2 := SkipOtherColumns(row2, i2, tag);

      var end1 := i1 == |row1|;
      var end2 := i2 == |row2|;
      if !end1 {
        MatchingFrom(row1, i1, tag);
      }
      if !end2 {
        MatchingFrom(row2, i2, tag);
      }

      if end1 && end2 {
        return 0;
      } else if end1 {
        return -1;
      } else if end2 {
        return 1;
      }
      var cmp := compare(row1[i1], row2[i2]);
      if cmp != 0 {
        return cmp;
      }
      i1 := i1 + 1;
      i2 := i2 + 1;
    }
  }

  // ---------------------------------------------------------------------
  // Meaning of the comparators

  /** The meaning of one column comparator; `None` is the index panic of
      the fast paths, which happens exactly when a row is too short. */
  function EvalColumn(c: ColumnComparator, row1: Row, row2: Row): (r: Option<int>)
    ensures r.None? <==> !c.Scan? && !InBounds(c.columnIndex, row1, row2)
  {
    match c
    case IndexAscending(i, compare) =>
      if InBounds(i, row1, row2) then Some(CompareRowsFuncOfIndexAscending(i, compare, row1, row2)) else None
    case IndexDescending(i, compare) =>
      if InBounds(i, row1, row2) then Some(CompareRowsFuncOfIndexDescending(i, compare, row1, row2)) else None
    case Scan(i, compare) =>
      Some(ScanOrder(i, compare, row1, row2))
  }

  /** compareRowsFuncOfColumns: the first comparator that does not tie
      decides; when all tie the rows are equal. */
  function EvalColumns(compareFuncs: seq<ColumnComparator>, row1: Row, row2: Row): (r: Option<int>)
    ensures (forall i :: 0 <= i < |compareFuncs| ==> compareFuncs[i].Scan?) ==> r.Some?
    decreases |compareFuncs|
  {
    if compareFuncs == [] then Some(0)
    else match EvalColumn(compareFuncs[0], row1, row2)
      case None => None
      case Some(cmp) => if cmp != 0 then Some(cmp) else EvalColumns(compareFuncs[1..], row1, row2)
  }

  function Eval(c: RowComparator, row1: Row, row2: Row): Option<int> {
    match c
    case Unordered => Some(0)
    case Single(f) => EvalColumn(f, row1, row2)
    case Lexicographic(fs) => EvalColumns(fs, row1, row2)
  }

  // ---------------------------------------------------------------------
  // Running the comparators

  method CompareColumn(c: ColumnComparator, row1: Row, row2: Row) returns (r: int)
    requires EvalColumn(c, row1, row2).Some?
    ensures EvalColumn(c, row1, row2) == Some(r)
  {
    match c
    case IndexAscending(i, compare) =>
      r := CompareRowsFuncOfIndexAscending(i, compare, row1, row2);
    case IndexDescending(i, compare) =>
      r := CompareRowsFuncOfIndexDescending(i, compare, row1, row2);
    case Scan(i, compare) =>
      r := CompareRowsFuncOfScan(i, compare, row1, row2);
  }

  /** The closure returned by compareRowsFuncOfColumns, applied to two rows. */
  method CompareRowsFuncOfColumns(compareFuncs: seq<ColumnComparator>, row1: Row, row2: Row) returns (r: int)
    requires EvalColumns(compareFuncs, row1, row2).Some?
    ensures EvalColumns(compareFuncs, row1, row2) == Some(r)
  {
    for k := 0 to |compareFuncs|
      invariant EvalColumns(compareFuncs, row1, row2) == EvalColumns(compareFuncs[k..], row1, row2)
    {
      assert compareFuncs[k..][1..] == compareFuncs[k + 1..];
      var cmp := CompareColumn(compareFuncs[k], row1, row2);
      if cmp != 0 {
        return cmp;
      }
    }
    return 0;
  }

  /** The comparator compareRowsFuncOf returns, applied to two rows. */
  method CompareRows(c: RowComparator, row1: Row, row2: Row) returns (r: int)
    requires Eval(c, row1, row2).Some?
    ensures Eval(c, row1, row2) == Some(r)
  {
    match c
    case Unordered =>
      r := 0;
    case Single(f) =>
      r := CompareColumn(f, row1, row2);
    case Lexicographic(fs) =>
      r := CompareRowsFuncOfColumns(fs, row1, row2);
  }
}
