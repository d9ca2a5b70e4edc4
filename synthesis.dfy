/**
  compareRowsFuncOf: turning a schema's leaf columns and a sort
  specification into one row comparator.

  The leaves arrive in the order the schema traversal visits them. For each
  leaf named by a sort entry a column comparator is built, taking the
  positional fast path when the leaf is required and no repeated leaf has
  been visited so far, and the scanning path otherwise; it is stored in the
  slot of its sort entry. Empty slots (entries naming no leaf) are then
  compacted away and the survivors combined.

  The lookup of a leaf's sort entry (searchSortingColumn) is a parameter:
  any result not below the number of entries means "not named".
 */
module Synthesis {
  import opened Values
  import opened Combinators
  import opened RowCompare

  type Path = seq<string>

  /** A leaf column as the schema traversal yields it. */
  datatype Leaf = Leaf(
    path: Path,
    columnIndex: int16,
    maxRepetitionLevel: uint8,
    maxDefinitionLevel: uint8,
    compare: ValueCompare)

  /** One sort key. */
  datatype SortingColumn = SortingColumn(path: Path, descending: bool, nullsFirst: bool)

  /** searchSortingColumn: the index of the entry naming a path. */
  type Search = (seq<SortingColumn>, Path) -> nat

  /** The value of the direct flag once the first n leaves were visited: no
      repeated leaf among them. */
  predicate DirectBefore(leaves: seq<Leaf>, n: nat)
    requires n <= |leaves|
  {
    forall j :: 0 <= j < n ==> leaves[j].maxRepetitionLevel == 0
  }

  /** The general path's value comparator: the type's order, reversed for
      a descending entry, then with nulls placed for an optional leaf. */
  function WrapCompare(compare: ValueCompare, sorting: SortingColumn, optional: bool): ValueCompare {
    var ordered := if sorting.descending then CompareDescending(compare) else compare;
    if !optional then ordered
    else if sorting.nullsFirst then CompareNullsFirst(ordered)
    else CompareNullsLast(ordered)
  }

  /** The comparator built for a leaf named by a sort entry, given the
      direct flag at that point of the traversal. */
  function SortFunc(leaf: Leaf, sorting: SortingColumn, direct: bool): (c: ColumnComparator)
    ensures c.columnIndex == leaf.columnIndex
    ensures c.Scan? <==> !direct || leaf.maxDefinitionLevel > 0
  {
    var optional := leaf.maxDefinitionLevel > 0;
    if direct && !optional then
      if sorting.descending then IndexDescending(leaf.columnIndex, leaf.compare)
      else IndexAscending(leaf.columnIndex, leaf.compare)
    else
      Scan(leaf.columnIndex, WrapCompare(leaf.compare, sorting, optional))
  }

  /** The slots once the first n leaves were visited: a leaf named by entry
      k overwrites slot k. */
  function SlotsAfter(leaves: seq<Leaf>, sortingColumns: seq<SortingColumn>, search: Search, n: nat): (slots: seq<Option<ColumnComparator>>)
    requires n <= |leaves|
    ensures |slots| == |sortingColumns|
  {
    if n == 0 then seq(|sortingColumns|, _ => Option<ColumnComparator>.None)
    else
      var slots := SlotsAfter(leaves, sortingColumns, search, n - 1);
      var leaf := leaves[n - 1];
      var k := search(sortingColumns, leaf.path);
      if k < |sortingColumns| then slots[k := Some(SortFunc(leaf, sortingColumns[k], DirectBefore(leaves, n)))]
      else slots
  }

  /** The comparators held by the non-empty slots, in slot order. */
  function Compacted(slots: seq<Option<ColumnComparator>>): (fs: seq<ColumnComparator>)
    ensures |fs| <= |slots|
  {
    if slots == [] then []
    else
      var last := slots[|slots| - 1];
      Compacted(slots[..|slots| - 1]) + (if last.Some? then [last.value] else [])
  }

  /** The final switch on the number of comparators. */
  function Composed(compareFuncs: seq<ColumnComparator>): (c: RowComparator)
    ensures c.Unordered? <==> compareFuncs == []
    ensures c.Single? <==> |compareFuncs| == 1
  {
    if |compareFuncs| == 0 then Unordered
    else if |compareFuncs| == 1 then Single(compareFuncs[0])
    else Lexicographic(compareFuncs)
  }

  /** What compareRowsFuncOf returns. */
  function Synthesized(leaves: seq<Leaf>, sortingColumns: seq<SortingColumn>, search: Search): RowComparator {
    Composed(Compacted(SlotsAfter(leaves, sortingColumns, search, |leaves|)))
  }

  // ---------------------------------------------------------------------
  // The imperative synthesis

  /** Compacts the slots in place with a running counter n, moving every
      non-empty slot down to position n. */
  method CompactSlots(compareFuncs: array<Option<ColumnComparator>>) returns (n: nat)
    modifies compareFuncs
    ensures n == |Compacted(old(compareFuncs[..]))|
    ensures forall k :: 0 <= k < n ==> compareFuncs[k] == Some(Compacted(old(compareFuncs[..]))[k])
    ensures compareFuncs[n..] == old(compareFuncs[n..])
  {
    ghost var slots := compareFuncs[..];
    n := 0;
    for i := 0 to compareFuncs.Length
      invariant n <= i
      invariant forall k :: n <= k < compareFuncs.Length ==> compareFuncs[k] == slots[k]
      invariant n == |Compacted(slots[..i])|
      invariant forall k :: 0 <= k < n ==> compareFuncs[k] == Some(Compacted(slots[..i])[k])
    {
      assert slots[..i + 1][..i] == slots[..i];
      var f := compareFuncs[i];
      assert f == slots[i];
      if f.Some? {
        compareFuncs[n] := f;
        n := n + 1;
      }
    }
    assert slots[..compareFuncs.Length] == slots;
    assert compareFuncs[n..] == slots[n..];
  }

  /** compareRowsFuncOf. */
  method CompareRowsFuncOf(leaves: seq<Leaf>, sortingColumns: seq<SortingColumn>, search: Search) returns (c: RowComparator)
    ensures c == Synthesized(leaves, sortingColumns, search)
  {
    var compareFuncs := new Option<ColumnComparator>[|sortingColumns|](_ => None);
    var direct := true;

    for i := 0 to |leaves|
      invariant compareFuncs[..] == SlotsAfter(leaves, sortingColumns, search, i)
      invariant direct == DirectBefore(leaves, i)
    {
      var leaf := leaves[i];
      if leaf.maxRepetitionLevel > 0 {
        direct := false;
      }
      assert direct == DirectBefore(leaves, i + 1);

      var sortingIndex := search(sortingColumns, leaf.path);
      if sortingIndex < |sortingColumns| {
        var sortingColumn := sortingColumns[sortingIndex];
        var descending := sortingColumn.descending;
        var optional := leaf.maxDefinitionLevel > 0;
        var sortFunc: ColumnComparator;

        if direct && !optional {
          if descending {
            sortFunc := IndexDescending(leaf.columnIndex, leaf.compare);
          } else {
            sortFunc := IndexAscending(leaf.columnIndex, leaf.compare);
          }
        } else {
          var compare := leaf.compare;
          if descending {
            compare := CompareDescending(compare);
          }
          if optional {
            if sortingColumn.nullsFirst {
              compare := CompareNullsFirst(compare);
            } else {
              compare := CompareNullsLast(compare);
            }
          }
          sortFunc := Scan(leaf.columnIndex, compare);
        }
        assert sortFunc == SortFunc(leaf, sortingColumn, direct);

        compareFuncs[sortingIndex] := Some(sortFunc);
      }
    }

    ghost var fs := Compacted(compareFuncs[..]);
    var n := CompactSlots(compareFuncs);

    if n == 0 {
      c := Unordered;
    } else if n == 1 {
      c := Single(compareFuncs[0].value);
    } else {
      var prefix: seq<ColumnComparator> := [];
      for k := 0 to n
        invariant prefix == fs[..k]
      {
        prefix := prefix + [compareFuncs[k].value];
      }
      assert prefix == fs;
      c := Lexicographic(prefix);
    }
  }
}
