/**
  Worked instances of the synthesizer on a two-column schema
  {id: int64, required; tag: byte array, optional and repeated}, with a
  lookup of sort entries by path, plus the general fact that a sort entry
  whose path names no leaf changes nothing under that lookup.
 */
module Examples {
  import opened Values
  import opened Orderings
  import opened Primitives
  import opened Combinators
  import opened RowCompare
  import opened RowLaws
  import opened Synthesis
  import opened SynthesisLaws

  /** A lookup of the first entry whose path is the leaf's path, or the
      number of entries when there is none. */
  function SearchByPath(sortingColumns: seq<SortingColumn>, path: Path): (k: nat)
    ensures k <= |sortingColumns|
    ensures k < |sortingColumns| ==> sortingColumns[k].path == path
    ensures forall i :: 0 <= i < k ==> sortingColumns[i].path != path
  {
    if sortingColumns == [] then 0
    else if sortingColumns[0].path == path then 0
    else 1 + SearchByPath(sortingColumns[1..], path)
  }

  /** The int64 column type's comparator: a missing or other payload reads
      as zero. */
  function Int64Of(v: Value): int64 {
    match v.payload
    case Some(Int64(x)) => x
    case _ => 0
  }

  function CompareInt64Values(a: Value, b: Value): int {
    CompareInt64(Int64Of(a), Int64Of(b))
  }

  /** The byte-array column type's comparator: unsigned lexicographic order
      of the bytes. */
  function BytesOf(v: Value): seq<uint8> {
    match v.payload
    case Some(ByteArray(s)) => s
    case _ => []
  }

  function CompareByteArrayValues(a: Value, b: Value): int {
    LexCompare(CompareByte, BytesOf(a), BytesOf(b))
  }

  const IdLeaf := Leaf(["id"], 0, 0, 0, CompareInt64Values)
  const TagLeaf := Leaf(["tag"], 1, 1, 1, CompareByteArrayValues)
  const Schema := [IdLeaf, TagLeaf]

  function IdValue(x: int64): Value {
    Value(Complement(0), Some(Int64(x)))
  }

  function TagValue(s: seq<uint8>): Value {
    Value(Complement(1), Some(ByteArray(s)))
  }

  /** Sorting by id, a required leaf visited before any repeated one, takes
      the positional fast path, and id 5 sorts after id 3. */
  lemma SortById()
    ensures var sorting := [SortingColumn(["id"], false, false)];
      && Synthesized(Schema, sorting, SearchByPath) == Single(IndexAscending(0, CompareInt64Values))
      && Eval(Synthesized(Schema, sorting, SearchByPath), [IdValue(5)], [IdValue(3)]) == Some(1)
  {
    var sorting := [SortingColumn(["id"], false, false)];
    assert SearchByPath(sorting, TagLeaf.path) == 1;
    assert SearchByPath(sorting, IdLeaf.path) == 0;
    var slots1 := SlotsAfter(Schema, sorting, SearchByPath, 1);
    assert slots1 == [Some(IndexAscending(0, CompareInt64Values))];
    assert SlotsAfter(Schema, sorting, SearchByPath, 2) == slots1;
    assert Compacted(slots1) == [IndexAscending(0, CompareInt64Values)] by {
      CompactedSingleton(slots1[0]);
    }
  }

  /** Sorting by id keeps the fast path even though the repeated tag
      column after it holds two values in one row and none in the other;
      the fast path gives what a scan of the id column gives. */
  lemma SortByIdWithRepeatedTags()
    ensures var sorting := [SortingColumn(["id"], false, false)];
      var row1, row2 := [IdValue(5), TagValue([97]), TagValue([98])], [IdValue(3)];
      && Eval(Synthesized(Schema, sorting, SearchByPath), row1, row2) == Some(1)
      && EvalColumn(Scan(0, CompareInt64Values), row1, row2) == Some(1)
  {
    var row1, row2 := [IdValue(5), TagValue([97]), TagValue([98])], [IdValue(3)];
    SortById();
    assert DirectUpTo(row1, 0) && DirectUpTo(row2, 0);
    FastPathAgreesWithScan(0, CompareInt64Values, row1, row2);
  }

  /** Sorting by tag, a repeated leaf, scans the row; a row whose tag values
      extend the other's sorts after it. */
  lemma SortByTag()
    ensures var sorting := [SortingColumn(["tag"], false, true)];
      var a, b := [97 as uint8], [98 as uint8];
      Eval(Synthesized(Schema, sorting, SearchByPath), [TagValue(a), TagValue(b)], [TagValue(a)]) == Some(1)
  {
    var sorting := [SortingColumn(["tag"], false, true)];
    var a, b := [97 as uint8], [98 as uint8];
    assert SearchByPath(sorting, IdLeaf.path) == 1;
    assert SearchByPath(sorting, TagLeaf.path) == 0;
    var compare := CompareNullsFirst(CompareByteArrayValues);
    assert WrapCompare(CompareByteArrayValues, sorting[0], true) == compare;
    var slots := SlotsAfter(Schema, sorting, SearchByPath, 2);
    assert slots == [Some(Scan(1, compare))];
    CompactedSingleton(slots[0]);
    var row1, row2 := [TagValue(a), TagValue(b)], [TagValue(a)];
    var tag := Complement(1);
    assert Matching(row1, tag) == row1 by {
      assert row1[1..][1..] == [];
    }
    assert Matching(row2, tag) == row2;
    assert compare(TagValue(a), TagValue(a)) == 0 by {
      LexCommonPrefix(CompareByte, a, a);
    }
    assert row1[1..] == [TagValue(b)] && row2[1..] == [];
    assert LexCompare(compare, [TagValue(b)], []) == 1;
    assert LexCompare(compare, row1, row2) == 1;
    assert Synthesized(Schema, sorting, SearchByPath) == Single(Scan(1, compare));
  }

  /** Descending order with nulls first: a missing id still sorts before a
      present one. */
  lemma DescendingNullsFirst()
    ensures var idOpt := Leaf(["id"], 0, 0, 1, CompareInt64Values);
      var sorting := [SortingColumn(["id"], true, true)];
      Eval(Synthesized([idOpt], sorting, SearchByPath), [Value(Complement(0), None)], [IdValue(3)]) == Some(-1)
  {
    var idOpt := Leaf(["id"], 0, 0, 1, CompareInt64Values);
    var sorting := [SortingColumn(["id"], true, true)];
    assert SearchByPath(sorting, idOpt.path) == 0;
    var compare := CompareNullsFirst(CompareDescending(CompareInt64Values));
    assert WrapCompare(CompareInt64Values, sorting[0], true) == compare;
    var slots := SlotsAfter([idOpt], sorting, SearchByPath, 1);
    assert slots == [Some(Scan(0, compare))];
    CompactedSingleton(slots[0]);
    var row1, row2 := [Value(Complement(0), None)], [IdValue(3)];
    assert Matching(row1, Complement(0)) == row1;
    assert Matching(row2, Complement(0)) == row2;
    SingletonLex(compare, row1[0], row2[0]);
  }

  /** Under the lookup by path, an entry inserted at position k with a
      path other than the one looked up is never found, and the other
      entries are found where they moved to. */
  lemma {:induction false} SearchWithUnknownEntry(sortingColumns: seq<SortingColumn>, k: nat, unknown: SortingColumn, path: Path)
    requires k <= |sortingColumns|
    requires path != unknown.path
    ensures LookupSkips(sortingColumns, k, unknown, SearchByPath, path)
    decreases k
  {
    var extended := InsertedAt(sortingColumns, k, unknown);
    if k == 0 {
      assert extended[1..] == sortingColumns;
    } else {
      assert extended[1..] == InsertedAt(sortingColumns[1..], k - 1, unknown);
      SearchWithUnknownEntry(sortingColumns[1..], k - 1, unknown, path);
    }
  }

  /** Under the lookup by path, a sort entry naming a path no leaf has,
      inserted anywhere in the sort specification, yields a comparator
      identical to the one built without it. */
  lemma UnknownEntryIgnored(leaves: seq<Leaf>, sortingColumns: seq<SortingColumn>, k: nat, unknown: SortingColumn)
    requires k <= |sortingColumns|
    requires forall j :: 0 <= j < |leaves| ==> leaves[j].path != unknown.path
    ensures Synthesized(leaves, sortingColumns[..k] + [unknown] + sortingColumns[k..], SearchByPath) ==
      Synthesized(leaves, sortingColumns, SearchByPath)
  {
    forall j | 0 <= j < |leaves| ensures LookupSkips(sortingColumns, k, unknown, SearchByPath, leaves[j].path) {
      SearchWithUnknownEntry(sortingColumns, k, unknown, leaves[j].path);
    }
    SkippedEntryDropped(leaves, sortingColumns, k, unknown, SearchByPath);
  }

  /** Sorting by [unknown, id] is sorting by id. */
  lemma UnknownThenId()
    ensures Synthesized(Schema, [SortingColumn(["nope"], false, false), SortingColumn(["id"], false, false)], SearchByPath) ==
      Single(IndexAscending(0, CompareInt64Values))
  {
    var sorting := [SortingColumn(["id"], false, false)];
    assert sorting[..0] + [SortingColumn(["nope"], false, false)] + sorting[0..] ==
      [SortingColumn(["nope"], false, false), SortingColumn(["id"], false, false)];
    UnknownEntryIgnored(Schema, sorting, 0, SortingColumn(["nope"], false, false));
    SortById();
  }
}
