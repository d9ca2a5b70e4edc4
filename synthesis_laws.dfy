/**
  What compareRowsFuncOf guarantees: which comparator each leaf gets, what
  each slot holds after the traversal, that compaction keeps the filled
  slots in order, that the final switch agrees with "first non-zero wins",
  and that the synthesized comparator is an ordering of rows whenever the
  column types' comparators are.
 */
module SynthesisLaws {
  import opened Values
  import opened Orderings
  import opened Combinators
  import opened RowCompare
  import opened RowLaws
  import opened Synthesis

  // ---------------------------------------------------------------------
  // The comparator of one leaf

  /** The fast path is taken exactly for a required leaf while the direct
      flag holds; it keeps the type's comparator and the leaf's position,
      and the entry's direction picks ascending or descending. */
  lemma SortFuncPath(leaf: Leaf, sorting: SortingColumn, direct: bool)
    ensures SortFunc(leaf, sorting, direct).columnIndex == leaf.columnIndex
    ensures !SortFunc(leaf, sorting, direct).Scan? <==> direct && leaf.maxDefinitionLevel == 0
    ensures SortFunc(leaf, sorting, direct).IndexDescending? ==> sorting.descending
    ensures SortFunc(leaf, sorting, direct).IndexAscending? ==> !sorting.descending
    ensures !SortFunc(leaf, sorting, direct).Scan? ==> SortFunc(leaf, sorting, direct).compare == leaf.compare
  {
  }

  /** On two non-null values the general path's comparator is the type's
      order, reversed for a descending entry. */
  lemma WrapValueOrder(compare: ValueCompare, sorting: SortingColumn, optional: bool, a: Value, b: Value)
    requires !a.IsNull() && !b.IsNull()
    ensures WrapCompare(compare, sorting, optional)(a, b) ==
      if sorting.descending then -compare(a, b) else compare(a, b)
  {
  }

  /** For an optional leaf, nulls tie with each other and go before or after
      every non-null value as the entry says, whatever the direction: the
      reversal is applied first and the null placement over it. */
  lemma WrapNullPlacement(compare: ValueCompare, sorting: SortingColumn, a: Value, b: Value)
    requires a.IsNull()
    ensures WrapCompare(compare, sorting, true)(a, b) ==
      if b.IsNull() then 0 else if sorting.nullsFirst then -1 else 1
    ensures WrapCompare(compare, sorting, true)(b, a) ==
      if b.IsNull() then 0 else if sorting.nullsFirst then 1 else -1
  {
  }

  /** For a required leaf no null placement is added: the type's comparator
      (possibly reversed) sees every pair. */
  lemma WrapRequired(compare: ValueCompare, sorting: SortingColumn, a: Value, b: Value)
    ensures WrapCompare(compare, sorting, false)(a, b) ==
      if sorting.descending then -compare(a, b) else compare(a, b)
  {
  }

  lemma WrapPreservesOrdering(compare: ValueCompare, sorting: SortingColumn, optional: bool)
    requires IsOrdering(compare)
    ensures IsOrdering(WrapCompare(compare, sorting, optional))
  {
    var ordered := if sorting.descending then CompareDescending(compare) else compare;
    if sorting.descending {
      DescendingPreservesOrdering(compare);
    }
    if optional {
      if sorting.nullsFirst {
        NullsFirstPreservesOrdering(ordered);
      } else {
        NullsLastPreservesOrdering(ordered);
      }
    }
  }

  lemma SortFuncPreservesOrdering(leaf: Leaf, sorting: SortingColumn, direct: bool)
    requires IsOrdering(leaf.compare)
    ensures IsOrdering(SortFunc(leaf, sorting, direct).compare)
  {
    WrapPreservesOrdering(leaf.compare, sorting, leaf.maxDefinitionLevel > 0);
  }

  // ---------------------------------------------------------------------
  // The direct flag

  /** Once a repeated leaf has been visited the flag stays cleared. */
  lemma DirectBeforeMonotonic(leaves: seq<Leaf>, m: nat, n: nat)
    requires m <= n <= |leaves|
    ensures DirectBefore(leaves, n) ==> DirectBefore(leaves, m)
  {
  }

  // ---------------------------------------------------------------------
  // The slots after the traversal

  /** A slot stays empty exactly when no visited leaf is named by its
      entry. */
  lemma {:induction false} SlotEmptyIff(leaves: seq<Leaf>, sortingColumns: seq<SortingColumn>, search: Search, n: nat, k: nat)
    requires n <= |leaves| && k < |sortingColumns|
    ensures SlotsAfter(leaves, sortingColumns, search, n)[k].None? <==>
      forall j :: 0 <= j < n ==> search(sortingColumns, leaves[j].path) != k
  {
    if n > 0 {
      SlotEmptyIff(leaves, sortingColumns, search, n - 1, k);
    }
  }

  /** A filled slot holds the comparator of the last visited leaf named by
      its entry, built with the direct flag as it stood after that leaf. */
  lemma {:induction false} SlotOfLastLeaf(leaves: seq<Leaf>, sortingColumns: seq<SortingColumn>, search: Search, n: nat, k: nat, j: nat)
    requires j < n <= |leaves| && k < |sortingColumns|
    requires search(sortingColumns, leaves[j].path) == k
    requires forall i :: j < i < n ==> search(sortingColumns, leaves[i].path) != k
    ensures SlotsAfter(leaves, sortingColumns, search, n)[k] ==
      Some(SortFunc(leaves[j], sortingColumns[k], DirectBefore(leaves, j + 1)))
  {
    if n > j + 1 {
      SlotOfLastLeaf(leaves, sortingColumns, search, n - 1, k, j);
    }
  }

  /** Every filled slot holds a comparator that is an ordering. */
  ghost predicate FilledOrdered(slots: seq<Option<ColumnComparator>>) {
    forall k :: 0 <= k < |slots| && slots[k].Some? ==> IsOrdering(slots[k].value.compare)
  }

  /** Every filled slot holds an ordering when every leaf's type comparator
      is one. */
  lemma {:induction false} SlotsAreOrdered(leaves: seq<Leaf>, sortingColumns: seq<SortingColumn>, search: Search, n: nat)
    requires n <= |leaves|
    requires forall j :: 0 <= j < |leaves| ==> IsOrdering(leaves[j].compare)
    ensures FilledOrdered(SlotsAfter(leaves, sortingColumns, search, n))
  {
    if n > 0 {
      SlotsAreOrdered(leaves, sortingColumns, search, n - 1);
      var prev := SlotsAfter(leaves, sortingColumns, search, n - 1);
      var slots := SlotsAfter(leaves, sortingColumns, search, n);
      var leaf := leaves[n - 1];
      var k := search(sortingColumns, leaf.path);
      forall i | 0 <= i < |slots| && slots[i].Some? ensures IsOrdering(slots[i].value.compare) {
        if k < |sortingColumns| && i == k {
          SortFuncPreservesOrdering(leaf, sortingColumns[k], DirectBefore(leaves, n));
        } else {
          assert slots[i] == prev[i];
        }
      }
    }
  }

  // ---------------------------------------------------------------------
  // Compaction

  /** Compaction distributes over concatenation, so it keeps the filled
      slots in their relative order. */
  lemma {:induction false} CompactedAppend(a: seq<Option<ColumnComparator>>, b: seq<Option<ColumnComparator>>)
    ensures Compacted(a + b) == Compacted(a) + Compacted(b)
    decreases |b|
  {
    if b == [] {
      assert a + b == a;
    } else {
      var b' := b[..|b| - 1];
      assert (a + b)[..|a + b| - 1] == a + b';
      CompactedAppend(a, b');
    }
  }

  /** An empty slot contributes nothing; a filled one contributes its
      comparator. */
  lemma CompactedSingleton(slot: Option<ColumnComparator>)
    ensures Compacted([slot]) == if slot.Some? then [slot.value] else []
  {
    assert [slot][..0] == [];
  }

  /** The comparators kept are exactly those of the filled slots. */
  lemma {:induction false} CompactedMembers(slots: seq<Option<ColumnComparator>>, f: ColumnComparator)
    ensures f in Compacted(slots) <==> Some(f) in slots
    decreases |slots|
  {
    if slots != [] {
      var init := slots[..|slots| - 1];
      CompactedMembers(init, f);
      assert slots == init + [slots[|slots| - 1]];
    }
  }

  /** Nothing is dropped when every slot is filled. */
  lemma {:induction false} CompactedFull(slots: seq<Option<ColumnComparator>>)
    requires forall k :: 0 <= k < |slots| ==> slots[k].Some?
    ensures |Compacted(slots)| == |slots|
    ensures forall k :: 0 <= k < |slots| ==> Compacted(slots)[k] == slots[k].value
    decreases |slots|
  {
    if slots != [] {
      CompactedFull(slots[..|slots| - 1]);
    }
  }

  /** Removing an empty slot leaves the compaction unchanged. */
  lemma DropEmptySlot(slots: seq<Option<ColumnComparator>>, k: nat)
    requires k < |slots| && slots[k].None?
    ensures Compacted(slots) == Compacted(slots[..k] + slots[k + 1..])
  {
    var front, back := slots[..k], slots[k + 1..];
    assert slots == (front + [slots[k]]) + back;
    CompactedAppend(front + [slots[k]], back);
    CompactedAppend(front, [slots[k]]);
    CompactedSingleton(slots[k]);
    assert Compacted(front + [slots[k]]) == Compacted(front);
    CompactedAppend(front, back);
  }

  /** Every compacted comparator is an ordering when every filled slot
      holds one. */
  lemma CompactedOrdered(slots: seq<Option<ColumnComparator>>)
    requires FilledOrdered(slots)
    ensures OrderedColumns(Compacted(slots))
  {
    var fs := Compacted(slots);
    forall i | 0 <= i < |fs| ensures IsOrdering(fs[i].compare) {
      CompactedMembers(slots, fs[i]);
      var k :| 0 <= k < |slots| && slots[k] == Some(fs[i]);
    }
  }

  // ---------------------------------------------------------------------
  // The final switch

  /** Choosing compareRowsUnordered, the single comparator, or
      compareRowsFuncOfColumns by the number of comparators is the same as
      always combining them lexicographically. */
  lemma ComposedIsLexicographic(compareFuncs: seq<ColumnComparator>, row1: Row, row2: Row)
    ensures Eval(Composed(compareFuncs), row1, row2) == EvalColumns(compareFuncs, row1, row2)
  {
    if |compareFuncs| == 1 {
      assert compareFuncs[1..] == [];
    }
  }

  // ---------------------------------------------------------------------
  // The synthesized comparator

  /** A sort entry naming no leaf is dropped: the result is what the slots
      without that entry's slot give. */
  lemma UnmatchedEntryDropped(leaves: seq<Leaf>, sortingColumns: seq<SortingColumn>, search: Search, k: nat)
    requires k < |sortingColumns|
    requires forall j :: 0 <= j < |leaves| ==> search(sortingColumns, leaves[j].path) != k
    ensures var slots := SlotsAfter(leaves, sortingColumns, search, |leaves|);
      Synthesized(leaves, sortingColumns, search) == Composed(Compacted(slots[..k] + slots[k + 1..]))
  {
    SlotEmptyIff(leaves, sortingColumns, search, |leaves|, k);
    DropEmptySlot(SlotsAfter(leaves, sortingColumns, search, |leaves|), k);
  }

  /** The sort entries with extra inserted at position k. */
  function InsertedAt(sortingColumns: seq<SortingColumn>, k: nat, extra: SortingColumn): (r: seq<SortingColumn>)
    requires k <= |sortingColumns|
    ensures |r| == |sortingColumns| + 1 && r[k] == extra
    ensures forall i :: 0 <= i < |sortingColumns| ==> r[Shifted(i, k)] == sortingColumns[i]
  {
    sortingColumns[..k] + [extra] + sortingColumns[k..]
  }

  /** Where entry i moves when an entry is inserted at position k. */
  function Shifted(i: nat, k: nat): nat {
    if i < k then i else i + 1
  }

  /** The lookup never returns the entry inserted at position k for path,
      and finds the other entries where they moved to. */
  ghost predicate LookupSkips(sortingColumns: seq<SortingColumn>, k: nat, extra: SortingColumn, search: Search, path: Path)
    requires k <= |sortingColumns|
  {
    var s, s' := search(sortingColumns, path), search(InsertedAt(sortingColumns, k, extra), path);
    if s < |sortingColumns| then s' == Shifted(s, k) else s' > |sortingColumns|
  }

  /** Updating a slot, then inserting an empty slot at k, is inserting first
      and updating the slot where it moved. */
  lemma InsertThenUpdate(slots: seq<Option<ColumnComparator>>, k: nat, s: nat, v: Option<ColumnComparator>)
    requires k <= |slots| && s < |slots|
    ensures (slots[..k] + [None] + slots[k..])[Shifted(s, k) := v] ==
      slots[s := v][..k] + [None] + slots[s := v][k..]
  {
    var lhs := (slots[..k] + [None] + slots[k..])[Shifted(s, k) := v];
    var rhs := slots[s := v][..k] + [None] + slots[s := v][k..];
    assert |lhs| == |rhs|;
    forall i | 0 <= i < |lhs| ensures lhs[i] == rhs[i] {
      if i < k {
      } else if i == k {
      } else {
        assert rhs[i] == slots[s := v][i - 1];
      }
    }
  }

  /** Inserting an entry the lookup never returns adds one empty slot at
      its position and leaves the others as they were. */
  lemma {:induction false} SlotsWithSkippedEntry(leaves: seq<Leaf>, sortingColumns: seq<SortingColumn>, k: nat, extra: SortingColumn, search: Search, n: nat)
    requires n <= |leaves| && k <= |sortingColumns|
    requires forall j :: 0 <= j < |leaves| ==> LookupSkips(sortingColumns, k, extra, search, leaves[j].path)
    ensures var slots := SlotsAfter(leaves, sortingColumns, search, n);
      SlotsAfter(leaves, InsertedAt(sortingColumns, k, extra), search, n) == slots[..k] + [None] + slots[k..]
  {
    var extended := InsertedAt(sortingColumns, k, extra);
    if n == 0 {
      var slots := SlotsAfter(leaves, sortingColumns, search, 0);
      assert SlotsAfter(leaves, extended, search, 0) == slots[..k] + [None] + slots[k..];
    } else {
      SlotsWithSkippedEntry(leaves, sortingColumns, k, extra, search, n - 1);
      var prev := SlotsAfter(leaves, sortingColumns, search, n - 1);
      var leaf := leaves[n - 1];
      assert LookupSkips(sortingColumns, k, extra, search, leaf.path);
      var s := search(sortingColumns, leaf.path);
      if s < |sortingColumns| {
        var v := Some(SortFunc(leaf, sortingColumns[s], DirectBefore(leaves, n)));
        assert extended[Shifted(s, k)] == sortingColumns[s];
        InsertThenUpdate(prev, k, s, v);
      }
    }
  }

  /** A sort entry the lookup never returns for any leaf, inserted at any
      position, gives the same comparator as leaving the entry out. */
  lemma SkippedEntryDropped(leaves: seq<Leaf>, sortingColumns: seq<SortingColumn>, k: nat, extra: SortingColumn, search: Search)
    requires k <= |sortingColumns|
    requires forall j :: 0 <= j < |leaves| ==> LookupSkips(sortingColumns, k, extra, search, leaves[j].path)
    ensures Synthesized(leaves, InsertedAt(sortingColumns, k, extra), search) == Synthesized(leaves, sortingColumns, search)
  {
    var slots := SlotsAfter(leaves, sortingColumns, search, |leaves|);
    SlotsWithSkippedEntry(leaves, sortingColumns, k, extra, search, |leaves|);
    var withEmpty := slots[..k] + [None] + slots[k..];
    assert withEmpty[k].None?;
    assert withEmpty[..k] + withEmpty[k + 1..] == slots;
    DropEmptySlot(withEmpty, k);
  }

  /** When no entry names any leaf the rows are unordered. */
  lemma NothingNamed(leaves: seq<Leaf>, sortingColumns: seq<SortingColumn>, search: Search)
    requires forall j :: 0 <= j < |leaves| ==> search(sortingColumns, leaves[j].path) >= |sortingColumns|
    ensures Synthesized(leaves, sortingColumns, search) == Unordered
  {
    var slots := SlotsAfter(leaves, sortingColumns, search, |leaves|);
    forall k | 0 <= k < |slots| ensures slots[k].None? {
      SlotEmptyIff(leaves, sortingColumns, search, |leaves|, k);
    }
    if Compacted(slots) != [] {
      CompactedMembers(slots, Compacted(slots)[0]);
    }
  }

  /** Some leaf is named by entry k. */
  ghost predicate Named(leaves: seq<Leaf>, sortingColumns: seq<SortingColumn>, search: Search, k: nat) {
    exists j :: 0 <= j < |leaves| && search(sortingColumns, leaves[j].path) == k
  }

  /** When every entry names a leaf, the comparator of entry k is the k-th
      one consulted. */
  lemma EveryEntryNamed(leaves: seq<Leaf>, sortingColumns: seq<SortingColumn>, search: Search)
    requires forall k: nat :: k < |sortingColumns| ==> Named(leaves, sortingColumns, search, k)
    ensures var slots := SlotsAfter(leaves, sortingColumns, search, |leaves|);
      && |Compacted(slots)| == |sortingColumns|
      && forall k :: 0 <= k < |sortingColumns| ==> Some(Compacted(slots)[k]) == slots[k]
  {
    var slots := SlotsAfter(leaves, sortingColumns, search, |leaves|);
    forall k | 0 <= k < |slots| ensures slots[k].Some? {
      assert Named(leaves, sortingColumns, search, k);
      var j :| 0 <= j < |leaves| && search(sortingColumns, leaves[j].path) == k;
      SlotEmptyIff(leaves, sortingColumns, search, |leaves|, k);
    }
    CompactedFull(slots);
  }

  /** A leaf visited before the first repeated leaf gets the fast path when
      it is required and is the last leaf its entry names, whatever leaves
      come after it. */
  lemma FastPathBeforeFirstRepeated(leaves: seq<Leaf>, sortingColumns: seq<SortingColumn>, search: Search, j: nat, k: nat)
    requires j < |leaves| && k < |sortingColumns|
    requires search(sortingColumns, leaves[j].path) == k
    requires forall i :: j < i < |leaves| ==> search(sortingColumns, leaves[i].path) != k
    requires forall i :: 0 <= i <= j ==> leaves[i].maxRepetitionLevel == 0
    requires leaves[j].maxDefinitionLevel == 0
    ensures SlotsAfter(leaves, sortingColumns, search, |leaves|)[k] ==
      Some(if sortingColumns[k].descending then IndexDescending(leaves[j].columnIndex, leaves[j].compare)
           else IndexAscending(leaves[j].columnIndex, leaves[j].compare))
  {
    SlotOfLastLeaf(leaves, sortingColumns, search, |leaves|, k, j);
  }

  /** A named leaf visited after a repeated leaf always gets the scanning
      comparator. */
  lemma ScanAfterRepeated(leaves: seq<Leaf>, sortingColumns: seq<SortingColumn>, search: Search, j: nat, k: nat, r: nat)
    requires r <= j < |leaves| && k < |sortingColumns|
    requires leaves[r].maxRepetitionLevel > 0
    requires search(sortingColumns, leaves[j].path) == k
    requires forall i :: j < i < |leaves| ==> search(sortingColumns, leaves[i].path) != k
    ensures SlotsAfter(leaves, sortingColumns, search, |leaves|)[k] ==
      Some(Scan(leaves[j].columnIndex,
                WrapCompare(leaves[j].compare, sortingColumns[k], leaves[j].maxDefinitionLevel > 0)))
  {
    SlotOfLastLeaf(leaves, sortingColumns, search, |leaves|, k, j);
  }

  /** The synthesized comparator combines the compacted comparators with
      "first non-zero wins". */
  lemma SynthesizedMeaning(leaves: seq<Leaf>, sortingColumns: seq<SortingColumn>, search: Search, row1: Row, row2: Row)
    ensures Eval(Synthesized(leaves, sortingColumns, search), row1, row2) ==
      EvalColumns(Compacted(SlotsAfter(leaves, sortingColumns, search, |leaves|)), row1, row2)
  {
    ComposedIsLexicographic(Compacted(SlotsAfter(leaves, sortingColumns, search, |leaves|)), row1, row2);
  }

  /** The synthesized comparator is an ordering of rows (three-way,
      antisymmetric and transitive, with a panic on one side of a pair
      mirrored on the other) whenever every column type's comparator is
      an ordering. */
  lemma SynthesizedIsOrdering(leaves: seq<Leaf>, sortingColumns: seq<SortingColumn>, search: Search)
    requires forall j :: 0 <= j < |leaves| ==> IsOrdering(leaves[j].compare)
    ensures RowOrdering((row1: Row, row2: Row) => Eval(Synthesized(leaves, sortingColumns, search), row1, row2))
  {
    var fs := Compacted(SlotsAfter(leaves, sortingColumns, search, |leaves|));
    SlotsAreOrdered(leaves, sortingColumns, search, |leaves|);
    CompactedOrdered(SlotsAfter(leaves, sortingColumns, search, |leaves|));
    ColumnsIsOrdering(fs);
    var f := (row1: Row, row2: Row) => Eval(Synthesized(leaves, sortingColumns, search), row1, row2);
    var g := (row1: Row, row2: Row) => EvalColumns(fs, row1, row2);
    assert RowOrdering(g);
    forall row1: Row, row2: Row ensures f(row1, row2) == g(row1, row2) {
      ComposedIsLexicographic(fs, row1, row2);
    }
    assert forall r1, r2 :: f(r1, r2) == Negated(f(r2, r1)) by {
      forall r1, r2 ensures f(r1, r2) == Negated(f(r2, r1)) {
        assert g(r1, r2) == Negated(g(r2, r1));
      }
    }
    forall r1, r2, r3 | NotAbove(f(r1, r2)) && NotAbove(f(r2, r3)) ensures NotAbove(f(r1, r3)) {
      assert NotAbove(g(r1, r2)) && NotAbove(g(r2, r3));
    }
  }
}
