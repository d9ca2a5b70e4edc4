# Row-ordering comparators of parquet-go

This project models, in Dafny, the comparator engine of parquet-go's
`compare.go`. The engine turns a schema's leaf columns and a sort
specification (a list of sort entries, each naming a column path, a
direction and a null placement) into one function that compares two rows.

- **Values and rows** (`values.dfy`): a value carries its column's index,
  stored as the bitwise complement `^columnIndex` of a 16-bit integer, and
  either a typed payload or nothing (a null). A row is a sequence of values.
- **Primitive comparators** (`primitives.dfy`): booleans, signed and unsigned
  32/64-bit integers, and 16-byte blocks compared as two big-endian unsigned
  64-bit halves.
- **Combinators** (`combinators.dfy`): `CompareDescending`,
  `CompareNullsFirst` and `CompareNullsLast`, as functions from comparators
  to comparators.
- **Row comparators** (`rows.dfy`, `rows_laws.dfy`):
  - the positional fast paths read `row[columnIndex]`;
  - the scanning comparator walks both rows with one cursor each and only
    looks at the values tagged with its column;
  - the multi-column comparator lets the first non-tie decide.

  The Go code returns closures. Here each closure is a datatype value holding
  what the closure captures (`ColumnComparator`, `RowComparator`). `Eval`
  gives its meaning, and the methods run it the way the closure's body does.
  The scanning loop is an imperative method proved equal to the
  lexicographic order of the two rows' values for that column.
- **Synthesis** (`synthesis.dfy`, `synthesis_laws.dfy`): `CompareRowsFuncOf`
  is an imperative method, in the same steps as `compareRowsFuncOf`:
  1. it visits the leaves in order, clearing the `direct` flag at the first
     repeated leaf;
  2. it looks up each leaf's sort entry;
  3. it builds either a fast or a scanning comparator and stores it in an
     array slot for that entry;
  4. it compacts the array in place;
  5. it switches on the number of comparators left.

  The method is proved equal to the functional description `Synthesized`.
  The laws then state:
  - which path each leaf gets;
  - what each slot ends up holding;
  - that compaction keeps the filled slots in order;
  - that entries naming no leaf are dropped;
  - that the result is an ordering of rows whenever the column types'
    comparators are.
- **Examples** (`examples.dfy`): a schema `{id: int64 required, tag: byte
  array optional and repeated}`, sorted by id (fast path, 5 after 3) and by
  tag (scan, a value prefix sorts first). It also shows a descending,
  nulls-first optional column, where a null still sorts first. Finally, under
  a lookup by path, a sort entry whose path names no leaf leaves the
  comparator unchanged wherever it is inserted in the sort specification.

The comparisons involve some outside pieces:
- **Schema traversal** (`forEachLeafColumnOf`): the leaves are a sequence, in
  visiting order.
- **Sort-entry lookup** (`searchSortingColumn`): a function parameter
  `search`. A result not below the number of entries means "not named".
- **Column type's comparator** (`Type.Compare`): a function stored in each
  leaf.

The fast path indexes both rows and panics when the index is out of range.
`EvalColumn` returns `None` for that panic. The methods that run a
comparator require a result other than `None`.

The `direct` flag is cleared only once a repeated leaf has been *visited*. A
required, non-repeated leaf visited before the first repeated leaf therefore
still gets the positional fast path. The flag is not a property of the
whole schema: only the leaves visited so far affect it (`DirectBefore`,
`SynthesisLaws.FastPathBeforeFirstRepeated`).

Two leaves named by the same sort entry overwrite its slot, so the last one
visited wins (`SynthesisLaws.SlotOfLastLeaf`). This is what the assignment
`compareFuncs[sortingIndex] = sortFunc` does.

## Model

| member | source | states |
|---|---|---|
| `Values.Complement` | vendor/github.com/segmentio/parquet-go/compare.go:285 | Go's `^` on a 16-bit integer, `-x - 1`, always in range; its laws are `ComplementInvolution` and `ComplementInjective` |
| `Values.ComplementInvolution` | vendor/github.com/segmentio/parquet-go/compare.go:285 | the stored tag `^i` has `^^i == i` and is never `i` itself |
| `Values.ComplementInjective` | vendor/github.com/segmentio/parquet-go/compare.go:285 | distinct column indexes get distinct tags; a non-negative index gets a negative tag |
| `Combinators.CompareDescending` | vendor/github.com/segmentio/parquet-go/compare.go:13-15 | the result on every pair is the negation of `cmp` on that pair |
| `Combinators.DescendingInvolution` | vendor/github.com/segmentio/parquet-go/compare.go:13-15 | reversing twice gives back the original results |
| `Combinators.DescendingPreservesOrdering` | vendor/github.com/segmentio/parquet-go/compare.go:13-15 | the reverse of an ordering is an ordering |
| `Combinators.CompareNullsFirst` | vendor/github.com/segmentio/parquet-go/compare.go:21-35 | two nulls tie; a null is below a non-null (-1) and a non-null above a null (+1); `cmp` decides between two non-nulls |
| `Combinators.CompareNullsLast` | vendor/github.com/segmentio/parquet-go/compare.go:41-55 | two nulls tie; a null is above a non-null (+1) and a non-null below a null (-1); `cmp` decides between two non-nulls |
| `Combinators.NullPlacementIgnoresNullPairs` | vendor/github.com/segmentio/parquet-go/compare.go:21-55 | only pairs of non-null values reach `cmp`: comparators agreeing on them give identical wrapped comparators |
| `Combinators.NullsLastMirrorsNullsFirst` | vendor/github.com/segmentio/parquet-go/compare.go:21-55 | nulls-last equals reversing, putting nulls first, and reversing again |
| `Combinators.NullPlacementIndependentOfDirection` | vendor/github.com/segmentio/parquet-go/compare.go:21-55 | nulls first/last places a null below/above a non-null whether or not the value order was reversed |
| `Combinators.NullsFirstPreservesOrdering` | vendor/github.com/segmentio/parquet-go/compare.go:21-35 | placing nulls first keeps an ordering an ordering |
| `Combinators.NullsLastPreservesOrdering` | vendor/github.com/segmentio/parquet-go/compare.go:41-55 | placing nulls last keeps an ordering an ordering |
| `Primitives.CompareBool` | vendor/github.com/segmentio/parquet-go/compare.go:57-66 | result in {-1,0,1}; negative exactly for false/true, positive exactly for true/false, zero exactly on equal inputs |
| `Primitives.CompareInt32` | vendor/github.com/segmentio/parquet-go/compare.go:68-77 | result in {-1,0,1}; negative iff `v1 < v2`; zero iff equal |
| `Primitives.CompareInt64` | vendor/github.com/segmentio/parquet-go/compare.go:79-88 | result in {-1,0,1}; negative iff `v1 < v2`; zero iff equal |
| `Primitives.CompareUint32` | vendor/github.com/segmentio/parquet-go/compare.go:123-132 | result in {-1,0,1}; negative iff `v1 < v2`; zero iff equal |
| `Primitives.CompareUint64` | vendor/github.com/segmentio/parquet-go/compare.go:134-143 | result in {-1,0,1}; negative iff `v1 < v2`; zero iff equal |
| `Primitives.PrimitivesAreOrderings` | vendor/github.com/segmentio/parquet-go/compare.go:57-143 | each integer and boolean comparator is three-way, antisymmetric and transitive |
| `Primitives.BigEndianUint64` | vendor/github.com/segmentio/parquet-go/compare.go:146-147 | eight bytes read most significant first give the big-endian integer they denote (it fits in 64 bits) |
| `Primitives.CompareBE128` | vendor/github.com/segmentio/parquet-go/compare.go:145-164 | result in {-1,0,1} |
| `Primitives.BE128IsLexicographic` | vendor/github.com/segmentio/parquet-go/compare.go:145-164 | comparing the two 64-bit halves is unsigned lexicographic order on all 16 bytes |
| `Primitives.BE128IsBigEndianOrder` | vendor/github.com/segmentio/parquet-go/compare.go:145-164 | the result is the order of the blocks read as big-endian unsigned 128-bit integers |
| `Primitives.BE128Halves` | vendor/github.com/segmentio/parquet-go/compare.go:145-164 | equal high halves leave the low halves to decide; unequal high halves decide alone |
| `Primitives.BE128IsOrdering` | vendor/github.com/segmentio/parquet-go/compare.go:145-164 | the 128-bit comparator is an ordering |
| `Primitives.LexBytesIsBigEndianOrder` | vendor/github.com/segmentio/parquet-go/compare.go:145-164 | for equal lengths, lexicographic unsigned byte order equals big-endian integer order |
| `Primitives.LessBE128` | vendor/github.com/segmentio/parquet-go/compare.go:166-178 | true exactly when `compareBE128` is negative |
| `RowCompare.CompareRowsFuncOfIndexDescending` | vendor/github.com/segmentio/parquet-go/compare.go:279-281 | the descending fast path is the negation of the ascending one, and equals the ascending one over the reversed comparator |
| `RowCompare.Matching` | vendor/github.com/segmentio/parquet-go/compare.go:291-297 | the values a cursor stops at: no more than in the row, and all tagged with the column |
| `RowCompare.ScanOrder` | vendor/github.com/segmentio/parquet-go/compare.go:284-316 | the meaning of the scanning closure: lexicographic order of the two rows' values tagged `^columnIndex`; `CompareRowsFuncOfScan` is proved equal to it and `RowLaws.Scan*` state its laws |
| `RowCompare.SkipOtherColumns` | vendor/github.com/segmentio/parquet-go/compare.go:291-297 | the cursor moves to the first value at or after i tagged with the column, or to the end; no value it passes carries the tag, and the column's values from the cursor on are unchanged |
| `RowCompare.CompareRowsFuncOfScan` | vendor/github.com/segmentio/parquet-go/compare.go:284-316 | the scan returns the lexicographic order of the two rows' runs of values tagged `^columnIndex` |
| `RowCompare.EvalColumn` | vendor/github.com/segmentio/parquet-go/compare.go:274-316 | the meaning of one column closure, which is a panic (`None`) exactly when it is a fast path and a row is too short: the fast paths index `row[columnIndex]` (`None` when that panics), the scan gives `ScanOrder`; laws in `RowLaws.ColumnAntisymmetric`, `ColumnTransitive`, `FastPathAgreesWithScan` |
| `RowCompare.EvalColumns` | vendor/github.com/segmentio/parquet-go/compare.go:262-271 | the meaning of the multi-column closure, never a panic when every comparator scans: the first non-zero column result, else 0; laws in `RowLaws.ColumnsFirstNonZero`, `ColumnsAllTie`, `ColumnsNonZeroHasWitness`, `ColumnsIsOrdering` |
| `RowCompare.Eval` | vendor/github.com/segmentio/parquet-go/compare.go:249-259 | the meaning of the returned closure: `compareRowsUnordered` gives 0, a single comparator its own result, several their `EvalColumns`; `CompareRows` is proved equal to it |
| `RowCompare.CompareColumn` | vendor/github.com/segmentio/parquet-go/compare.go:274-316 | running a column comparator gives its meaning, whenever that is not a panic |
| `RowCompare.CompareRowsFuncOfColumns` | vendor/github.com/segmentio/parquet-go/compare.go:262-271 | the loop with early return gives the first non-zero column result, or 0 when all tie |
| `RowCompare.CompareRows` | vendor/github.com/segmentio/parquet-go/compare.go:249-259 | running the returned comparator gives its meaning; the unordered one always gives 0 |
| `RowLaws.MatchingAppend` | vendor/github.com/segmentio/parquet-go/compare.go:291-297 | the values a cursor finds in a concatenation are those of each part, in order |
| `RowLaws.MatchingEmptyIff` | vendor/github.com/segmentio/parquet-go/compare.go:291-300 | a cursor reaches the end at once exactly when no value is tagged with the column |
| `RowLaws.ScanIgnoresOtherColumns` | vendor/github.com/segmentio/parquet-go/compare.go:291-297 | inserting a value of another column anywhere in either row leaves the result unchanged |
| `RowLaws.ScanAbsentColumn` | vendor/github.com/segmentio/parquet-go/compare.go:299-305 | a row without the column ties with another such row and is below a row that has it |
| `RowLaws.ScanFirstDifference` | vendor/github.com/segmentio/parquet-go/compare.go:308-313 | the first unequal pair of the column's values decides |
| `RowLaws.ScanPrefix` | vendor/github.com/segmentio/parquet-go/compare.go:299-306 | a row whose values for the column are a tying prefix of the other's sorts first |
| `RowLaws.ScanIsOrdering` | vendor/github.com/segmentio/parquet-go/compare.go:284-316 | the scan over an ordering is an ordering of rows |
| `RowLaws.MatchingDirect` | vendor/github.com/segmentio/parquet-go/compare.go:274-276 | in a row whose values up to position `i` are one per column in column order, and with no later value of column `i`, the value of column `i` is `row[i]` |
| `RowLaws.FastPathAgreesWithScan` | vendor/github.com/segmentio/parquet-go/compare.go:274-281 | on such rows the ascending and descending fast paths give what the scan gives, whatever the repeated columns after column `i` hold; this covers every leaf the fast path is chosen for, which precedes the first repeated leaf |
| `RowLaws.SingletonLex` | vendor/github.com/segmentio/parquet-go/compare.go:299-313 | one value against one value compares as those two values |
| `RowLaws.ColumnsFirstNonZero` | vendor/github.com/segmentio/parquet-go/compare.go:262-271 | when the columns before k tie and column k does not, column k's result is returned |
| `RowLaws.ColumnsAllTie` | vendor/github.com/segmentio/parquet-go/compare.go:262-271 | when every column ties the result is 0 |
| `RowLaws.ColumnsNonZeroHasWitness` | vendor/github.com/segmentio/parquet-go/compare.go:262-271 | a non-zero result comes from some column that all earlier columns tie before |
| `RowLaws.ColumnsAppend` | vendor/github.com/segmentio/parquet-go/compare.go:262-271 | the later keys are consulted only when all earlier ones tie |
| `RowLaws.ColumnAntisymmetric` | vendor/github.com/segmentio/parquet-go/compare.go:274-316 | a column comparator over an ordering is in {-1,0,1} and antisymmetric, with a panic on one side mirrored on the other |
| `RowLaws.ColumnTransitive` | vendor/github.com/segmentio/parquet-go/compare.go:274-316 | a column comparator over an ordering is transitive |
| `RowLaws.ColumnIsOrdering` | vendor/github.com/segmentio/parquet-go/compare.go:274-316 | a column comparator over an ordering is an ordering of rows |
| `RowLaws.ColumnsThreeWayAntisymmetric` | vendor/github.com/segmentio/parquet-go/compare.go:262-271 | the multi-column comparator is in {-1,0,1} and antisymmetric when each column compares by an ordering |
| `RowLaws.ColumnsTransitive` | vendor/github.com/segmentio/parquet-go/compare.go:262-271 | the multi-column comparator is transitive when each column compares by an ordering |
| `RowLaws.ColumnsIsOrdering` | vendor/github.com/segmentio/parquet-go/compare.go:262-271 | the multi-column comparator over orderings is an ordering of rows |
| `Synthesis.DirectBefore` | vendor/github.com/segmentio/parquet-go/compare.go:182-187 | the `direct` flag after n leaves: none of them repeated; the loop of `CompareRowsFuncOf` keeps `direct == DirectBefore(leaves, i)`; laws in `SynthesisLaws.DirectBeforeMonotonic`, `FastPathBeforeFirstRepeated`, `ScanAfterRepeated` |
| `Synthesis.WrapCompare` | vendor/github.com/segmentio/parquet-go/compare.go:215-227 | the general path's value comparator: reversed for a descending entry, then nulls placed for an optional leaf; laws in `SynthesisLaws.WrapValueOrder`, `WrapNullPlacement`, `WrapRequired`, `WrapPreservesOrdering` |
| `Synthesis.SortFunc` | vendor/github.com/segmentio/parquet-go/compare.go:191-230 | the comparator built for one named leaf: it reads the leaf's column index, and it scans exactly when the flag is off or the leaf is optional; its laws are `SynthesisLaws.SortFuncPath` and `SortFuncPreservesOrdering` |
| `Synthesis.SlotsAfter` | vendor/github.com/segmentio/parquet-go/compare.go:181 | there is one slot per sort entry |
| `Synthesis.Compacted` | vendor/github.com/segmentio/parquet-go/compare.go:239-245 | compaction never yields more comparators than there were slots |
| `Synthesis.CompactSlots` | vendor/github.com/segmentio/parquet-go/compare.go:239-245 | the in-place loop leaves the compacted comparators, in order, in the first `n` slots, with `n` their number, and never changes a slot at or above `n` |
| `Synthesis.Composed` | vendor/github.com/segmentio/parquet-go/compare.go:249-256 | the switch on the number of comparators: `compareRowsUnordered` exactly for none, the comparator itself exactly for one; `SynthesisLaws.ComposedIsLexicographic` proves it equal to "first non-zero wins" |
| `Synthesis.Synthesized` | vendor/github.com/segmentio/parquet-go/compare.go:180-257 | what `compareRowsFuncOf` returns; `CompareRowsFuncOf` is proved equal to it, and `SynthesisLaws.SynthesizedMeaning`, `SynthesizedIsOrdering`, `SkippedEntryDropped` and `NothingNamed` state what it means |
| `Synthesis.CompareRowsFuncOf` | vendor/github.com/segmentio/parquet-go/compare.go:180-257 | the traversal, lookup, path choice, compaction and switch produce exactly `Synthesized` |
| `SynthesisLaws.SortFuncPath` | vendor/github.com/segmentio/parquet-go/compare.go:191-213 | the fast path is chosen exactly when `direct` holds and the leaf is required; it keeps the type's comparator and the column index; direction picks ascending/descending |
| `SynthesisLaws.WrapValueOrder` | vendor/github.com/segmentio/parquet-go/compare.go:215-219 | on two non-null values the general comparator is the type's order, negated for a descending entry |
| `SynthesisLaws.WrapNullPlacement` | vendor/github.com/segmentio/parquet-go/compare.go:217-227 | for an optional leaf nulls tie and go first/last as the entry says, regardless of direction (reversal applied before null placement) |
| `SynthesisLaws.WrapRequired` | vendor/github.com/segmentio/parquet-go/compare.go:215-221 | for a required leaf no null placement is added: only the direction changes the type's comparator |
| `SynthesisLaws.WrapPreservesOrdering` | vendor/github.com/segmentio/parquet-go/compare.go:215-227 | the wrapped comparator is an ordering when the type's comparator is |
| `SynthesisLaws.SortFuncPreservesOrdering` | vendor/github.com/segmentio/parquet-go/compare.go:195-230 | the comparator built for a leaf compares values by an ordering when the type's comparator is one |
| `SynthesisLaws.DirectBeforeMonotonic` | vendor/github.com/segmentio/parquet-go/compare.go:182-187 | once cleared the `direct` flag stays cleared |
| `SynthesisLaws.SlotEmptyIff` | vendor/github.com/segmentio/parquet-go/compare.go:189-233 | a slot stays nil exactly when no visited leaf's lookup returns its entry |
| `SynthesisLaws.SlotOfLastLeaf` | vendor/github.com/segmentio/parquet-go/compare.go:184-233 | a filled slot holds the comparator of the last leaf whose lookup returned its entry, built with `direct` as it stood after that leaf |
| `SynthesisLaws.SlotsAreOrdered` | vendor/github.com/segmentio/parquet-go/compare.go:184-233 | every filled slot compares values by an ordering when every leaf type's comparator is one |
| `SynthesisLaws.CompactedAppend` | vendor/github.com/segmentio/parquet-go/compare.go:239-245 | compaction distributes over concatenation (it keeps relative order) |
| `SynthesisLaws.CompactedSingleton` | vendor/github.com/segmentio/parquet-go/compare.go:240-244 | a nil slot contributes nothing and a filled one contributes its comparator |
| `SynthesisLaws.CompactedMembers` | vendor/github.com/segmentio/parquet-go/compare.go:239-245 | the compacted comparators are exactly those held by filled slots |
| `SynthesisLaws.CompactedFull` | vendor/github.com/segmentio/parquet-go/compare.go:239-245 | with no nil slot nothing is dropped and the order is the slot order |
| `SynthesisLaws.DropEmptySlot` | vendor/github.com/segmentio/parquet-go/compare.go:236-245 | removing a nil slot leaves the compaction unchanged |
| `SynthesisLaws.CompactedOrdered` | vendor/github.com/segmentio/parquet-go/compare.go:239-245 | the compacted comparators compare by orderings when the filled slots do |
| `SynthesisLaws.ComposedIsLexicographic` | vendor/github.com/segmentio/parquet-go/compare.go:249-256 | the 0 / 1 / many switch is the same as always letting the first non-tie decide |
| `SynthesisLaws.UnmatchedEntryDropped` | vendor/github.com/segmentio/parquet-go/compare.go:236-256 | an entry no leaf's lookup returns contributes nothing: the result is built from the other slots alone |
| `SynthesisLaws.SlotsWithSkippedEntry` | vendor/github.com/segmentio/parquet-go/compare.go:181-233 | inserting, at any position k, an entry the lookup never returns adds one nil slot at k and leaves the others unchanged |
| `SynthesisLaws.SkippedEntryDropped` | vendor/github.com/segmentio/parquet-go/compare.go:180-257 | inserting, at any position, an entry the lookup never returns yields an identical comparator |
| `SynthesisLaws.NothingNamed` | vendor/github.com/segmentio/parquet-go/compare.go:249-251 | when no leaf is named the rows are unordered |
| `SynthesisLaws.EveryEntryNamed` | vendor/github.com/segmentio/parquet-go/compare.go:236-256 | when every entry names a leaf, entry k's comparator is the k-th consulted |
| `SynthesisLaws.FastPathBeforeFirstRepeated` | vendor/github.com/segmentio/parquet-go/compare.go:182-213 | a required leaf visited before any repeated leaf gets the positional fast path whatever follows |
| `SynthesisLaws.ScanAfterRepeated` | vendor/github.com/segmentio/parquet-go/compare.go:185-230 | a named leaf visited at or after a repeated leaf gets the scanning comparator over the wrapped type comparator |
| `SynthesisLaws.SynthesizedMeaning` | vendor/github.com/segmentio/parquet-go/compare.go:180-271 | the synthesized comparator lets the first non-tie among the compacted comparators decide |
| `SynthesisLaws.SynthesizedIsOrdering` | vendor/github.com/segmentio/parquet-go/compare.go:180-316 | the synthesized comparator is an ordering of rows whenever every column type's comparator is |
| `Examples.SearchWithUnknownEntry` | vendor/github.com/segmentio/parquet-go/compare.go:189 | under a lookup by path, an entry inserted at any position with another path is never returned, and the other entries are found where they moved to |
| `Examples.SortById` | vendor/github.com/segmentio/parquet-go/compare.go:180-276 | sorting by a required int64 column takes the ascending fast path, and id 5 sorts after id 3 |
| `Examples.SortByIdWithRepeatedTags` | vendor/github.com/segmentio/parquet-go/compare.go:180-257 | sorting by `id` keeps the fast path when the repeated tag column after it holds two values in one row and none in the other, and it gives what the scan of the id column gives |
| `Examples.SortByTag` | vendor/github.com/segmentio/parquet-go/compare.go:180-316 | sorting by a repeated column scans, and `["a","b"]` sorts after its prefix `["a"]` |
| `Examples.DescendingNullsFirst` | vendor/github.com/segmentio/parquet-go/compare.go:214-229 | descending with nulls first still puts a null before a value |
| `Examples.UnknownEntryIgnored` | vendor/github.com/segmentio/parquet-go/compare.go:180-257 | under a lookup by path, a sort entry naming no leaf, inserted at any position, changes nothing |
| `Examples.UnknownThenId` | vendor/github.com/segmentio/parquet-go/compare.go:180-257 | sorting by `[unknown, id]` gives the same single ascending fast-path comparator as sorting by `id` |

## Left out

- `compareInt96`, `compareFloat32` and `compareFloat64` are not modelled. Floating point, including NaN comparing as equal, is outside the model, and the 96-bit integer type's `Less` is not part of this model.
- `forEachLeafColumnOf` is replaced by its output: the leaves, in visiting order, each with its path, column index, maximum levels and type comparator.
- `searchSortingColumn` is a function parameter. `Examples.SearchByPath`, a first-match lookup by path equality, is only one possible lookup, used by the examples.
- `Type.Compare` and `leaf.node.Type()` are the comparator stored in each leaf. The fast path's "pass the type directly" optimisation is not modelled; the model just calls that comparator.
- `Schema` and the `SortingColumn` interface are reduced to the fields the synthesizer reads: path, descending and nulls first.
- The panic of the fast path on an out-of-range index is the value `None`, not a runtime failure.
- `Combinators.CompareDescending`: results are unbounded integers, so the wrap-around of Go's 64-bit `int` is not modelled. In Go, `-cmp(a, b)` gives back math.MinInt unchanged when `cmp` returns math.MinInt. Every ordering law here assumes three-way results in {-1, 0, 1}, where negation does not wrap.
- `RowCompare.CompareRowsFuncOfIndexDescending`: the same holds for `-typ.Compare(...)`; its contract is exact only for comparators whose results are above math.MinInt.
- `binary.BigEndian.Uint64` is modelled by `Primitives.BigEndianUint64`, which reads eight bytes most significant first.
- The `//go:noinline` directives and closure allocation are left out. A returned closure is the datatype value describing it.
- `RowCompare.CompareRowsFuncOfIndexAscending`: no separate contract; it is what the fast-path evaluation uses, and `RowLaws.FastPathAgreesWithScan` states its meaning.
