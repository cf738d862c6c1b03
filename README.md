# Pivot table engine — a Dafny model

This project models the core of a small pivot-table viewer for accounting
transactions. Each transaction has a type, a number, an amount, a status and
a year. The user picks one row field and an ordered list of column fields
from `transaction_type`, `status` and `year`. The viewer then:

- sums the amounts per row value and per combination of column values;
- builds a header tree over the column values;
- renders one cell per row and leaf, plus a total row.

The model covers six parts:

- **Value ordering.** `sortValues` compares two values as numbers when both are numeric-like, and as strings otherwise. `Array.from(new Set(..)).sort(sortValues)` is modelled as first occurrences followed by a stable insertion sort (`ordering.dfy`).
- **Column tree** (`buildColumnTree`), its leaves and its header rows (`getHeaderNodesAtDepth`) (`column_tree.dfy`).
- **The aggregation loop of `pivotData`.** It is an imperative pass over the transactions. It files each amount into the nested per-row map and the mirrored grand-total map (`aggregation.dfy`). The sum-conservation theorems are in `conservation.dfy`.
- **`pivotData` as a whole** (`pivot.dfy`). This covers the row labels, the tree, the imperative leaf collection and the result. It also covers the two-level cache: the identity of a transaction list, then the key `"row||c1|c2"`, then the result.
- **The unit tests' cases**, as lemmas about the same four transactions (`unit_cases.dfy`).
- **The table and the selector.** `Table.tsx` contributes the cell lookup along a leaf's path, the header rows and the loading state (`table.dfy`). `GroupingSelector.tsx` contributes the two selection handlers, as a class and as a state machine over user actions (`grouping_selector.dfy`).

Amounts are exact `real`s. A grouping value is `Str(string)` or `Num(int)`.
An aggregate is `Scalar(sum)` at the last level or `Nested(map)` above it. Its
keys are the strings JavaScript files the values under (`String(v)`). Several
end-to-end theorems depend on one assumption: in the data, no field carries both
`2024` and `'2024'`. These are that the body cells of a row add up to the row's
amounts, that the total cells add up to all amounts, and that each column's
body cells add up to its total cell. The assumption is written out as
`Conservation.OneRepresentation`.

## Model

| member | source | states |
|---|---|---|
| PivotTypes.FieldName | src/types.ts:1 | a field's name is non-empty and contains no bar character, which is what makes the cache key unambiguous |
| PivotTypes.ValuePath | src/utils.ts:89-93 | a transaction's column values, one per column field, in field order |
| ValueOrder.Insert | src/utils.ts:32 | one insertion step keeps exactly the elements, plus the inserted one (multiset) |
| ValueOrder.Sort | src/utils.ts:32 | sorting is a permutation of its input |
| ValueOrder.StrCompareAntisymmetric | src/utils.ts:19 | the string comparison is antisymmetric and returns 0 exactly on equal strings |
| ValueOrder.StrCompareTransitive | src/utils.ts:19 | the string comparison is transitive |
| ValueOrder.InsertSorted | src/utils.ts:15-20 | inserting a value of the same kind into a sorted list keeps it sorted by `sortValues` |
| ValueOrder.SortSorted | src/utils.ts:15-32 | sorting a list whose values are all numeric-like, or all not, gives a sorted permutation |
| ValueOrder.DistinctSpec | src/utils.ts:62 | `Array.from(new Set(..))` has no duplicates and exactly the input's values |
| ValueOrder.InsertNoDup | src/utils.ts:32 | inserting an absent value keeps a list duplicate-free |
| ValueOrder.SortNoDup | src/utils.ts:32 | sorting keeps a list duplicate-free |
| ValueOrder.DistinctSortedSpec | src/utils.ts:62 | the distinct sorted values: no duplicates, exactly the input's values, sorted when homogeneous, and `[]` for an empty input |
| ValueOrder.NumberKeyRoundTrip | src/utils.ts:16-18 | the string a number is keyed under parses back to that number |
| ValueOrder.NatToStringValue | src/utils.ts:16-18 | a natural number's decimal digits read back as the number |
| ColumnTree.Project | src/utils.ts:31 | `transactions.map(t => t[f])` keeps length and takes each transaction's value |
| ColumnTree.Filter | src/utils.ts:35 | the subset holds exactly the transactions whose value of `f` is `v` (`===`) |
| ColumnTree.BuildNodes | src/utils.ts:34-39 | one node per distinct value, in order |
| ColumnTree.BuildNode | src/utils.ts:34-38 | a node carries its value and the path `currentPath + [value]` |
| ColumnTree.ProjectMembers | src/utils.ts:30-32 | the distinct sorted values of a field are exactly those occurring in the data, without duplicates |
| ColumnTree.BuildColumnTreeWellFormed | src/utils.ts:22-40 | no fields give no nodes; otherwise siblings are distinct, every path is the parent's path plus the node's value, every `colSpan` is 1 for a leaf and the children's sum otherwise, and all leaves lie one level per field deep |
| ColumnTree.BuildColumnTreeEmpty | src/utils.ts:27-34 | with at least one field the tree is empty exactly when there are no transactions |
| ColumnTree.SpanSumAppend | src/utils.ts:37 | the span sum distributes over concatenation |
| ColumnTree.CollectLeavesAppend | src/utils.ts:107-110 | collecting leaves distributes over concatenation |
| ColumnTree.LeavesShape | src/utils.ts:107-112 | every collected leaf is childless, one column wide and has a path of full length |
| ColumnTree.LeavesDistinct | src/utils.ts:107-112 | no two leaves share a path |
| ColumnTree.SpanSumCountsLeaves | src/utils.ts:37 | the roots' spans add up to the number of leaves |
| ColumnTree.HeaderRowSpan | src/utils.ts:129-136 | above the leaves, the nodes at any depth span as many columns as the roots |
| ColumnTree.HeaderRowDepth | src/utils.ts:129-136 | the nodes returned for depth `d` have paths of length `d + 1` below the prefix |
| ColumnTree.HeaderRowCoversLeaves | src/utils.ts:129-136 | above the leaves, the nodes returned for a depth, expanded to their leaves, are the whole leaf list in order: every node at that depth appears once, left to right |
| ColumnTree.HeaderRowAtLeafDepth | src/utils.ts:129-136 | the header row at the leaves' depth is the leaf list itself |
| ColumnTree.HeaderRowBeyondLeaves | src/utils.ts:129-136 | below the leaves there are no header nodes |
| ColumnTree.LeavesMatchData | src/utils.ts:30-38 | the tree is sparse and complete: every leaf path is some transaction's values, and every transaction's values are a leaf path |
| ColumnTree.BuildColumnTreeSorted | src/utils.ts:30-32 | when each column field's values are homogeneous, siblings appear in `sortValues` order at every level |
| Aggregation.AddTransaction | src/utils.ts:74-103 | one iteration: the row's entry (reset when missing or falsy) and the grand total each get the amount added at the transaction's column keys |
| Aggregation.AggregateTransactions | src/utils.ts:67-104 | the loop yields, for every row key that occurs and no other, the aggregate of that row's transactions, and the aggregate of all transactions as the grand total |
| Aggregation.AggregationStep | src/utils.ts:73-104 | each iteration extends the maps by exactly one transaction |
| Aggregation.RowKeysMembers | src/utils.ts:74-77 | a key has a row entry exactly when some transaction's row value is filed under it |
| Aggregation.AggregateOfUnselected | src/utils.ts:77 | a row key no transaction has gets an empty aggregate |
| Aggregation.AddAtShaped | src/utils.ts:86-94 | adding at a full key path keeps the aggregate's shape |
| Aggregation.AggregateOfShaped | src/utils.ts:68-103 | every aggregate has one object level per column field, then sums |
| Aggregation.AggregateOfKind | src/utils.ts:68-77 | an aggregate is a plain sum exactly when there are no column fields |
| Aggregation.GetAddAt | src/utils.ts:86-94 | adding at one key path changes that path's entry, starting from 0, and no other |
| Aggregation.CellSumAbsent | src/utils.ts:86-103 | a key path no selected transaction carries sums to 0 |
| Aggregation.GetAggregateOf | src/utils.ts:86-103 | sum conservation: the entry at a full key path is the sum of the amounts of the selected transactions with those keys, and is absent when none has them |
| Conservation.SelectedTotalAll | src/utils.ts:82 | the grand total covers every amount |
| Conservation.AggregateOfNoColumns | src/utils.ts:79-84 | with no column fields an aggregate is the single running sum of its selected amounts |
| Conservation.CellSumNoColumns | src/utils.ts:79-84 | with no column fields every selected transaction lands in the one cell |
| Conservation.SumCellsStep | src/utils.ts:86-94 | a transaction adds its amount to exactly one of several distinct key paths |
| Conservation.SumCellsPartition | src/utils.ts:86-103 | cells at distinct key paths covering every selected transaction add up to the selected amounts |
| Conservation.SumRowsStep | src/utils.ts:74-94 | a transaction adds its amount to exactly one of several distinct rows |
| Conservation.SumRowsPartition | src/utils.ts:74-103 | the cells of distinct rows covering every transaction add up to the grand total's cell |
| Conservation.KeysAt | src/utils.ts:89-93 | the i-th key is the key of the i-th value |
| Conservation.KeyPathDeterminesValues | src/utils.ts:89-93 | with one representation per key, the column keys determine the column values |
| Conservation.KeyCollision | src/utils.ts:77 | a number and its decimal string are distinct values, both numeric-like and tied by `sortValues`, filed under one object key |
| Pivot.Collect | src/utils.ts:107-111 | the imperative `collect` appends exactly the leaves, depth first and left to right |
| Pivot.ComputePivot | src/utils.ts:61-115 | the imperative body of `pivotData` computes the pivot result |
| Pivot.RowValuesSpec | src/utils.ts:62 | row labels: no duplicates, exactly the row values of the data, sorted when homogeneous, `[]` for no data |
| Pivot.LeavesSpec | src/utils.ts:106-112 | no column fields: empty tree and the single `Total` leaf; otherwise the depth-first leaves, as many as the roots span, with distinct full-length paths, equal to the header row one level above the number of column fields |
| Pivot.RowEntriesSpec | src/utils.ts:74-77 | every row label has an entry under its key, and every entry belongs to a row label |
| Pivot.NoColumnsSpec | src/utils.ts:79-84 | with no column fields, `totalMap` is the sum of all amounts and `pivotMap[r]` the sum of row `r`'s amounts |
| Pivot.ColumnsSpec | src/utils.ts:86-103 | with column fields, each row's and the total's entry at a key path are the matching sums, or absent when nothing matches |
| Pivot.JoinFieldsInjective | src/utils.ts:54 | joining the column field names with bars determines the ordered field list |
| Pivot.JoinRestInjective | src/utils.ts:54 | the joined tail determines the tail |
| Pivot.CacheKeyInjective | src/utils.ts:54 | the cache key determines the row field and the ordered column fields |
| Pivot.Store | src/utils.ts:118-124 | storing files the result under its key in the list's map, creating that map if needed, and leaves every other key and list as it was |
| Pivot.StoreKeepsValid | src/utils.ts:118-124 | storing the pivot under its own key keeps every cached result correct |
| Pivot.PivotEngine.constructor | src/utils.ts:13 | the cache starts empty |
| Pivot.PivotEngine.PivotData | src/utils.ts:48-127 | the result is always the pivot of the list; a hit returns the stored result and leaves the cache alone; a miss stores the new result under the list and key |
| Table.GridOf | src/components/Table.tsx:85-101 | one body row per row label, one cell per leaf in every row and in the total row, in leaf order |
| Table.RowCells | src/components/Table.tsx:88-99 | one cell per leaf, in order |
| Table.WalkGet | src/components/Table.tsx:28 | folding a full-length path over an aggregate reaches a sum exactly where the aggregate holds one |
| Table.GetOrZeroCellEntry | src/components/Table.tsx:28 | a missing cell shows 0, which is also its sum |
| Table.CellOfAggregate | src/components/Table.tsx:23-29 | the cell shown for a leaf is the sum of the aggregate's transactions carrying the leaf's keys |
| Table.BodyCell | src/components/Table.tsx:27-90 | a body cell is the sum of the row's transactions carrying the leaf's keys |
| Table.TotalCell | src/components/Table.tsx:27-99 | a total-row cell is the sum of all transactions carrying the leaf's keys |
| Table.RenderSpec | src/components/Table.tsx:14-101 | loading exactly when there are no transactions; otherwise one row per row label, one cell per leaf in every row, each cell holding its sum |
| Table.RenderNoColumns | src/components/Table.tsx:24-99 | with no column groups each row has the one cell holding its row's sum, and the total row holds the sum of all amounts |
| Table.HeaderRowsShape | src/components/Table.tsx:16-71 | a well-formed tree gives one header row per level, each the nodes at its depth, as wide as the roots, expanding to the leaf list in order, with paths of length depth + 1 |
| Table.HeaderRowsSpec | src/components/Table.tsx:16-71 | `headerDepth` rows: the roots, then the nodes at depths 1 to `headerDepth - 1`, each exactly as wide as the table and expanding, left to right, to the leaves in leaf order; the last row is the leaves |
| Table.HeaderRowsNonEmpty | tests/utils.test.ts:37-44 | with transactions and column groups, every header row has at least one node |
| Table.LeafKeys | src/components/Table.tsx:28 | the key path of each leaf, in leaf order |
| Table.SumRowCells | src/components/Table.tsx:88-90 | the cells of a row add up to the sum of the cells at the leaves' key paths |
| Table.LeafKeysDistinct | src/components/Table.tsx:28 | with one representation per column field, distinct leaves have distinct key paths |
| Table.LeafKeysCover | src/components/Table.tsx:28 | every transaction's key path belongs to a leaf |
| Table.LeafKeysPartition | src/components/Table.tsx:28 | the leaves' key paths partition the transactions |
| Table.RowCellsAddUp | src/components/Table.tsx:85-94 | a body row's cells add up to that row's amounts |
| Table.TotalCellsAddUp | src/components/Table.tsx:95-101 | the total row's cells add up to the sum of all amounts |
| Table.ColumnSumRows | src/components/Table.tsx:85-101 | a column's body cells add up to the sum of the rows' cells at its key path |
| Table.RowKeysPartition | src/utils.ts:62-77 | with one representation of the row field, the row labels' keys are distinct and cover every transaction |
| Table.ColumnCellsAddUp | src/components/Table.tsx:85-101 | each column's body cells add up to its total-row cell |
| UnitCases.SampleRowValues | tests/utils.test.ts:16 | the sample's row labels are `bill`, `invoice` |
| UnitCases.SortTypes | src/utils.ts:15-20 | two non-numeric labels sort as strings |
| UnitCases.SortYears | src/utils.ts:15-20 | two numeric-like years sort as numbers |
| UnitCases.SampleRowSums | tests/utils.test.ts:18-20 | the sample's amounts are 150 for invoices, 50 for bills, 200 in all |
| UnitCases.SampleNoColumns | tests/utils.test.ts:12-21 | without column groups: labels `bill`, `invoice`, the single `Total` leaf, `pivotMap` 150 and 50, `totalMap` 200 |
| UnitCases.SampleYears | tests/utils.test.ts:27 | the distinct years of the sample in numeric order are `2024`, `2025` |
| UnitCases.SampleYearTree | tests/utils.test.ts:27 | with the year as column group the roots carry `2024` and `2025` |
| UnitCases.SampleYearCellSums | tests/utils.test.ts:32-34 | the sample's amounts per type and year |
| UnitCases.SampleYearCells | tests/utils.test.ts:23-35 | with the year as column group: invoices 150 in 2024, bills 24.5 in 2024 and 25.5 in 2025 |
| GroupingSelector.WithoutSpec | src/components/GroupingSelector.tsx:12 | the filter drops `f` and only `f`, is the identity when `f` is absent, and adds no duplicates |
| GroupingSelector.WithoutAt | src/components/GroupingSelector.tsx:18-19 | removing a field that occurs once drops just its position; the other fields keep their order |
| GroupingSelector.ToggleMembers | src/components/GroupingSelector.tsx:17-21 | after a toggle, `f` is selected exactly when it was not, and every other field is unchanged |
| GroupingSelector.ToggleSpec | src/components/GroupingSelector.tsx:17-21 | an absent field is appended at the end; a present one is removed, the rest keeping their order |
| GroupingSelector.ToggleTwice | src/components/GroupingSelector.tsx:17-21 | toggling an absent field twice restores the list |
| GroupingSelector.ToggleNoDup | src/components/GroupingSelector.tsx:17-21 | toggling never introduces a duplicate |
| GroupingSelector.Initial | src/context/PivotContext.tsx:20-21 | the initial selection (`transaction_type`, `['year']`) is consistent |
| GroupingSelector.RowChangeSpec | src/components/GroupingSelector.tsx:8-14 | the chosen field becomes the row field; it leaves the column fields, the rest keeping their order; the columns are untouched if it was not among them; the result is consistent |
| GroupingSelector.ToggleColumnConsistent | src/components/GroupingSelector.tsx:16-43 | toggling any field but the row field keeps the row field out of the columns and the columns duplicate-free |
| GroupingSelector.StepConsistent | src/components/GroupingSelector.tsx:8-49 | every user action keeps the selection consistent; a click on the disabled row-field checkbox changes nothing |
| GroupingSelector.RunConsistent | src/components/GroupingSelector.tsx:8-49 | any sequence of user actions keeps the row field out of the column fields |
| GroupingSelector.Selection.constructor | src/context/PivotContext.tsx:20-21 | the selector starts at the initial selection |
| GroupingSelector.Selection.HandleRowChange | src/components/GroupingSelector.tsx:8-14 | the handler moves the state exactly as a row change does |
| GroupingSelector.Selection.ToggleColumnField | src/components/GroupingSelector.tsx:16-22 | the handler moves the state exactly as a toggle does |

## Left out

- Rendering is left out: the markup, CSS classes, `toFixed(2)` formatting, the `replaceAll('_', ' ')` labels and React keys in src/components/Table.tsx. The model keeps what each cell and header row holds.
- Loading is left out: the `fetch` and `parseFloat` in src/App.tsx are network I/O and float parsing. A transaction's amount is a parameter, either a number or NaN.
- React state plumbing is left out: the context, `useMemo` and the batching of `setRowGroup`/`setColGroups`. Only the initial values and the two handlers are kept.
- `WeakMap` garbage collection is not modelled. The cache is keyed by the identity of a `TransactionList` object whose contents never change.
- Floating-point arithmetic is not modelled. Amounts and sums are exact reals, and the results are the exact sums, not their rounded values.
- `Number(v)` is modelled only for integers written as an optional `-` followed by decimal digits. The empty string counts as 0. Any other string counts as NaN. Decimals, exponents, whitespace and hex are not modelled.
- A numeric grouping value is `Num(int)`: non-integer numbers in the data are not modelled, nor is the exponent form `String(n)` takes for magnitudes of 10^21 and more.
- The inner loops of the aggregation pass (src/utils.ts:88-103) walk the nested objects by reference (`node[key] ??= {}`, `node = node[key]`) and add at the end. They are modelled as the value update `Aggregation.AddAt`, which rebuilds the entry along the key path. The in-place update through references into the nested objects is not captured.
- `localeCompare` is modelled as code-unit lexicographic order, not locale-aware collation.
- ValueOrder.DistinctSortedSpec: sortedness is stated only when a field's values are all numeric-like or all not. On mixed data `sortValues` is not transitive (9 < 10 numerically, but "10" < "1a" and "1a" < "9" as strings), so the order the browser's sort produces there is unspecified.
- ColumnTree.BuildColumnTreeSorted: sibling order is stated only under the same homogeneity condition.
- Table.LeafKeysDistinct: requires one representation per column field. JavaScript stores `2024` and `'2024'` under the same object key, although the tree (`===`) keeps them as separate nodes. Data with both would give two leaves reading one shared cell.
- Table.LeafKeysPartition: requires one representation per column field, for the same reason.
- Table.RowCellsAddUp: requires one representation per column field, for the same reason.
- Table.TotalCellsAddUp: requires one representation per column field, for the same reason.
- Table.RowKeysPartition: requires one representation of the row field. Otherwise two row labels share one `pivotMap` entry.
- Table.ColumnCellsAddUp: requires one representation of the row field, for the same reason.
- Property keys inherited from `Object.prototype` are not modelled. For example, a row value `"constructor"` would find an inherited function in `pivotMap` before its own entry is created.
- `'amount'` is part of the source's `GroupField` type, but the selector never offers it. Here the grouping fields are exactly `transaction_type`, `status` and `year`.
- Table.CellValue shows 0 where the walk along a leaf's path ends on an object rather than a number. The source would then call `toFixed` on an object. This cannot happen for the leaves of a pivot result, whose paths are exactly as long as the aggregates are deep (Table.CellOfAggregate).
- Aggregation.AddTransaction requires that the maps have the kind (number or object) the loop gives them. That is the loop's own invariant, not a demand on callers of `pivotData`.
