/** What the pivot table shows (src/components/Table.tsx), without the markup:
    the header rows, one value per body cell and per total cell, and the
    loading state. */
module Table {
  import opened PivotTypes
  import opened ColumnTree
  import opened Aggregation
  import opened Conservation
  import opened Pivot

  /** `colGroups.length || 1` */
  function HeaderDepth(colGroups: seq<GroupField>): nat
  {
    if |colGroups| > 0 then |colGroups| else 1
  }

  /** The column header rows: the roots, then the nodes at depths 1 to
      `headerDepth - 1`. Without column groups there are none (the header is
      then the row field's name and 'Total'). */
  function HeaderRows(columnTree: seq<ColumnNode>, colGroups: seq<GroupField>): seq<seq<ColumnNode>>
  {
    if |colGroups| == 0 then []
    else [columnTree] + seq(HeaderDepth(colGroups) - 1, d requires 0 <= d => GetHeaderNodesAtDepth(columnTree, d + 1))
  }

  /** `fullPath.reduce((acc, key) => acc ? acc[key] : undefined, base)`: each
      value is looked up by its key; a missing entry, a number (0 is falsy, and
      any other number has no entries) or `undefined` gives `undefined`. */
  function Walk(acc: Option<Aggregate>, path: seq<Value>): Option<Aggregate>
    decreases path
  {
    if path == [] then acc
    else
      var next := if acc.Some? && acc.value.Nested? && KeyOf(path[0]) in acc.value.entries
                  then Some(acc.value.entries[KeyOf(path[0])]) else None;
      Walk(next, path[1..])
  }

  /** The value `Cell` shows for `leaf`, read from `base`: the row's entry of
      `pivotMap`, or `totalMap` for the total row. Without column groups it is
      `Number(base) || 0`; with them the walk along the leaf's path from
      `base ?? {}`, or 0 when that ends on nothing. A walk that ends on an
      object does not happen for the leaves of a pivot result (their paths are
      as long as the aggregates are deep); the model shows 0 for it. */
  function CellValue(colGroups: seq<GroupField>, base: Option<Aggregate>, leaf: ColumnNode): real
  {
    if |colGroups| == 0 then
      (if base.Some? && base.value.Scalar? then base.value.sum else 0.0)
    else
      var found := Walk(Some(if base.Some? then base.value else Nested(map[])), leaf.fullPath);
      if found.Some? && found.value.Scalar? then found.value.sum else 0.0
  }

  /** `pivotMap[rowValue]`: the row label is looked up by its key. */
  function RowEntry(pivotMap: map<string, Aggregate>, row: Value): Option<Aggregate>
  {
    if KeyOf(row) in pivotMap then Some(pivotMap[KeyOf(row)]) else None
  }

  /** `leaves.map(leaf => <Cell .../>)`: one cell per leaf, in order. */
  function RowCells(colGroups: seq<GroupField>, base: Option<Aggregate>, leaves: seq<ColumnNode>): (cells: seq<real>)
    ensures |cells| == |leaves|
    ensures forall j :: 0 <= j < |leaves| ==> cells[j] == CellValue(colGroups, base, leaves[j])
  {
    if leaves == [] then [] else [CellValue(colGroups, base, leaves[0])] + RowCells(colGroups, base, leaves[1..])
  }

  datatype View =
    | Loading
    | Grid(headerRows: seq<seq<ColumnNode>>, rowLabels: seq<Value>, body: seq<seq<real>>, totals: seq<real>)

  /** The table for the selection: the loading message while there are no
      transactions; otherwise the grid of the pivot result. */
  function Render(txs: seq<Transaction>, rowGroup: GroupField, colGroups: seq<GroupField>): View
  {
    if |txs| == 0 then Loading else GridOf(PivotOf(txs, rowGroup, colGroups), colGroups)
  }

  /** The header rows, one body row per row label and the total row. */
  function GridOf(res: PivotResult, colGroups: seq<GroupField>): (v: View)
    ensures v.Grid? && v.rowLabels == res.rowValues && |v.body| == |res.rowValues|
    ensures |v.totals| == |res.leaves|
    ensures forall j :: 0 <= j < |res.leaves| ==> v.totals[j] == CellValue(colGroups, Some(res.totalMap), res.leaves[j])
    ensures forall i :: 0 <= i < |v.body| ==> |v.body[i]| == |res.leaves|
    ensures forall i, j :: 0 <= i < |v.body| && 0 <= j < |res.leaves| ==>
              v.body[i][j] == CellValue(colGroups, RowEntry(res.pivotMap, res.rowValues[i]), res.leaves[j])
  {
    Grid(
      HeaderRows(res.columnTree, colGroups),
      res.rowValues,
      seq(|res.rowValues|, i requires 0 <= i < |res.rowValues| =>
            RowCells(colGroups, RowEntry(res.pivotMap, res.rowValues[i]), res.leaves)),
      RowCells(colGroups, Some(res.totalMap), res.leaves))
  }

  function Sum(xs: seq<real>): real
  {
    if xs == [] then 0.0 else xs[0] + Sum(xs[1..])
  }

  /** The cells of column `j` added up, a missing cell counting as 0. */
  function ColumnSum(body: seq<seq<real>>, j: nat): real
  {
    if body == [] then 0.0
    else (if j < |body[0]| then body[0][j] else 0.0) + ColumnSum(body[1..], j)
  }

  // ----- cells against the data -----

  lemma {:induction false} WalkNone(path: seq<Value>)
    ensures Walk(None, path) == None
    decreases path
  {
    if path != [] {
      WalkNone(path[1..]);
    }
  }

  /** Along a path as long as the aggregate is deep, the walk reaches a sum
      exactly where `Get` finds one. */
  lemma {:induction false} WalkGet(agg: Aggregate, path: seq<Value>)
    requires Shaped(agg, |path|)
    ensures Walk(Some(agg), path) ==
            if Get(agg, Keys(path)).Some? then Some(Scalar(Get(agg, Keys(path)).value)) else None
    decreases path
  {
    if path != [] {
      var k := KeyOf(path[0]);
      assert Keys(path) == [k] + Keys(path[1..]);
      if k in agg.entries {
        WalkGet(agg.entries[k], path[1..]);
      } else {
        WalkNone(path[1..]);
      }
    }
  }

  /** A missing cell shows 0, and so is its sum. */
  lemma {:induction false} GetOrZeroCellEntry(txs: seq<Transaction>, rowField: GroupField, row: Option<string>,
                                              cols: seq<GroupField>, keys: seq<string>)
    ensures GetOrZero(CellEntry(txs, rowField, row, cols, keys)) == CellSum(txs, rowField, row, cols, keys)
  {
    if !(|cols| == 0 || CellOccurs(txs, rowField, row, cols, keys)) {
      CellSumAbsent(txs, rowField, row, cols, keys);
    }
  }

  /** The cell read from an aggregate at a leaf of the right depth is the sum
      of the amounts of the aggregate's transactions with the leaf's keys. */
  lemma {:induction false} CellOfAggregate(txs: seq<Transaction>, rowField: GroupField, row: Option<string>,
                                           cols: seq<GroupField>, leaf: ColumnNode)
    requires |leaf.fullPath| == |cols|
    ensures CellValue(cols, Some(AggregateOf(txs, rowField, row, cols)), leaf) ==
            CellSum(txs, rowField, row, cols, Keys(leaf.fullPath))
  {
    var agg := AggregateOf(txs, rowField, row, cols);
    var keys := Keys(leaf.fullPath);
    GetAggregateOf(txs, rowField, row, cols, keys);
    GetOrZeroCellEntry(txs, rowField, row, cols, keys);
    AggregateOfShaped(txs, rowField, row, cols);
    if |cols| > 0 {
      WalkGet(agg, leaf.fullPath);
    }
  }

  lemma {:induction false} LeafDepth(txs: seq<Transaction>, rowField: GroupField, cols: seq<GroupField>, j: int)
    requires 0 <= j < |PivotOf(txs, rowField, cols).leaves|
    ensures |PivotOf(txs, rowField, cols).leaves[j].fullPath| == |cols|
  {
    LeavesSpec(txs, rowField, cols);
  }

  /** A body cell: the sum of the amounts of the row's transactions with the
      leaf's column keys. */
  lemma {:induction false} BodyCell(txs: seq<Transaction>, rowField: GroupField, cols: seq<GroupField>, i: int, j: int)
    requires 0 <= i < |PivotOf(txs, rowField, cols).rowValues|
    requires 0 <= j < |PivotOf(txs, rowField, cols).leaves|
    ensures var res := PivotOf(txs, rowField, cols);
            CellValue(cols, RowEntry(res.pivotMap, res.rowValues[i]), res.leaves[j]) ==
            CellSum(txs, rowField, Some(KeyOf(res.rowValues[i])), cols, Keys(res.leaves[j].fullPath))
  {
    var res := PivotOf(txs, rowField, cols);
    var r := KeyOf(res.rowValues[i]);
    assert r in res.pivotMap by {
      RowEntriesSpec(txs, rowField, cols);
    }
    assert RowEntry(res.pivotMap, res.rowValues[i]) == Some(AggregateOf(txs, rowField, Some(r), cols));
    LeafDepth(txs, rowField, cols, j);
    CellOfAggregate(txs, rowField, Some(r), cols, res.leaves[j]);
  }

  /** A total-row cell: the sum of the amounts of all transactions with the
      leaf's column keys. */
  lemma {:induction false} TotalCell(txs: seq<Transaction>, rowField: GroupField, cols: seq<GroupField>, j: int)
    requires 0 <= j < |PivotOf(txs, rowField, cols).leaves|
    ensures var res := PivotOf(txs, rowField, cols);
            CellValue(cols, Some(res.totalMap), res.leaves[j]) ==
            CellSum(txs, rowField, None, cols, Keys(res.leaves[j].fullPath))
  {
    LeafDepth(txs, rowField, cols, j);
    CellOfAggregate(txs, rowField, None, cols, PivotOf(txs, rowField, cols).leaves[j]);
  }

  /** The rendered table: loading exactly while there are no transactions;
      otherwise one row per row label and one cell per leaf in every row and in
      the total row, each the sum of the amounts of its row's (or of all)
      transactions carrying the leaf's column keys. */
  lemma {:induction false} RenderSpec(txs: seq<Transaction>, rowField: GroupField, cols: seq<GroupField>)
    ensures Render(txs, rowField, cols).Loading? <==> txs == []
    ensures txs != [] ==>
              var v := Render(txs, rowField, cols);
              var res := PivotOf(txs, rowField, cols);
              && v.rowLabels == res.rowValues
              && |v.body| == |res.rowValues|
              && |v.totals| == |res.leaves|
              && (forall i :: 0 <= i < |v.body| ==> |v.body[i]| == |res.leaves|)
              && (forall i, j :: 0 <= i < |v.body| && 0 <= j < |res.leaves| ==>
                    v.body[i][j] == CellSum(txs, rowField, Some(KeyOf(res.rowValues[i])), cols, Keys(res.leaves[j].fullPath)))
              && (forall j :: 0 <= j < |res.leaves| ==>
                    v.totals[j] == CellSum(txs, rowField, None, cols, Keys(res.leaves[j].fullPath)))
  {
    if txs != [] {
      var res := PivotOf(txs, rowField, cols);
      var v := GridOf(res, cols);
      forall i, j | 0 <= i < |v.body| && 0 <= j < |res.leaves|
        ensures v.body[i][j] == CellSum(txs, rowField, Some(KeyOf(res.rowValues[i])), cols, Keys(res.leaves[j].fullPath))
      {
        BodyCell(txs, rowField, cols, i, j);
      }
      forall j | 0 <= j < |res.leaves|
        ensures v.totals[j] == CellSum(txs, rowField, None, cols, Keys(res.leaves[j].fullPath))
      {
        TotalCell(txs, rowField, cols, j);
      }
    }
  }

  /** Without column groups each row has the single cell holding the sum of its
      transactions' amounts, and the total row the sum of all amounts. */
  lemma {:induction false} RenderNoColumns(txs: seq<Transaction>, rowField: GroupField)
    requires txs != []
    ensures var v := Render(txs, rowField, []);
            && (forall i :: 0 <= i < |v.body| ==> v.body[i] == [SelectedTotal(txs, rowField, Some(KeyOf(v.rowLabels[i])))])
            && v.totals == [Total(txs)]
  {
    var v := Render(txs, rowField, []);
    var res := PivotOf(txs, rowField, []);
    assert res.leaves == [TotalLeaf()] && Keys(TotalLeaf().fullPath) == [];
    RenderSpec(txs, rowField, []);
    forall i | 0 <= i < |v.body|
      ensures v.body[i] == [SelectedTotal(txs, rowField, Some(KeyOf(v.rowLabels[i])))]
    {
      CellSumNoColumns(txs, rowField, Some(KeyOf(v.rowLabels[i])));
    }
    CellSumNoColumns(txs, rowField, None);
    SelectedTotalAll(txs, rowField);
  }

  /** The header rows of a well-formed tree of height `|colGroups|`: one per
      level, each the nodes at that depth, each as wide as the roots and
      expanding to the whole leaf list in order, the nodes of row `d`
      sitting `d + 1` values deep. */
  lemma {:induction false} HeaderRowsShape(tree: seq<ColumnNode>, colGroups: seq<GroupField>)
    requires colGroups != [] && WellFormed(tree, [], |colGroups|)
    ensures var rows := HeaderRows(tree, colGroups);
            && |rows| == |colGroups|
            && (forall d :: 0 <= d < |rows| ==>
                  rows[d] == GetHeaderNodesAtDepth(tree, d) && SpanSum(rows[d]) == SpanSum(tree))
            && (forall d :: 0 <= d < |rows| ==> CollectLeaves(rows[d]) == CollectLeaves(tree))
            && (forall d, k :: 0 <= d < |rows| && 0 <= k < |rows[d]| ==> |rows[d][k].fullPath| == d + 1)
  {
    var rows := HeaderRows(tree, colGroups);
    var h := |colGroups|;
    assert forall d :: 0 <= d < |rows| ==> rows[d] == GetHeaderNodesAtDepth(tree, d);
    forall d | 0 <= d < |rows| ensures SpanSum(rows[d]) == SpanSum(tree) {
      HeaderRowSpan(tree, [], h, d);
    }
    forall d | 0 <= d < |rows| ensures CollectLeaves(rows[d]) == CollectLeaves(tree) {
      HeaderRowCoversLeaves(tree, [], h, d);
    }
    forall d | 0 <= d < |rows| ensures forall k :: 0 <= k < |rows[d]| ==> |rows[d][k].fullPath| == d + 1 {
      HeaderRowDepth(tree, [], h, d);
    }
  }

  /** The header rows: one per column field, the roots first, the nodes at
      each depth next, every row exactly as wide as the table and holding,
      left to right, the ancestors of all the leaves in leaf order, the nodes
      of row `d` labelled by `d + 1` values, the last row being the leaves. */
  lemma {:induction false} HeaderRowsSpec(txs: seq<Transaction>, rowField: GroupField, cols: seq<GroupField>)
    requires cols != []
    ensures var res := PivotOf(txs, rowField, cols);
            var rows := HeaderRows(res.columnTree, cols);
            && |rows| == |cols|
            && rows[0] == res.columnTree
            && (forall d :: 0 <= d < |rows| ==>
                  rows[d] == GetHeaderNodesAtDepth(res.columnTree, d) && SpanSum(rows[d]) == |res.leaves|)
            && (forall d :: 0 <= d < |rows| ==> CollectLeaves(rows[d]) == res.leaves)
            && (forall d, k :: 0 <= d < |rows| && 0 <= k < |rows[d]| ==> |rows[d][k].fullPath| == d + 1)
            && rows[|cols| - 1] == res.leaves
  {
    var tree := BuildColumnTree(txs, cols, []);
    var leaves := CollectLeaves(tree);
    assert PivotOf(txs, rowField, cols).columnTree == tree;
    assert PivotOf(txs, rowField, cols).leaves == leaves;
    assert WellFormed(tree, [], |cols|) by {
      BuildColumnTreeWellFormed(txs, cols, []);
    }
    HeaderRowsShape(tree, cols);
    assert |leaves| == SpanSum(tree) && GetHeaderNodesAtDepth(tree, |cols| - 1) == leaves by {
      LeavesSpec(txs, rowField, cols);
    }
  }

  /** With transactions and column groups, no header row is empty (every
      level has a node over some transaction's values). */
  lemma {:induction false} HeaderRowsNonEmpty(txs: seq<Transaction>, rowField: GroupField, cols: seq<GroupField>)
    requires txs != [] && cols != []
    ensures var rows := HeaderRows(PivotOf(txs, rowField, cols).columnTree, cols);
            forall d :: 0 <= d < |rows| ==> rows[d] != []
  {
    var res := PivotOf(txs, rowField, cols);
    var rows := HeaderRows(res.columnTree, cols);
    assert |res.leaves| > 0 by {
      var leaves := CollectLeaves(BuildColumnTree(txs, cols, []));
      assert res.leaves == leaves;
      LeavesMatchData(txs, cols, []);
      assert HasLeafWithPath(leaves, [] + ValuePath(txs[0], cols));
    }
    HeaderRowsSpec(txs, rowField, cols);
  }

  // ----- the cells add up -----

  /** The column key paths of the leaves. */
  function LeafKeys(leaves: seq<ColumnNode>): (ks: seq<seq<string>>)
    ensures |ks| == |leaves|
    ensures forall j :: 0 <= j < |leaves| ==> ks[j] == Keys(leaves[j].fullPath)
  {
    if leaves == [] then [] else [Keys(leaves[0].fullPath)] + LeafKeys(leaves[1..])
  }

  lemma {:induction false} SumRowCells(txs: seq<Transaction>, rowField: GroupField, row: Option<string>,
                                       cols: seq<GroupField>, base: Option<Aggregate>, leaves: seq<ColumnNode>)
    requires forall j :: 0 <= j < |leaves| ==>
               CellValue(cols, base, leaves[j]) == CellSum(txs, rowField, row, cols, Keys(leaves[j].fullPath))
    ensures Sum(RowCells(cols, base, leaves)) == SumCells(txs, rowField, row, cols, LeafKeys(leaves))
    decreases leaves
  {
    if leaves != [] {
      SumRowCells(txs, rowField, row, cols, base, leaves[1..]);
      assert RowCells(cols, base, leaves)[1..] == RowCells(cols, base, leaves[1..]);
      assert LeafKeys(leaves)[1..] == LeafKeys(leaves[1..]);
    }
  }

  /** Leaves with distinct paths, each path the column values of some
      transaction, have distinct key paths when each column field has one
      representation per key. */
  lemma {:induction false} LeafKeysDistinct(txs: seq<Transaction>, cols: seq<GroupField>, leaves: seq<ColumnNode>)
    requires forall k :: 0 <= k < |cols| ==> OneRepresentation(txs, cols[k])
    requires NoDup(FullPaths(leaves))
    requires forall j :: 0 <= j < |leaves| ==> PathInData(leaves[j].fullPath, txs, cols, [])
    ensures NoDup(LeafKeys(leaves))
  {
    var ks := LeafKeys(leaves);
    forall a, b | 0 <= a < b < |ks| ensures ks[a] != ks[b] {
      assert FullPaths(leaves)[a] != FullPaths(leaves)[b];
      assert PathInData(leaves[a].fullPath, txs, cols, []);
      assert PathInData(leaves[b].fullPath, txs, cols, []);
      var t1 :| t1 in txs && leaves[a].fullPath == [] + ValuePath(t1, cols);
      var t2 :| t2 in txs && leaves[b].fullPath == [] + ValuePath(t2, cols);
      assert [] + ValuePath(t1, cols) == ValuePath(t1, cols) && [] + ValuePath(t2, cols) == ValuePath(t2, cols);
      if ks[a] == ks[b] {
        KeyPathDeterminesValues(txs, cols, t1, t2);
      }
    }
  }

  /** When every transaction's column values label a leaf, every
      transaction's key path is among the leaves' key paths. */
  lemma {:induction false} LeafKeysCover(txs: seq<Transaction>, cols: seq<GroupField>, leaves: seq<ColumnNode>)
    requires forall t :: t in txs ==> HasLeafWithPath(leaves, [] + ValuePath(t, cols))
    ensures forall t :: t in txs ==> KeyPath(t, cols) in LeafKeys(leaves)
  {
    var ks := LeafKeys(leaves);
    forall t | t in txs ensures KeyPath(t, cols) in ks {
      assert HasLeafWithPath(leaves, [] + ValuePath(t, cols));
      var j :| 0 <= j < |leaves| && leaves[j].fullPath == [] + ValuePath(t, cols);
      assert [] + ValuePath(t, cols) == ValuePath(t, cols);
      assert ks[j] == KeyPath(t, cols);
    }
  }

  /** Under one representation per column field, the leaves' key paths are
      distinct and every transaction's column keys are among them. */
  lemma {:induction false} LeafKeysPartition(txs: seq<Transaction>, rowField: GroupField, cols: seq<GroupField>)
    requires forall k :: 0 <= k < |cols| ==> OneRepresentation(txs, cols[k])
    ensures var ks := LeafKeys(PivotOf(txs, rowField, cols).leaves);
            NoDup(ks) && forall t :: t in txs ==> KeyPath(t, cols) in ks
  {
    if cols == [] {
      assert PivotOf(txs, rowField, cols).leaves == [TotalLeaf()];
      assert LeafKeys([TotalLeaf()]) == [[]];
      forall t | t in txs ensures KeyPath(t, cols) in [[]] {
        assert KeyPath(t, cols) == [];
      }
    } else {
      var tree := BuildColumnTree(txs, cols, []);
      var leaves := CollectLeaves(tree);
      assert PivotOf(txs, rowField, cols).leaves == leaves;
      assert NoDup(FullPaths(leaves)) by {
        LeavesSpec(txs, rowField, cols);
      }
      LeavesMatchData(txs, cols, []);
      LeafKeysDistinct(txs, cols, leaves);
      LeafKeysCover(txs, cols, leaves);
    }
  }

  /** Under one representation per column field, the cells of a body row add
      up to the sum of the amounts of the row's transactions. */
  lemma {:induction false} RowCellsAddUp(txs: seq<Transaction>, rowField: GroupField, cols: seq<GroupField>, i: int)
    requires txs != []
    requires forall k :: 0 <= k < |cols| ==> OneRepresentation(txs, cols[k])
    requires 0 <= i < |Render(txs, rowField, cols).body|
    ensures var v := Render(txs, rowField, cols);
            Sum(v.body[i]) == SelectedTotal(txs, rowField, Some(KeyOf(v.rowLabels[i])))
  {
    var v := Render(txs, rowField, cols);
    var res := PivotOf(txs, rowField, cols);
    var r := KeyOf(res.rowValues[i]);
    var base := RowEntry(res.pivotMap, res.rowValues[i]);
    assert v.rowLabels == res.rowValues && v.body[i] == RowCells(cols, base, res.leaves);
    forall j | 0 <= j < |res.leaves|
      ensures CellValue(cols, base, res.leaves[j]) == CellSum(txs, rowField, Some(r), cols, Keys(res.leaves[j].fullPath))
    {
      BodyCell(txs, rowField, cols, i, j);
    }
    SumRowCells(txs, rowField, Some(r), cols, base, res.leaves);
    assert SumCells(txs, rowField, Some(r), cols, LeafKeys(res.leaves)) == SelectedTotal(txs, rowField, Some(r)) by {
      LeafKeysPartition(txs, rowField, cols);
      SumCellsPartition(txs, rowField, Some(r), cols, LeafKeys(res.leaves));
    }
  }

  /** Under one representation per column field, the cells of the total row
      add up to the sum of all amounts. */
  lemma {:induction false} TotalCellsAddUp(txs: seq<Transaction>, rowField: GroupField, cols: seq<GroupField>)
    requires txs != []
    requires forall k :: 0 <= k < |cols| ==> OneRepresentation(txs, cols[k])
    ensures Sum(Render(txs, rowField, cols).totals) == Total(txs)
  {
    var res := PivotOf(txs, rowField, cols);
    RenderSpec(txs, rowField, cols);
    SumRowCells(txs, rowField, None, cols, Some(res.totalMap), res.leaves);
    LeafKeysPartition(txs, rowField, cols);
    SumCellsPartition(txs, rowField, None, cols, LeafKeys(res.leaves));
    SelectedTotalAll(txs, rowField);
  }

  lemma {:induction false} ColumnSumRows(txs: seq<Transaction>, rowField: GroupField, cols: seq<GroupField>,
                                         body: seq<seq<real>>, j: nat, rows: seq<string>, keys: seq<string>)
    requires |body| == |rows|
    requires forall i :: 0 <= i < |body| ==>
               j < |body[i]| && body[i][j] == CellSum(txs, rowField, Some(rows[i]), cols, keys)
    ensures ColumnSum(body, j) == SumRows(txs, rowField, rows, cols, keys)
    decreases rows
  {
    if rows != [] {
      ColumnSumRows(txs, rowField, cols, body[1..], j, rows[1..], keys);
    }
  }

  /** Under one representation of the row field, the row labels' keys are
      distinct and every transaction's row key is among them. */
  lemma {:induction false} RowKeysPartition(txs: seq<Transaction>, rowField: GroupField, cols: seq<GroupField>)
    requires OneRepresentation(txs, rowField)
    ensures var rk := Keys(PivotOf(txs, rowField, cols).rowValues);
            NoDup(rk) && forall t :: t in txs ==> RowKey(t, rowField) in rk
  {
    var rv := PivotOf(txs, rowField, cols).rowValues;
    var rk := Keys(rv);
    RowValuesSpec(txs, rowField, cols);
    forall a, b | 0 <= a < b < |rk| ensures rk[a] != rk[b] {
      KeysAt(rv, a);
      KeysAt(rv, b);
      assert Occurs(txs, rowField, rv[a]) && Occurs(txs, rowField, rv[b]);
      var t1 :| t1 in txs && FieldValue(t1, rowField) == rv[a];
      var t2 :| t2 in txs && FieldValue(t2, rowField) == rv[b];
    }
    forall t | t in txs ensures RowKey(t, rowField) in rk {
      var v := FieldValue(t, rowField);
      assert Occurs(txs, rowField, v);
      var i :| 0 <= i < |rv| && rv[i] == v;
      KeysAt(rv, i);
    }
  }

  /** Under one representation of the row field, the body cells of each
      column add up to that column's total-row cell. */
  lemma {:induction false} ColumnCellsAddUp(txs: seq<Transaction>, rowField: GroupField, cols: seq<GroupField>, j: nat)
    requires txs != []
    requires OneRepresentation(txs, rowField)
    requires j < |Render(txs, rowField, cols).totals|
    ensures var v := Render(txs, rowField, cols);
            ColumnSum(v.body, j) == v.totals[j]
  {
    var v := Render(txs, rowField, cols);
    var res := PivotOf(txs, rowField, cols);
    var rk := Keys(res.rowValues);
    var keys := Keys(res.leaves[j].fullPath);
    RenderSpec(txs, rowField, cols);
    forall i | 0 <= i < |v.body|
      ensures j < |v.body[i]| && v.body[i][j] == CellSum(txs, rowField, Some(rk[i]), cols, keys)
    {
      KeysAt(res.rowValues, i);
    }
    ColumnSumRows(txs, rowField, cols, v.body, j, rk, keys);
    RowKeysPartition(txs, rowField, cols);
    SumRowsPartition(txs, rowField, rk, cols, keys);
  }
}
