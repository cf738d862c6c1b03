/** Sum conservation across the aggregates of `pivotData` (src/utils.ts): the
    cells of one row add up to that row's amounts, the rows of one column add
    up to the grand total's cell, and with no column fields every aggregate is
    a single running sum. */
module Conservation {
  import opened PivotTypes
  import opened Aggregation
  import opened ValueOrder

  /** The grand total selects every transaction: its sum is the sum of all amounts. */
  lemma {:induction false} SelectedTotalAll(txs: seq<Transaction>, rowField: GroupField)
    ensures SelectedTotal(txs, rowField, None) == Total(txs)
  {
    if txs != [] {
      SelectedTotalAll(txs[..|txs| - 1], rowField);
    }
  }

  /** With no column fields, an aggregate is the single sum of the selected
      amounts (`pivotMap[rowVal] += amt`, `totalMap += amt`). */
  lemma {:induction false} AggregateOfNoColumns(txs: seq<Transaction>, rowField: GroupField, row: Option<string>)
    ensures AggregateOf(txs, rowField, row, []) == Scalar(SelectedTotal(txs, rowField, row))
  {
    if txs != [] {
      AggregateOfNoColumns(txs[..|txs| - 1], rowField, row);
      assert KeyPath(txs[|txs| - 1], []) == [];
    }
  }

  /** With no column fields every selected transaction lands in the one cell. */
  lemma {:induction false} CellSumNoColumns(txs: seq<Transaction>, rowField: GroupField, row: Option<string>)
    ensures CellSum(txs, rowField, row, [], []) == SelectedTotal(txs, rowField, row)
  {
    if txs != [] {
      CellSumNoColumns(txs[..|txs| - 1], rowField, row);
      assert KeyPath(txs[|txs| - 1], []) == [];
    }
  }

  // ----- the cells of one row -----

  /** The cells at the column key paths `paths`, added up. */
  function SumCells(txs: seq<Transaction>, rowField: GroupField, row: Option<string>,
                    cols: seq<GroupField>, paths: seq<seq<string>>): real
  {
    if paths == [] then 0.0
    else CellSum(txs, rowField, row, cols, paths[0]) + SumCells(txs, rowField, row, cols, paths[1..])
  }

  lemma {:induction false} SumCellsEmpty(rowField: GroupField, row: Option<string>,
                                         cols: seq<GroupField>, paths: seq<seq<string>>)
    ensures SumCells([], rowField, row, cols, paths) == 0.0
  {
    if paths != [] {
      SumCellsEmpty(rowField, row, cols, paths[1..]);
    }
  }

  /** What transaction `t` adds to the cell at `keys`. */
  function Share(t: Transaction, rowField: GroupField, row: Option<string>,
                 cols: seq<GroupField>, keys: seq<string>): real
  {
    if Selected(t, rowField, row) && KeyPath(t, cols) == keys then Amount(t) else 0.0
  }

  /** What transaction `t` adds to the cells at `paths` together. */
  function ShareIn(t: Transaction, rowField: GroupField, row: Option<string>,
                   cols: seq<GroupField>, paths: seq<seq<string>>): real
  {
    if Selected(t, rowField, row) && KeyPath(t, cols) in paths then Amount(t) else 0.0
  }

  lemma {:induction false} CellSumLast(txs: seq<Transaction>, rowField: GroupField, row: Option<string>,
                                       cols: seq<GroupField>, keys: seq<string>)
    requires txs != []
    ensures CellSum(txs, rowField, row, cols, keys) ==
            CellSum(txs[..|txs| - 1], rowField, row, cols, keys) + Share(txs[|txs| - 1], rowField, row, cols, keys)
  {
  }

  /** A transaction lands in at most one of distinct key paths. */
  lemma {:induction false} ShareInCons(t: Transaction, rowField: GroupField, row: Option<string>,
                                       cols: seq<GroupField>, paths: seq<seq<string>>)
    requires paths != [] && paths[0] !in paths[1..]
    ensures ShareIn(t, rowField, row, cols, paths) ==
            Share(t, rowField, row, cols, paths[0]) + ShareIn(t, rowField, row, cols, paths[1..])
  {
    assert KeyPath(t, cols) in paths <==> KeyPath(t, cols) == paths[0] || KeyPath(t, cols) in paths[1..] by {
      assert paths == [paths[0]] + paths[1..];
    }
  }

  /** Adding the last transaction adds its amount to exactly one of the
      distinct key paths, the one it carries, if that is among them. */
  lemma {:induction false} SumCellsStep(txs: seq<Transaction>, rowField: GroupField, row: Option<string>,
                                        cols: seq<GroupField>, paths: seq<seq<string>>)
    requires txs != [] && NoDup(paths)
    ensures SumCells(txs, rowField, row, cols, paths) ==
            SumCells(txs[..|txs| - 1], rowField, row, cols, paths) + ShareIn(txs[|txs| - 1], rowField, row, cols, paths)
    decreases paths
  {
    if paths != [] {
      NoDupTail(paths);
      SumCellsStep(txs, rowField, row, cols, paths[1..]);
      CellSumLast(txs, rowField, row, cols, paths[0]);
      ShareInCons(txs[|txs| - 1], rowField, row, cols, paths);
    }
  }

  /** When the distinct key paths cover every selected transaction, the cells
      at those paths add up to the sum of the selected amounts. */
  lemma {:induction false} SumCellsPartition(txs: seq<Transaction>, rowField: GroupField, row: Option<string>,
                                             cols: seq<GroupField>, paths: seq<seq<string>>)
    requires NoDup(paths)
    requires forall t :: t in txs && Selected(t, rowField, row) ==> KeyPath(t, cols) in paths
    ensures SumCells(txs, rowField, row, cols, paths) == SelectedTotal(txs, rowField, row)
  {
    if txs == [] {
      SumCellsEmpty(rowField, row, cols, paths);
    } else {
      var init := txs[..|txs| - 1];
      assert forall t :: t in init ==> t in txs;
      assert txs[|txs| - 1] in txs;
      SumCellsPartition(init, rowField, row, cols, paths);
      SumCellsStep(txs, rowField, row, cols, paths);
    }
  }

  // ----- the rows of one column -----

  /** The cells at column key path `keys` of the rows `rows`, added up. */
  function SumRows(txs: seq<Transaction>, rowField: GroupField, rows: seq<string>,
                   cols: seq<GroupField>, keys: seq<string>): real
  {
    if rows == [] then 0.0
    else CellSum(txs, rowField, Some(rows[0]), cols, keys) + SumRows(txs, rowField, rows[1..], cols, keys)
  }

  lemma {:induction false} SumRowsEmpty(rowField: GroupField, rows: seq<string>, cols: seq<GroupField>, keys: seq<string>)
    ensures SumRows([], rowField, rows, cols, keys) == 0.0
  {
    if rows != [] {
      SumRowsEmpty(rowField, rows[1..], cols, keys);
    }
  }

  /** What transaction `t` adds to the cells at `keys` of the rows `rows` together. */
  function RowShareIn(t: Transaction, rowField: GroupField, rows: seq<string>,
                      cols: seq<GroupField>, keys: seq<string>): real
  {
    if RowKey(t, rowField) in rows && KeyPath(t, cols) == keys then Amount(t) else 0.0
  }

  /** A transaction lands in at most one of distinct rows. */
  lemma {:induction false} RowShareInCons(t: Transaction, rowField: GroupField, rows: seq<string>,
                                          cols: seq<GroupField>, keys: seq<string>)
    requires rows != [] && rows[0] !in rows[1..]
    ensures RowShareIn(t, rowField, rows, cols, keys) ==
            Share(t, rowField, Some(rows[0]), cols, keys) + RowShareIn(t, rowField, rows[1..], cols, keys)
  {
    assert RowKey(t, rowField) in rows <==> RowKey(t, rowField) == rows[0] || RowKey(t, rowField) in rows[1..] by {
      assert rows == [rows[0]] + rows[1..];
    }
  }

  /** Adding the last transaction adds its amount to exactly one of the
      distinct rows, its own, if that is among them. */
  lemma {:induction false} SumRowsStep(txs: seq<Transaction>, rowField: GroupField, rows: seq<string>,
                                       cols: seq<GroupField>, keys: seq<string>)
    requires txs != [] && NoDup(rows)
    ensures SumRows(txs, rowField, rows, cols, keys) ==
            SumRows(txs[..|txs| - 1], rowField, rows, cols, keys) + RowShareIn(txs[|txs| - 1], rowField, rows, cols, keys)
    decreases rows
  {
    if rows != [] {
      NoDupTail(rows);
      SumRowsStep(txs, rowField, rows[1..], cols, keys);
      CellSumLast(txs, rowField, Some(rows[0]), cols, keys);
      RowShareInCons(txs[|txs| - 1], rowField, rows, cols, keys);
    }
  }

  /** When the distinct rows cover every transaction, their cells at one
      column key path add up to the grand total's cell there. */
  lemma {:induction false} SumRowsPartition(txs: seq<Transaction>, rowField: GroupField, rows: seq<string>,
                                            cols: seq<GroupField>, keys: seq<string>)
    requires NoDup(rows)
    requires forall t :: t in txs ==> RowKey(t, rowField) in rows
    ensures SumRows(txs, rowField, rows, cols, keys) == CellSum(txs, rowField, None, cols, keys)
  {
    if txs == [] {
      SumRowsEmpty(rowField, rows, cols, keys);
    } else {
      var init := txs[..|txs| - 1];
      assert forall t :: t in init ==> t in txs;
      assert txs[|txs| - 1] in txs;
      SumRowsPartition(init, rowField, rows, cols, keys);
      SumRowsStep(txs, rowField, rows, cols, keys);
      CellSumLast(txs, rowField, None, cols, keys);
    }
  }

  // ----- keys against values -----

  /** The values of field `f` that occur in `txs` have distinct keys: the data
      does not carry both `2024` and `'2024'`. */
  predicate OneRepresentation(txs: seq<Transaction>, f: GroupField)
  {
    forall t1, t2 :: t1 in txs && t2 in txs && KeyOf(FieldValue(t1, f)) == KeyOf(FieldValue(t2, f)) ==>
      FieldValue(t1, f) == FieldValue(t2, f)
  }

  /** Why one representation is needed: a number and its decimal string are
      different values, both numeric-like and tied by `sortValues`, yet an
      object files them under the same key. */
  lemma {:induction false} KeyCollision(n: int)
    ensures Num(n) != Str(KeyOf(Num(n)))
    ensures KeyOf(Str(KeyOf(Num(n)))) == KeyOf(Num(n))
    ensures IsNumericLike(Str(KeyOf(Num(n))))
    ensures SortValues(Num(n), Str(KeyOf(Num(n)))) == 0
  {
    NumberKeyRoundTrip(n);
  }

  lemma {:induction false} KeysAt(vs: seq<Value>, i: int)
    requires 0 <= i < |vs|
    ensures Keys(vs)[i] == KeyOf(vs[i])
    decreases i
  {
    if i > 0 {
      KeysAt(vs[1..], i - 1);
    }
  }

  /** Under one representation per column field, a transaction's column keys
      determine its column values. */
  lemma {:induction false} KeyPathDeterminesValues(txs: seq<Transaction>, cols: seq<GroupField>,
                                                   t1: Transaction, t2: Transaction)
    requires t1 in txs && t2 in txs
    requires forall i :: 0 <= i < |cols| ==> OneRepresentation(txs, cols[i])
    requires KeyPath(t1, cols) == KeyPath(t2, cols)
    ensures ValuePath(t1, cols) == ValuePath(t2, cols)
  {
    var p1 := ValuePath(t1, cols);
    var p2 := ValuePath(t2, cols);
    forall i | 0 <= i < |cols| ensures p1[i] == p2[i] {
      KeysAt(p1, i);
      KeysAt(p2, i);
      assert OneRepresentation(txs, cols[i]);
    }
  }
}
