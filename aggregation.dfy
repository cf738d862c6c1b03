/** The aggregation pass of `pivotData` (src/utils.ts): one loop over the
    transactions that adds each amount into a nested per-row map and into a
    grand-total map of the same shape. */
module Aggregation {
  import opened PivotTypes
  import opened ValueOrder

  /** A nested aggregate: a running sum at the last level, or a JavaScript
      object from a value's key to the aggregate one level down. */
  datatype Aggregate = Scalar(sum: real) | Nested(entries: map<string, Aggregate>)

  /** The property name a JavaScript object files a value under: `String(v)`.
      `2024` and `'2024'` are the same key. */
  function KeyOf(v: Value): string
  {
    ToStr(v)
  }

  function Keys(vs: seq<Value>): (ks: seq<string>)
    ensures |ks| == |vs|
  {
    if vs == [] then [] else [KeyOf(vs[0])] + Keys(vs[1..])
  }

  /** The keys of a transaction's column values, in field order. */
  function KeyPath(t: Transaction, cols: seq<GroupField>): seq<string>
  {
    Keys(ValuePath(t, cols))
  }

  /** `pivotMap[t[rowField]]` files the transaction under this key. */
  function RowKey(t: Transaction, rowField: GroupField): string
  {
    KeyOf(FieldValue(t, rowField))
  }

  /** The row keys that occur in `txs`. */
  function RowKeys(txs: seq<Transaction>, rowField: GroupField): set<string>
  {
    if txs == [] then {} else RowKeys(txs[..|txs| - 1], rowField) + {RowKey(txs[|txs| - 1], rowField)}
  }

  /** A fresh entry `depth` levels above the sums: `{}`, or `0` at the last level. */
  function Empty(depth: nat): Aggregate
  {
    if depth == 0 then Scalar(0.0) else Nested(map[])
  }

  /** JavaScript falsiness of a stored entry: a sum of 0 (an object never is). */
  predicate Falsy(a: Aggregate)
  {
    a == Scalar(0.0)
  }

  /** Walk down `keys`, creating `{}` for a missing intermediate key
      (`node[key] ??= {}`) and 0 for a missing last key, and add `amt` at the end
      (`node[lastKey] = (node[lastKey] ?? 0) + amt`); with no keys, `+= amt`.
      An aggregate of the wrong depth is returned unchanged; no caller passes one. */
  function AddAt(agg: Aggregate, keys: seq<string>, amt: real): Aggregate
    decreases keys
  {
    if keys == [] then
      match agg
      case Scalar(s) => Scalar(s + amt)
      case Nested(_) => agg
    else
      match agg
      case Scalar(_) => agg
      case Nested(m) =>
        var child := if keys[0] in m then m[keys[0]] else Empty(|keys| - 1);
        Nested(m[keys[0] := AddAt(child, keys[1..], amt)])
  }

  /** The entry reached by following `keys`: present only if every key is there
      and the last level is a sum. */
  function Get(agg: Aggregate, keys: seq<string>): Option<real>
    decreases keys
  {
    if keys == [] then
      (if agg.Scalar? then Some(agg.sum) else None)
    else if agg.Nested? && keys[0] in agg.entries then Get(agg.entries[keys[0]], keys[1..])
    else None
  }

  /** Objects for `depth` levels, then sums. */
  predicate Shaped(agg: Aggregate, depth: nat)
    decreases depth
  {
    if depth == 0 then agg.Scalar?
    else agg.Nested? && forall k :: k in agg.entries ==> Shaped(agg.entries[k], depth - 1)
  }

  /** The transactions an aggregate covers: one row's (`Some(key)`), or every
      row's for the grand total (`None`). */
  predicate Selected(t: Transaction, rowField: GroupField, row: Option<string>)
  {
    row.None? || RowKey(t, rowField) == row.value
  }

  /** The aggregate after adding, in order, every selected transaction of `txs`:
      `pivotMap[row]` for `Some(row)`, `totalMap` for `None`. */
  function AggregateOf(txs: seq<Transaction>, rowField: GroupField, row: Option<string>,
                       cols: seq<GroupField>): Aggregate
  {
    if txs == [] then Empty(|cols|)
    else
      var prev := AggregateOf(txs[..|txs| - 1], rowField, row, cols);
      var t := txs[|txs| - 1];
      if Selected(t, rowField, row) then AddAt(prev, KeyPath(t, cols), Amount(t)) else prev
  }

  /** The sum of the amounts of the selected transactions whose column keys are `keys`. */
  function CellSum(txs: seq<Transaction>, rowField: GroupField, row: Option<string>,
                   cols: seq<GroupField>, keys: seq<string>): real
  {
    if txs == [] then 0.0
    else
      var t := txs[|txs| - 1];
      CellSum(txs[..|txs| - 1], rowField, row, cols, keys)
        + (if Selected(t, rowField, row) && KeyPath(t, cols) == keys then Amount(t) else 0.0)
  }

  /** Some selected transaction has column keys `keys`. */
  predicate CellOccurs(txs: seq<Transaction>, rowField: GroupField, row: Option<string>,
                       cols: seq<GroupField>, keys: seq<string>)
  {
    exists t :: t in txs && Selected(t, rowField, row) && KeyPath(t, cols) == keys
  }

  /** The sum of the amounts of the selected transactions. */
  function SelectedTotal(txs: seq<Transaction>, rowField: GroupField, row: Option<string>): real
  {
    if txs == [] then 0.0
    else
      var t := txs[|txs| - 1];
      SelectedTotal(txs[..|txs| - 1], rowField, row) + (if Selected(t, rowField, row) then Amount(t) else 0.0)
  }

  /** The per-row aggregates: one entry per row key that occurs. */
  function RowAggregates(txs: seq<Transaction>, rowField: GroupField, cols: seq<GroupField>): map<string, Aggregate>
  {
    map r | r in RowKeys(txs, rowField) :: AggregateOf(txs, rowField, Some(r), cols)
  }

  /** The entry stored under `r`, or a fresh one `depth` levels deep. */
  function Entry(m: map<string, Aggregate>, r: string, depth: nat): Aggregate
  {
    if r in m then m[r] else Empty(depth)
  }

  /** One iteration of the loop of step 4 of `pivotData`: make sure the row has
      an entry (a missing or falsy one is reset to `0` or `{}`), then add the
      amount at the column keys in the row's entry and in the grand total. */
  method AddTransaction(pivotMap: map<string, Aggregate>, totalMap: Aggregate, t: Transaction,
                        rowField: GroupField, cols: seq<GroupField>)
    returns (pivotMap': map<string, Aggregate>, totalMap': Aggregate)
    requires totalMap.Scalar? <==> |cols| == 0
    requires RowKey(t, rowField) in pivotMap ==> (pivotMap[RowKey(t, rowField)].Scalar? <==> |cols| == 0)
    ensures var r := RowKey(t, rowField);
            pivotMap' == pivotMap[r := AddAt(Entry(pivotMap, r, |cols|), KeyPath(t, cols), Amount(t))]
    ensures totalMap' == AddAt(totalMap, KeyPath(t, cols), Amount(t))
  {
    var noCols := |cols| == 0;
    var rowVal := RowKey(t, rowField);
    var amt := Amount(t);
    ghost var cur := Entry(pivotMap, rowVal, |cols|);
    pivotMap' := pivotMap;
    if rowVal !in pivotMap' || Falsy(pivotMap'[rowVal]) {
      pivotMap' := pivotMap'[rowVal := if noCols then Scalar(0.0) else Nested(map[])];
    } else {
      UpdateSame(pivotMap, rowVal);
    }
    assert pivotMap' == pivotMap[rowVal := cur];
    if noCols {
      pivotMap' := pivotMap'[rowVal := Scalar(pivotMap'[rowVal].sum + amt)];
      totalMap' := Scalar(totalMap.sum + amt);
    } else {
      var keys := KeyPath(t, cols);
      pivotMap' := pivotMap'[rowVal := AddAt(pivotMap'[rowVal], keys, amt)];
      totalMap' := AddAt(totalMap, keys, amt);
    }
    UpdateTwice(pivotMap, rowVal, cur, AddAt(cur, KeyPath(t, cols), amt));
  }

  /** Step 4 of `pivotData`: one pass over the transactions that files each
      amount under its row and column keys and mirrors it into the grand total. */
  method AggregateTransactions(txs: seq<Transaction>, rowField: GroupField, cols: seq<GroupField>)
    returns (pivotMap: map<string, Aggregate>, totalMap: Aggregate)
    ensures totalMap == AggregateOf(txs, rowField, None, cols)
    ensures pivotMap == RowAggregates(txs, rowField, cols)
    ensures pivotMap.Keys == RowKeys(txs, rowField)
    ensures forall r :: r in pivotMap ==> pivotMap[r] == AggregateOf(txs, rowField, Some(r), cols)
  {
    pivotMap := map[];
    totalMap := if |cols| == 0 then Scalar(0.0) else Nested(map[]);
    var i := 0;
    AggregationStart(txs, rowField, cols);
    while i < |txs|
      invariant 0 <= i <= |txs|
      invariant totalMap == AggregateOf(txs[..i], rowField, None, cols)
      invariant pivotMap == RowAggregates(txs[..i], rowField, cols)
    {
      AggregationKinds(txs, i, rowField, cols, pivotMap, totalMap);
      ghost var rows := pivotMap;
      ghost var total := totalMap;
      pivotMap, totalMap := AddTransaction(pivotMap, totalMap, txs[i], rowField, cols);
      AggregationStep(txs, i, rowField, cols, rows, total, pivotMap, totalMap);
      i := i + 1;
    }
    AggregationEnd(txs, rowField, cols, pivotMap, totalMap);
  }

  // ----- lemmas -----

  lemma {:induction false} UpdateSame<K, V>(m: map<K, V>, k: K)
    requires k in m
    ensures m[k := m[k]] == m
  {
  }

  lemma {:induction false} UpdateTwice<K, V>(m: map<K, V>, k: K, a: V, b: V)
    ensures m[k := a][k := b] == m[k := b]
  {
  }

  lemma {:induction false} AggregationStart(txs: seq<Transaction>, rowField: GroupField, cols: seq<GroupField>)
    ensures AggregateOf(txs[..0], rowField, None, cols) == if |cols| == 0 then Scalar(0.0) else Nested(map[])
    ensures RowAggregates(txs[..0], rowField, cols) == map[]
  {
    assert txs[..0] == [];
  }

  lemma {:induction false} AggregationEnd(txs: seq<Transaction>, rowField: GroupField, cols: seq<GroupField>,
                       rows: map<string, Aggregate>, total: Aggregate)
    requires rows == RowAggregates(txs[..|txs|], rowField, cols)
    requires total == AggregateOf(txs[..|txs|], rowField, None, cols)
    ensures total == AggregateOf(txs, rowField, None, cols)
    ensures rows == RowAggregates(txs, rowField, cols)
    ensures rows.Keys == RowKeys(txs, rowField)
    ensures forall r :: r in rows ==> rows[r] == AggregateOf(txs, rowField, Some(r), cols)
  {
    assert txs[..|txs|] == txs;
  }

  /** The loop's maps have the shape `AddTransaction` expects. */
  lemma {:induction false} AggregationKinds(txs: seq<Transaction>, i: int, rowField: GroupField, cols: seq<GroupField>,
                         rows: map<string, Aggregate>, total: Aggregate)
    requires 0 <= i < |txs|
    requires rows == RowAggregates(txs[..i], rowField, cols)
    requires total == AggregateOf(txs[..i], rowField, None, cols)
    ensures total.Scalar? <==> |cols| == 0
    ensures RowKey(txs[i], rowField) in rows ==> (rows[RowKey(txs[i], rowField)].Scalar? <==> |cols| == 0)
  {
    AggregateOfKind(txs[..i], rowField, Some(RowKey(txs[i], rowField)), cols);
    AggregateOfKind(txs[..i], rowField, None, cols);
  }

  /** One more transaction: the aggregate is the previous one, with the
      transaction's amount added if it is selected. */
  lemma {:induction false} AggregateOfStep(txs: seq<Transaction>, i: int, rowField: GroupField, row: Option<string>, cols: seq<GroupField>)
    requires 0 <= i < |txs|
    ensures AggregateOf(txs[..i + 1], rowField, row, cols) ==
              if Selected(txs[i], rowField, row)
              then AddAt(AggregateOf(txs[..i], rowField, row, cols), KeyPath(txs[i], cols), Amount(txs[i]))
              else AggregateOf(txs[..i], rowField, row, cols)
  {
    assert txs[..i + 1][..i] == txs[..i];
  }

  /** What one iteration of the loop keeps: the maps cover one transaction more. */
  lemma {:induction false} AggregationStep(txs: seq<Transaction>, i: int, rowField: GroupField, cols: seq<GroupField>,
                        rows: map<string, Aggregate>, total: Aggregate,
                        rows': map<string, Aggregate>, total': Aggregate)
    requires 0 <= i < |txs|
    requires rows == RowAggregates(txs[..i], rowField, cols)
    requires total == AggregateOf(txs[..i], rowField, None, cols)
    requires var r := RowKey(txs[i], rowField);
             rows' == rows[r := AddAt(Entry(rows, r, |cols|), KeyPath(txs[i], cols), Amount(txs[i]))]
    requires total' == AddAt(total, KeyPath(txs[i], cols), Amount(txs[i]))
    ensures total' == AggregateOf(txs[..i + 1], rowField, None, cols)
    ensures rows' == RowAggregates(txs[..i + 1], rowField, cols)
  {
    var r := RowKey(txs[i], rowField);
    if r !in rows {
      AggregateOfUnselected(txs[..i], rowField, r, cols);
    }
    assert Entry(rows, r, |cols|) == AggregateOf(txs[..i], rowField, Some(r), cols);
    RowAggregatesStep(txs, i, rowField, cols);
    TotalStep(txs, i, rowField, cols);
  }

  lemma {:induction false} TotalStep(txs: seq<Transaction>, i: int, rowField: GroupField, cols: seq<GroupField>)
    requires 0 <= i < |txs|
    ensures AggregateOf(txs[..i + 1], rowField, None, cols) ==
            AddAt(AggregateOf(txs[..i], rowField, None, cols), KeyPath(txs[i], cols), Amount(txs[i]))
  {
    AggregateOfStep(txs, i, rowField, None, cols);
  }

  lemma {:induction false} RowAggregatesStep(txs: seq<Transaction>, i: int, rowField: GroupField, cols: seq<GroupField>)
    requires 0 <= i < |txs|
    ensures var r := RowKey(txs[i], rowField);
            RowAggregates(txs[..i + 1], rowField, cols) ==
            RowAggregates(txs[..i], rowField, cols)[r := AddAt(AggregateOf(txs[..i], rowField, Some(r), cols), KeyPath(txs[i], cols), Amount(txs[i]))]
  {
    RowKeysStep(txs, i, rowField);
    var after := RowAggregates(txs[..i + 1], rowField, cols);
    var r0 := RowKey(txs[i], rowField);
    var expected := RowAggregates(txs[..i], rowField, cols)[r0 := AddAt(AggregateOf(txs[..i], rowField, Some(r0), cols), KeyPath(txs[i], cols), Amount(txs[i]))];
    forall r | r in after ensures r in expected && after[r] == expected[r] {
      AggregateOfStep(txs, i, rowField, Some(r), cols);
    }
  }

  lemma {:induction false} RowKeysStep(txs: seq<Transaction>, i: int, rowField: GroupField)
    requires 0 <= i < |txs|
    ensures RowKeys(txs[..i + 1], rowField) == RowKeys(txs[..i], rowField) + {RowKey(txs[i], rowField)}
  {
    assert txs[..i + 1][..i] == txs[..i];
  }

  /** A key is a row key exactly when some transaction's row value has it. */
  lemma {:induction false} RowKeysMembers(txs: seq<Transaction>, rowField: GroupField, r: string)
    ensures r in RowKeys(txs, rowField) <==> exists t :: t in txs && RowKey(t, rowField) == r
  {
    if txs != [] {
      var init := txs[..|txs| - 1];
      var last := txs[|txs| - 1];
      RowKeysMembers(init, rowField, r);
      assert txs == init + [last];
      assert forall t :: t in txs <==> t in init || t == last;
    }
  }


  /** A row key no transaction has gets an empty aggregate. */
  lemma {:induction false} AggregateOfUnselected(txs: seq<Transaction>, rowField: GroupField, r: string, cols: seq<GroupField>)
    requires r !in RowKeys(txs, rowField)
    ensures AggregateOf(txs, rowField, Some(r), cols) == Empty(|cols|)
  {
    if txs != [] {
      AggregateOfUnselected(txs[..|txs| - 1], rowField, r, cols);
    }
  }


  lemma {:induction false} AddAtShaped(agg: Aggregate, keys: seq<string>, amt: real)
    requires Shaped(agg, |keys|)
    ensures Shaped(AddAt(agg, keys, amt), |keys|)
    decreases keys
  {
    if keys != [] {
      var m := agg.entries;
      var child := if keys[0] in m then m[keys[0]] else Empty(|keys| - 1);
      AddAtShaped(child, keys[1..], amt);
    }
  }

  /** Every aggregate the loop builds has one object level per column field. */
  lemma {:induction false} AggregateOfShaped(txs: seq<Transaction>, rowField: GroupField, row: Option<string>, cols: seq<GroupField>)
    ensures Shaped(AggregateOf(txs, rowField, row, cols), |cols|)
  {
    if txs != [] {
      AggregateOfShaped(txs[..|txs| - 1], rowField, row, cols);
      AddAtShaped(AggregateOf(txs[..|txs| - 1], rowField, row, cols), KeyPath(txs[|txs| - 1], cols), Amount(txs[|txs| - 1]));
    }
  }

  lemma {:induction false} AggregateOfKind(txs: seq<Transaction>, rowField: GroupField, row: Option<string>, cols: seq<GroupField>)
    ensures AggregateOf(txs, rowField, row, cols).Scalar? <==> |cols| == 0
  {
    AggregateOfShaped(txs, rowField, row, cols);
  }

  function GetOrZero(o: Option<real>): real
  {
    if o.Some? then o.value else 0.0
  }

  /** `(entry ?? 0) + amt` */
  function AddToEntry(o: Option<real>, amt: real): Option<real>
  {
    Some(GetOrZero(o) + amt)
  }

  lemma {:induction false} GetEmpty(depth: nat, keys: seq<string>)
    requires |keys| == depth
    ensures Get(Empty(depth), keys) == if depth == 0 then Some(0.0) else None
  {
  }

  /** Adding at `keys` changes the entry at `keys` (creating it at 0 first) and
      no other. */
  lemma {:induction false} GetAddAt(agg: Aggregate, keys: seq<string>, amt: real, probe: seq<string>)
    requires Shaped(agg, |keys|) && |probe| == |keys|
    ensures Get(AddAt(agg, keys, amt), probe) ==
              if probe == keys then AddToEntry(Get(agg, keys), amt) else Get(agg, probe)
    decreases keys
  {
    if keys != [] {
      var m := agg.entries;
      var k := keys[0];
      var child := if k in m then m[k] else Empty(|keys| - 1);
      if probe[0] == k {
        GetAddAt(child, keys[1..], amt, probe[1..]);
        assert probe == keys <==> probe[1..] == keys[1..] by {
          assert probe == [probe[0]] + probe[1..] && keys == [k] + keys[1..];
        }
        if k !in m { GetEmpty(|keys| - 1, keys[1..]); GetEmpty(|keys| - 1, probe[1..]); }
      }
    }
  }

  lemma {:induction false} CellSumAbsent(txs: seq<Transaction>, rowField: GroupField, row: Option<string>,
                                         cols: seq<GroupField>, keys: seq<string>)
    requires !CellOccurs(txs, rowField, row, cols, keys)
    ensures CellSum(txs, rowField, row, cols, keys) == 0.0
  {
    if txs != [] {
      var init := txs[..|txs| - 1];
      assert txs[|txs| - 1] in txs;
      assert !CellOccurs(init, rowField, row, cols, keys) by {
        forall t | t in init ensures !(Selected(t, rowField, row) && KeyPath(t, cols) == keys) {
          assert t in txs;
        }
      }
      CellSumAbsent(init, rowField, row, cols, keys);
    }
  }

  lemma {:induction false} CellOccursStep(txs: seq<Transaction>, rowField: GroupField, row: Option<string>,
                       cols: seq<GroupField>, keys: seq<string>)
    requires txs != []
    ensures var t := txs[|txs| - 1];
            CellOccurs(txs, rowField, row, cols, keys) <==>
            CellOccurs(txs[..|txs| - 1], rowField, row, cols, keys) || (Selected(t, rowField, row) && KeyPath(t, cols) == keys)
  {
    assert txs == txs[..|txs| - 1] + [txs[|txs| - 1]];
  }

  /** What an aggregate holds at a full column key path: the sum of the amounts
      of the selected transactions with those column keys, present exactly when
      such a transaction exists (with no column fields the single sum is always
      present). */
  function CellEntry(txs: seq<Transaction>, rowField: GroupField, row: Option<string>,
                     cols: seq<GroupField>, keys: seq<string>): Option<real>
  {
    if |cols| == 0 || CellOccurs(txs, rowField, row, cols, keys)
    then Some(CellSum(txs, rowField, row, cols, keys)) else None
  }

  /** Sum conservation: the entry of an aggregate at a full column key path is
      the sum of the amounts of the selected transactions with those column
      keys; it exists exactly when such a transaction exists. */
  lemma {:induction false} GetAggregateOf(txs: seq<Transaction>, rowField: GroupField, row: Option<string>,
                                          cols: seq<GroupField>, keys: seq<string>)
    requires |keys| == |cols|
    ensures Get(AggregateOf(txs, rowField, row, cols), keys) == CellEntry(txs, rowField, row, cols, keys)
  {
    if txs == [] {
      GetEmpty(|cols|, keys);
    } else {
      GetAggregateOf(txs[..|txs| - 1], rowField, row, cols, keys);
      GetAggregateOfLast(txs, rowField, row, cols, keys);
    }
  }

  /** The inductive step of `GetAggregateOf`: adding the last transaction. */
  lemma {:induction false} GetAggregateOfLast(txs: seq<Transaction>, rowField: GroupField, row: Option<string>,
                           cols: seq<GroupField>, keys: seq<string>)
    requires txs != [] && |keys| == |cols|
    requires Get(AggregateOf(txs[..|txs| - 1], rowField, row, cols), keys) ==
             CellEntry(txs[..|txs| - 1], rowField, row, cols, keys)
    ensures Get(AggregateOf(txs, rowField, row, cols), keys) == CellEntry(txs, rowField, row, cols, keys)
  {
    var t := txs[|txs| - 1];
    if Selected(t, rowField, row) && KeyPath(t, cols) == keys {
      GetLastAdded(txs, rowField, row, cols, keys);
      CellEntryLastAdded(txs, rowField, row, cols, keys);
    } else {
      GetLastUnchanged(txs, rowField, row, cols, keys);
      CellEntryLastUnchanged(txs, rowField, row, cols, keys);
    }
  }

  lemma {:induction false} GetLastAdded(txs: seq<Transaction>, rowField: GroupField, row: Option<string>,
                     cols: seq<GroupField>, keys: seq<string>)
    requires txs != [] && |keys| == |cols|
    requires Selected(txs[|txs| - 1], rowField, row) && KeyPath(txs[|txs| - 1], cols) == keys
    ensures Get(AggregateOf(txs, rowField, row, cols), keys) ==
            AddToEntry(Get(AggregateOf(txs[..|txs| - 1], rowField, row, cols), keys), Amount(txs[|txs| - 1]))
  {
    AggregateOfLast(txs, rowField, row, cols);
    AggregateOfShaped(txs[..|txs| - 1], rowField, row, cols);
    GetAddAtSame(AggregateOf(txs[..|txs| - 1], rowField, row, cols), keys, Amount(txs[|txs| - 1]));
  }

  /** The aggregate over `txs` is the one over all but the last transaction,
      with the last one added if it is selected. */
  lemma {:induction false} AggregateOfLast(txs: seq<Transaction>, rowField: GroupField, row: Option<string>, cols: seq<GroupField>)
    requires txs != []
    ensures var t := txs[|txs| - 1];
            AggregateOf(txs, rowField, row, cols) ==
            if Selected(t, rowField, row) then AddAt(AggregateOf(txs[..|txs| - 1], rowField, row, cols), KeyPath(t, cols), Amount(t))
            else AggregateOf(txs[..|txs| - 1], rowField, row, cols)
  {
  }

  lemma {:induction false} GetAddAtSame(agg: Aggregate, keys: seq<string>, amt: real)
    requires Shaped(agg, |keys|)
    ensures Get(AddAt(agg, keys, amt), keys) == AddToEntry(Get(agg, keys), amt)
  {
    GetAddAt(agg, keys, amt, keys);
  }

  lemma {:induction false} GetLastUnchanged(txs: seq<Transaction>, rowField: GroupField, row: Option<string>,
                         cols: seq<GroupField>, keys: seq<string>)
    requires txs != [] && |keys| == |cols|
    requires !(Selected(txs[|txs| - 1], rowField, row) && KeyPath(txs[|txs| - 1], cols) == keys)
    ensures Get(AggregateOf(txs, rowField, row, cols), keys) ==
            Get(AggregateOf(txs[..|txs| - 1], rowField, row, cols), keys)
  {
    var t := txs[|txs| - 1];
    if Selected(t, rowField, row) {
      var prev := AggregateOf(txs[..|txs| - 1], rowField, row, cols);
      AggregateOfShaped(txs[..|txs| - 1], rowField, row, cols);
      GetAddAt(prev, KeyPath(t, cols), Amount(t), keys);
    }
  }

  lemma {:induction false} CellEntryLastAdded(txs: seq<Transaction>, rowField: GroupField, row: Option<string>,
                           cols: seq<GroupField>, keys: seq<string>)
    requires txs != []
    requires Selected(txs[|txs| - 1], rowField, row) && KeyPath(txs[|txs| - 1], cols) == keys
    ensures CellEntry(txs, rowField, row, cols, keys) ==
            AddToEntry(CellEntry(txs[..|txs| - 1], rowField, row, cols, keys), Amount(txs[|txs| - 1]))
  {
    var init := txs[..|txs| - 1];
    CellOccursStep(txs, rowField, row, cols, keys);
    if !CellOccurs(init, rowField, row, cols, keys) {
      CellSumAbsent(init, rowField, row, cols, keys);
    }
  }

  lemma {:induction false} CellEntryLastUnchanged(txs: seq<Transaction>, rowField: GroupField, row: Option<string>,
                               cols: seq<GroupField>, keys: seq<string>)
    requires txs != []
    requires !(Selected(txs[|txs| - 1], rowField, row) && KeyPath(txs[|txs| - 1], cols) == keys)
    ensures CellEntry(txs, rowField, row, cols, keys) == CellEntry(txs[..|txs| - 1], rowField, row, cols, keys)
  {
    CellOccursStep(txs, rowField, row, cols, keys);
  }
}
