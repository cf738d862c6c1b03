/** `pivotData` (src/utils.ts): the pivot result, its leaf list, and the
    two-level cache from a transaction list's identity and the selected fields
    to a result. */
module Pivot {
  import opened PivotTypes
  import opened ValueOrder
  import opened ColumnTree
  import opened Aggregation
  import opened Conservation

  /** What the table renders: the row labels, the column header tree, its
      leaves, and the per-row and grand-total aggregates. */
  datatype PivotResult = PivotResult(
    rowValues: seq<Value>,
    columnTree: seq<ColumnNode>,
    leaves: seq<ColumnNode>,
    pivotMap: map<string, Aggregate>,
    totalMap: Aggregate)

  /** The single leaf used when no column field is selected. */
  function TotalLeaf(): ColumnNode
  {
    ColumnNode(Str("Total"), [], 1, [])
  }

  /** The leaves step 5 of `pivotData` lists. */
  function LeavesOf(columnTree: seq<ColumnNode>, colFields: seq<GroupField>): seq<ColumnNode>
  {
    if |colFields| > 0 then CollectLeaves(columnTree) else [TotalLeaf()]
  }

  /** The result `pivotData` computes for `txs`, row field and column fields. */
  function PivotOf(txs: seq<Transaction>, rowField: GroupField, colFields: seq<GroupField>): PivotResult
  {
    var columnTree := BuildColumnTree(txs, colFields, []);
    PivotResult(
      DistinctSorted(Project(txs, rowField)),
      columnTree,
      LeavesOf(columnTree, colFields),
      RowAggregates(txs, rowField, colFields),
      AggregateOf(txs, rowField, None, colFields))
  }

  /** `collect`: walk the nodes left to right, descending into a node with
      children and pushing a childless node onto `leaves`. */
  method Collect(nodes: seq<ColumnNode>, leaves: seq<ColumnNode>) returns (leaves': seq<ColumnNode>)
    ensures leaves' == leaves + CollectLeaves(nodes)
    decreases nodes
  {
    leaves' := leaves;
    var i := 0;
    while i < |nodes|
      invariant 0 <= i <= |nodes|
      invariant leaves' == leaves + CollectLeaves(nodes[..i])
    {
      var n := nodes[i];
      ghost var before := leaves';
      if |n.children| > 0 {
        leaves' := Collect(n.children, leaves');
      } else {
        leaves' := leaves' + [n];
      }
      CollectStep(nodes, i, leaves, before, leaves');
      i := i + 1;
    }
    assert nodes[..|nodes|] == nodes;
  }

  lemma {:induction false} CollectStep(nodes: seq<ColumnNode>, i: int, leaves: seq<ColumnNode>,
                                       before: seq<ColumnNode>, after: seq<ColumnNode>)
    requires 0 <= i < |nodes|
    requires before == leaves + CollectLeaves(nodes[..i])
    requires after == before + (if nodes[i].children == [] then [nodes[i]] else CollectLeaves(nodes[i].children))
    ensures after == leaves + CollectLeaves(nodes[..i + 1])
  {
    CollectLeavesPrefix(nodes, i);
  }

  lemma {:induction false} CollectLeavesPrefix(nodes: seq<ColumnNode>, i: int)
    requires 0 <= i < |nodes|
    ensures CollectLeaves(nodes[..i + 1]) ==
            CollectLeaves(nodes[..i]) + (if nodes[i].children == [] then [nodes[i]] else CollectLeaves(nodes[i].children))
  {
    assert nodes[..i + 1] == nodes[..i] + [nodes[i]];
    CollectLeavesAppend(nodes[..i], [nodes[i]]);
    CollectLeavesSingle(nodes[i]);
  }

  /** Steps 1 to 6 of `pivotData`: row labels, column tree, the aggregation
      pass, and the leaf list. */
  method ComputePivot(txs: seq<Transaction>, rowField: GroupField, colFields: seq<GroupField>)
    returns (result: PivotResult)
    ensures result == PivotOf(txs, rowField, colFields)
  {
    var rowValues := DistinctSorted(Project(txs, rowField));
    var columnTree := BuildColumnTree(txs, colFields, []);
    var pivotMap, totalMap := AggregateTransactions(txs, rowField, colFields);
    var leaves: seq<ColumnNode> := [];
    if |colFields| > 0 {
      leaves := Collect(columnTree, leaves);
    } else {
      leaves := leaves + [TotalLeaf()];
    }
    assert leaves == LeavesOf(columnTree, colFields);
    result := PivotResult(rowValues, columnTree, leaves, pivotMap, totalMap);
  }

  // ----- what the result holds -----

  /** The row labels are exactly the distinct row-field values of the input,
      each once, in `sortValues` order when they are all numeric-like or all
      not; an empty input has none. */
  lemma {:induction false} RowValuesSpec(txs: seq<Transaction>, rowField: GroupField, colFields: seq<GroupField>)
    ensures var rv := PivotOf(txs, rowField, colFields).rowValues;
            && NoDup(rv)
            && (forall v :: v in rv <==> Occurs(txs, rowField, v))
            && (FieldHomogeneous(txs, rowField) ==> Sorted(rv))
            && (txs == [] ==> rv == [])
  {
    ProjectMembers(txs, rowField);
    DistinctSortedSpec(Project(txs, rowField));
  }

  /** The leaves: with no column fields the single synthetic 'Total' leaf;
      otherwise the tree's childless nodes in depth-first order, as many as
      the roots span, with distinct paths of one value per column field, and
      the same nodes as the deepest header row. */
  lemma {:induction false} LeavesSpec(txs: seq<Transaction>, rowField: GroupField, colFields: seq<GroupField>)
    ensures var res := PivotOf(txs, rowField, colFields);
            colFields == [] ==> res.columnTree == [] && res.leaves == [ColumnNode(Str("Total"), [], 1, [])]
    ensures var res := PivotOf(txs, rowField, colFields);
            colFields != [] ==>
              && res.leaves == CollectLeaves(res.columnTree)
              && |res.leaves| == SpanSum(res.columnTree)
              && NoDup(FullPaths(res.leaves))
              && (forall j :: 0 <= j < |res.leaves| ==>
                    res.leaves[j].children == [] && res.leaves[j].colSpan == 1 &&
                    |res.leaves[j].fullPath| == |colFields|)
              && GetHeaderNodesAtDepth(res.columnTree, |colFields| - 1) == res.leaves
  {
    var tree := BuildColumnTree(txs, colFields, []);
    if colFields != [] {
      var leaves := CollectLeaves(tree);
      var h := |colFields|;
      assert PivotOf(txs, rowField, colFields).leaves == leaves;
      assert PivotOf(txs, rowField, colFields).columnTree == tree;
      assert WellFormed(tree, [], h) by {
        BuildColumnTreeWellFormed(txs, colFields, []);
      }
      assert |leaves| == SpanSum(tree) by {
        SpanSumCountsLeaves(tree, [], h);
      }
      assert NoDup(FullPaths(leaves)) by {
        LeavesDistinct(tree, [], h);
      }
      assert GetHeaderNodesAtDepth(tree, |colFields| - 1) == leaves by {
        HeaderRowAtLeafDepth(tree, [], h);
      }
      assert forall j :: 0 <= j < |leaves| ==>
               leaves[j].children == [] && leaves[j].colSpan == 1 && |leaves[j].fullPath| == h by {
        LeavesShape(tree, [], h);
        forall j | 0 <= j < |leaves|
          ensures leaves[j].children == [] && leaves[j].colSpan == 1 && |leaves[j].fullPath| == h
        {
          assert LeafAt(leaves[j], [], h, tree);
        }
      }
    } else {
      BuildColumnTreeWellFormed(txs, colFields, []);
    }
  }

  /** Every row label has an entry in `pivotMap`, filed under its key, and
      every entry belongs to a row label. */
  lemma {:induction false} RowEntriesSpec(txs: seq<Transaction>, rowField: GroupField, colFields: seq<GroupField>)
    ensures var res := PivotOf(txs, rowField, colFields);
            forall v :: v in res.rowValues ==> KeyOf(v) in res.pivotMap
    ensures var res := PivotOf(txs, rowField, colFields);
            forall r :: r in res.pivotMap ==> exists v :: v in res.rowValues && KeyOf(v) == r
  {
    var res := PivotOf(txs, rowField, colFields);
    ProjectMembers(txs, rowField);
    forall v | v in res.rowValues ensures KeyOf(v) in res.pivotMap {
      var t :| t in txs && FieldValue(t, rowField) == v;
      RowKeysMembers(txs, rowField, KeyOf(v));
    }
    forall r | r in res.pivotMap ensures exists v :: v in res.rowValues && KeyOf(v) == r {
      RowKeysMembers(txs, rowField, r);
      var t :| t in txs && RowKey(t, rowField) == r;
      assert Occurs(txs, rowField, FieldValue(t, rowField));
    }
  }

  /** With no column fields each row's entry is the sum of the amounts of the
      transactions filed under it, and the grand total the sum of all amounts. */
  lemma {:induction false} NoColumnsSpec(txs: seq<Transaction>, rowField: GroupField)
    ensures PivotOf(txs, rowField, []).totalMap == Scalar(Total(txs))
    ensures var pm := PivotOf(txs, rowField, []).pivotMap;
            forall r :: r in pm ==> pm[r] == Scalar(SelectedTotal(txs, rowField, Some(r)))
  {
    AggregateOfNoColumns(txs, rowField, None);
    SelectedTotalAll(txs, rowField);
    forall r | r in PivotOf(txs, rowField, []).pivotMap
      ensures PivotOf(txs, rowField, []).pivotMap[r] == Scalar(SelectedTotal(txs, rowField, Some(r)))
    {
      AggregateOfNoColumns(txs, rowField, Some(r));
    }
  }

  /** With column fields, the entry of a row (or of the grand total) at a full
      column key path is the sum of the amounts of that row's (or of all)
      transactions carrying those keys, present exactly when one exists. */
  lemma {:induction false} ColumnsSpec(txs: seq<Transaction>, rowField: GroupField, colFields: seq<GroupField>,
                                       keys: seq<string>)
    requires |keys| == |colFields|
    ensures var res := PivotOf(txs, rowField, colFields);
            forall r :: r in res.pivotMap ==>
              Get(res.pivotMap[r], keys) == CellEntry(txs, rowField, Some(r), colFields, keys)
    ensures Get(PivotOf(txs, rowField, colFields).totalMap, keys) == CellEntry(txs, rowField, None, colFields, keys)
  {
    GetAggregateOf(txs, rowField, None, colFields, keys);
    forall r | r in PivotOf(txs, rowField, colFields).pivotMap
      ensures Get(PivotOf(txs, rowField, colFields).pivotMap[r], keys) == CellEntry(txs, rowField, Some(r), colFields, keys)
    {
      GetAggregateOf(txs, rowField, Some(r), colFields, keys);
    }
  }

  // ----- the cache key -----

  /** `colFields.join('|')`: the names, separated by `|`. */
  function JoinFields(fields: seq<GroupField>): string
    decreases |fields|, 0
  {
    if fields == [] then "" else FieldName(fields[0]) + JoinRest(fields[1..])
  }

  /** The part of a join after the first name: `|` before each further name. */
  function JoinRest(rest: seq<GroupField>): string
    decreases |rest|, 1
  {
    if rest == [] then "" else "|" + JoinFields(rest)
  }

  /** `${rowField}||${colFields.join('|')}` */
  function CacheKey(rowField: GroupField, colFields: seq<GroupField>): string
  {
    FieldName(rowField) + "||" + JoinFields(colFields)
  }

  lemma {:induction false} FieldNameInjective(f: GroupField, g: GroupField)
    requires FieldName(f) == FieldName(g)
    ensures f == g
  {
  }

  /** Two strings, each a name without `|` followed by nothing or by text
      starting with `|`, are equal only if their names are. */
  lemma {:induction false} SplitAtBar(a: string, ta: string, b: string, tb: string)
    requires '|' !in a && '|' !in b
    requires ta == [] || ta[0] == '|'
    requires tb == [] || tb[0] == '|'
    requires a + ta == b + tb
    ensures a == b && ta == tb
  {
    assert a == (a + ta)[..|a|] && b == (b + tb)[..|b|];
    assert ta == (a + ta)[|a|..] && tb == (b + tb)[|b|..];
  }

  /** The joined names determine the list of fields. */
  lemma {:induction false} JoinFieldsInjective(a: seq<GroupField>, b: seq<GroupField>)
    requires JoinFields(a) == JoinFields(b)
    ensures a == b
    decreases |a|, 0
  {
    JoinFieldsEmpty(a);
    JoinFieldsEmpty(b);
    if a != [] && b != [] {
      SplitAtBar(FieldName(a[0]), JoinRest(a[1..]), FieldName(b[0]), JoinRest(b[1..]));
      FieldNameInjective(a[0], b[0]);
      JoinRestInjective(a[1..], b[1..]);
      assert a == [a[0]] + a[1..] && b == [b[0]] + b[1..];
    }
  }

  lemma {:induction false} JoinFieldsEmpty(a: seq<GroupField>)
    ensures JoinFields(a) == "" <==> a == []
  {
    if a != [] {
      assert |FieldName(a[0])| > 0;
    }
  }

  lemma {:induction false} JoinRestInjective(a: seq<GroupField>, b: seq<GroupField>)
    requires JoinRest(a) == JoinRest(b)
    ensures a == b
    decreases |a|, 1
  {
    if a != [] && b != [] {
      assert JoinFields(a) == JoinRest(a)[1..] && JoinFields(b) == JoinRest(b)[1..];
      JoinFieldsInjective(a, b);
    }
  }

  /** The cache key tells the selection apart: distinct (row field, column
      fields) pairs, column order included, get distinct keys, because no
      field name contains `|`. */
  lemma {:induction false} CacheKeyInjective(r1: GroupField, c1: seq<GroupField>, r2: GroupField, c2: seq<GroupField>)
    requires CacheKey(r1, c1) == CacheKey(r2, c2)
    ensures r1 == r2 && c1 == c2
  {
    CacheKeySplit(r1, c1);
    CacheKeySplit(r2, c2);
    SplitAtBar(FieldName(r1), "||" + JoinFields(c1), FieldName(r2), "||" + JoinFields(c2));
    FieldNameInjective(r1, r2);
    DropPrefix("||", JoinFields(c1), JoinFields(c2));
    JoinFieldsInjective(c1, c2);
  }

  lemma {:induction false} CacheKeySplit(r: GroupField, c: seq<GroupField>)
    ensures CacheKey(r, c) == FieldName(r) + ("||" + JoinFields(c))
  {
  }

  lemma {:induction false} DropPrefix(p: string, x: string, y: string)
    requires p + x == p + y
    ensures x == y
  {
    assert x == (p + x)[|p|..] && y == (p + y)[|p|..];
  }

  // ----- the cache -----

  /** A loaded transaction list. The cache is keyed by the list's identity, as
      the source's `WeakMap` is keyed by the array object; its contents are
      never changed after loading. */
  class TransactionList {
    const items: seq<Transaction>

    constructor (items: seq<Transaction>)
      ensures this.items == items
    {
      this.items := items;
    }
  }

  type Cache = map<TransactionList, map<string, PivotResult>>

  /** Every stored result is the pivot of its list for the selection its key names. */
  ghost predicate CacheValid(cache: Cache)
  {
    forall tl, rowField, colFields ::
      tl in cache && CacheKey(rowField, colFields) in cache[tl] ==>
        cache[tl][CacheKey(rowField, colFields)] == PivotOf(tl.items, rowField, colFields)
  }

  /** Step 7 of `pivotData`: file `result` under `key` in the list's inner map,
      creating that map if the list has none. */
  function Store(cache: Cache, tl: TransactionList, key: string, result: PivotResult): (c: Cache)
    ensures tl in c && key in c[tl] && c[tl][key] == result
    ensures forall k :: k != key ==> (k in c[tl] <==> tl in cache && k in cache[tl])
    ensures forall k :: k != key && k in c[tl] ==> c[tl][k] == cache[tl][k]
    ensures c.Keys == cache.Keys + {tl}
    ensures forall other :: other in cache && other != tl ==> c[other] == cache[other]
  {
    if tl in cache then cache[tl := cache[tl][key := result]]
    else cache[tl := map[key := result]]
  }

  /** Storing the pivot of a list under its selection's key keeps every stored
      result correct. */
  lemma {:induction false} StoreKeepsValid(cache: Cache, tl: TransactionList, rowField: GroupField,
                                           colFields: seq<GroupField>)
    requires CacheValid(cache)
    ensures CacheValid(Store(cache, tl, CacheKey(rowField, colFields), PivotOf(tl.items, rowField, colFields)))
  {
    var key := CacheKey(rowField, colFields);
    var c := Store(cache, tl, key, PivotOf(tl.items, rowField, colFields));
    forall tl', r, cs | tl' in c && CacheKey(r, cs) in c[tl']
      ensures c[tl'][CacheKey(r, cs)] == PivotOf(tl'.items, r, cs)
    {
      if tl' == tl && CacheKey(r, cs) == key {
        CacheKeyInjective(r, cs, rowField, colFields);
      }
    }
  }

  /** The memoising front of `pivotData`. */
  class PivotEngine {
    var cache: Cache

    ghost predicate Valid()
      reads this
    {
      CacheValid(cache)
    }

    constructor ()
      ensures Valid() && cache == map[]
    {
      cache := map[];
    }

    /** `pivotData(transactions, rowField, colFields)`: a stored result for the
        same list and selection is returned as it is and the cache is left
        alone; otherwise the result is computed and stored. Either way it is
        the pivot of the list. */
    method PivotData(tl: TransactionList, rowField: GroupField, colFields: seq<GroupField>)
      returns (result: PivotResult)
      requires Valid()
      modifies this
      ensures Valid()
      ensures result == PivotOf(tl.items, rowField, colFields)
      ensures var key := CacheKey(rowField, colFields);
              if tl in old(cache) && key in old(cache)[tl]
              then result == old(cache)[tl][key] && cache == old(cache)
              else cache == Store(old(cache), tl, key, result)
    {
      var key := CacheKey(rowField, colFields);
      if tl in cache {
        var existing := cache[tl];
        if key in existing {
          return existing[key];
        }
      }
      result := ComputePivot(tl.items, rowField, colFields);
      StoreKeepsValid(cache, tl, rowField, colFields);
      if tl in cache {
        cache := cache[tl := cache[tl][key := result]];
      } else {
        cache := cache[tl := map[key := result]];
      }
    }
  }
}
