/** The column header tree (`buildColumnTree`), its leaves and its header rows
    (`getHeaderNodesAtDepth`) from src/utils.ts. */
module ColumnTree {
  import opened PivotTypes
  import opened ValueOrder

  /** `transactions.map(t => t[f])` */
  function Project(txs: seq<Transaction>, f: GroupField): (r: seq<Value>)
    ensures |r| == |txs|
    ensures forall i :: 0 <= i < |txs| ==> r[i] == FieldValue(txs[i], f)
  {
    if txs == [] then [] else [FieldValue(txs[0], f)] + Project(txs[1..], f)
  }

  /** `transactions.filter(t => t[f] === v)` */
  function Filter(txs: seq<Transaction>, f: GroupField, v: Value): (r: seq<Transaction>)
    ensures forall t :: t in r <==> t in txs && FieldValue(t, f) == v
  {
    if txs == [] then []
    else if FieldValue(txs[0], f) == v then [txs[0]] + Filter(txs[1..], f, v)
    else Filter(txs[1..], f, v)
  }

  /** `childNodes.reduce((sum, c) => sum + c.colSpan, 0)` */
  function SpanSum(nodes: seq<ColumnNode>): int
  {
    if nodes == [] then 0 else nodes[0].colSpan + SpanSum(nodes[1..])
  }

  function Values(nodes: seq<ColumnNode>): (r: seq<Value>)
    ensures |r| == |nodes| && forall i :: 0 <= i < |nodes| ==> r[i] == nodes[i].value
  {
    seq(|nodes|, i requires 0 <= i < |nodes| => nodes[i].value)
  }

  /** `buildColumnTree(transactions, fields, path)`: no fields, no nodes;
      otherwise one node per distinct value of the first field, in sorted order,
      each built over the transactions carrying that value. */
  function BuildColumnTree(txs: seq<Transaction>, fields: seq<GroupField>, path: seq<Value>): seq<ColumnNode>
    decreases |fields|, 0
  {
    if fields == [] then []
    else BuildNodes(txs, fields[0], fields[1..], path, DistinctSorted(Project(txs, fields[0])))
  }

  /** The `uniqueValues.map(...)` of `buildColumnTree`, over the values `vals`
      of field `f`, with `rest` the remaining fields. */
  function BuildNodes(txs: seq<Transaction>, f: GroupField, rest: seq<GroupField>,
                      path: seq<Value>, vals: seq<Value>): (r: seq<ColumnNode>)
    ensures |r| == |vals|
    ensures forall i :: 0 <= i < |vals| ==> r[i] == BuildNode(txs, f, rest, path, vals[i])
    decreases |rest|, 2, |vals|
  {
    if vals == [] then []
    else [BuildNode(txs, f, rest, path, vals[0])] + BuildNodes(txs, f, rest, path, vals[1..])
  }

  /** The node for value `v` of field `f`: its subtree is built over the
      transactions carrying `v`, and it spans its children's columns, or one
      column when it has none. */
  function BuildNode(txs: seq<Transaction>, f: GroupField, rest: seq<GroupField>,
                     path: seq<Value>, v: Value): (n: ColumnNode)
    ensures n.value == v && n.fullPath == path + [v]
    decreases |rest|, 1
  {
    var children := BuildColumnTree(Filter(txs, f, v), rest, path + [v]);
    var span := if |children| > 0 then SpanSum(children) else 1;
    ColumnNode(v, path + [v], span, children)
  }

  /** The leaves below `nodes`, depth first, left to right (`collect`). */
  function CollectLeaves(nodes: seq<ColumnNode>): seq<ColumnNode>
    decreases nodes
  {
    if nodes == [] then []
    else
      (if nodes[0].children == [] then [nodes[0]] else CollectLeaves(nodes[0].children))
      + CollectLeaves(nodes[1..])
  }

  /** `getHeaderNodesAtDepth(nodes, depth)` */
  function GetHeaderNodesAtDepth(nodes: seq<ColumnNode>, depth: nat): seq<ColumnNode>
    decreases nodes
  {
    if depth == 0 then nodes
    else if nodes == [] then []
    else
      (if nodes[0].children != [] then GetHeaderNodesAtDepth(nodes[0].children, depth - 1) else [])
      + GetHeaderNodesAtDepth(nodes[1..], depth)
  }

  /** The shape every built tree has: sibling values are distinct, each node's
      path is its parent's path plus its own value, each node spans 1 column if
      it is a leaf and its children's columns otherwise, and every leaf lies
      exactly `height` levels below the top of `nodes`. */
  predicate WellFormed(nodes: seq<ColumnNode>, prefix: seq<Value>, height: nat)
    decreases nodes
  {
    NoDup(Values(nodes)) &&
    forall i :: 0 <= i < |nodes| ==> NodeWellFormed(nodes[i], prefix, height)
  }

  predicate NodeWellFormed(n: ColumnNode, prefix: seq<Value>, height: nat)
    decreases n
  {
    && height >= 1
    && n.fullPath == prefix + [n.value]
    && (n.children == [] <==> height == 1)
    && n.colSpan == (if n.children == [] then 1 else SpanSum(n.children))
    && WellFormed(n.children, n.fullPath, height - 1)
  }

  /** Sibling values appear in `sortValues` order at every level. */
  predicate SiblingsSorted(nodes: seq<ColumnNode>)
    decreases nodes
  {
    Sorted(Values(nodes)) && forall i :: 0 <= i < |nodes| ==> SiblingsSorted(nodes[i].children)
  }

  /** The values of `f` in `txs` are all numeric-like or all not. */
  predicate FieldHomogeneous(txs: seq<Transaction>, f: GroupField)
  {
    Homogeneous(Project(txs, f))
  }

  // ----- construction -----

  /** Some transaction carries value `v` in field `f`. */
  predicate Occurs(txs: seq<Transaction>, f: GroupField, v: Value)
  {
    exists t :: t in txs && FieldValue(t, f) == v
  }

  lemma {:induction false} ProjectMembers(txs: seq<Transaction>, f: GroupField)
    ensures forall v :: v in DistinctSorted(Project(txs, f)) <==> Occurs(txs, f, v)
    ensures NoDup(DistinctSorted(Project(txs, f)))
  {
    DistinctSortedSpec(Project(txs, f));
    forall v ensures v in Project(txs, f) <==> Occurs(txs, f, v) {
      if v in Project(txs, f) {
        var i :| 0 <= i < |txs| && Project(txs, f)[i] == v;
        assert txs[i] in txs;
      }
      if Occurs(txs, f, v) {
        var t :| t in txs && FieldValue(t, f) == v;
        var i :| 0 <= i < |txs| && txs[i] == t;
        assert Project(txs, f)[i] == v;
      }
    }
  }

  /** The column tree is empty for no fields and otherwise well formed with
      height `|fields|`. */
  lemma {:induction false} BuildColumnTreeWellFormed(txs: seq<Transaction>, fields: seq<GroupField>, path: seq<Value>)
    ensures fields == [] ==> BuildColumnTree(txs, fields, path) == []
    ensures fields != [] ==> WellFormed(BuildColumnTree(txs, fields, path), path, |fields|)
    decreases |fields|, 0
  {
    if fields != [] {
      var f := fields[0];
      var rest := fields[1..];
      var vals := DistinctSorted(Project(txs, f));
      var nodes := BuildNodes(txs, f, rest, path, vals);
      assert BuildColumnTree(txs, fields, path) == nodes;
      assert |rest| + 1 == |fields|;
      assert WellFormed(nodes, path, |rest| + 1) by {
        ProjectMembers(txs, f);
        BuildNodesWellFormed(txs, f, rest, path, vals);
      }
    }
  }

  /** With at least one field, the tree has nodes exactly when there are transactions. */
  lemma {:induction false} BuildColumnTreeEmpty(txs: seq<Transaction>, fields: seq<GroupField>, path: seq<Value>)
    requires fields != []
    ensures BuildColumnTree(txs, fields, path) == [] <==> txs == []
  {
    var vals := DistinctSorted(Project(txs, fields[0]));
    ProjectMembers(txs, fields[0]);
    if txs != [] {
      assert txs[0] in txs;
      assert Occurs(txs, fields[0], FieldValue(txs[0], fields[0]));
      assert |vals| > 0;
    } else {
      DistinctSortedSpec([]);
    }
  }

  lemma {:induction false} BuildNodesWellFormed(txs: seq<Transaction>, f: GroupField, rest: seq<GroupField>,
                                                path: seq<Value>, vals: seq<Value>)
    requires NoDup(vals)
    requires forall v :: v in vals ==> Occurs(txs, f, v)
    ensures WellFormed(BuildNodes(txs, f, rest, path, vals), path, |rest| + 1)
    decreases |rest|, |vals|
  {
    if vals != [] {
      var node := BuildNodes(txs, f, rest, path, vals)[0];
      var tail := BuildNodes(txs, f, rest, path, vals[1..]);
      assert BuildNodes(txs, f, rest, path, vals) == [node] + tail;
      assert NodeWellFormed(node, path, |rest| + 1) by {
        var v := vals[0];
        var sub := Filter(txs, f, v);
        assert node.children == BuildColumnTree(sub, rest, path + [v]);
        assert node.fullPath == path + [v];
        assert v in vals;
        var t :| t in txs && FieldValue(t, f) == v;
        assert t in sub;
        BuildColumnTreeWellFormed(sub, rest, path + [v]);
        if rest != [] {
          BuildColumnTreeEmpty(sub, rest, path + [v]);
        }
      }
      assert WellFormed(tail, path, |rest| + 1) && node.value !in Values(tail) by {
        BuildNodesWellFormed(txs, f, rest, path, vals[1..]);
        assert Values(tail) == vals[1..];
      }
      WellFormedCons(node, tail, path, |rest| + 1);
    }
  }

  lemma {:induction false} WellFormedCons(n: ColumnNode, tail: seq<ColumnNode>, prefix: seq<Value>, height: nat)
    requires NodeWellFormed(n, prefix, height) && WellFormed(tail, prefix, height)
    requires n.value !in Values(tail)
    ensures WellFormed([n] + tail, prefix, height)
  {
    var r := [n] + tail;
    assert Values(r) == [n.value] + Values(tail);
    NoDupCons(n.value, Values(tail));
    forall i | 0 <= i < |r| ensures NodeWellFormed(r[i], prefix, height) {
      if i == 0 { assert r[i] == n; } else { assert r[i] == tail[i - 1]; }
    }
  }

  // ----- spans, leaves and header rows -----

  function FullPaths(nodes: seq<ColumnNode>): (r: seq<seq<Value>>)
    ensures |r| == |nodes| && forall i :: 0 <= i < |nodes| ==> r[i] == nodes[i].fullPath
  {
    seq(|nodes|, i requires 0 <= i < |nodes| => nodes[i].fullPath)
  }

  lemma {:induction false} SpanSumAppend(a: seq<ColumnNode>, b: seq<ColumnNode>)
    ensures SpanSum(a + b) == SpanSum(a) + SpanSum(b)
  {
    if a == [] {
      assert a + b == b;
    } else {
      assert (a + b)[0] == a[0] && (a + b)[1..] == a[1..] + b;
      SpanSumAppend(a[1..], b);
    }
  }

  lemma {:induction false} CollectLeavesAppend(a: seq<ColumnNode>, b: seq<ColumnNode>)
    ensures CollectLeaves(a + b) == CollectLeaves(a) + CollectLeaves(b)
  {
    if a == [] {
      assert a + b == b;
    } else {
      assert (a + b)[0] == a[0] && (a + b)[1..] == a[1..] + b;
      CollectLeavesAppend(a[1..], b);
    }
  }

  /** Every node of `leaves` is a leaf below one of the roots `nodes`. */
  predicate LeavesAt(leaves: seq<ColumnNode>, prefix: seq<Value>, height: nat, nodes: seq<ColumnNode>)
  {
    forall j :: 0 <= j < |leaves| ==> LeafAt(leaves[j], prefix, height, nodes)
  }

  /** In a well-formed tree every leaf is childless, spans one column and lies
      `height` levels below `prefix`, under one of the roots. */
  lemma {:induction false} LeavesShape(nodes: seq<ColumnNode>, prefix: seq<Value>, height: nat)
    requires WellFormed(nodes, prefix, height)
    ensures LeavesAt(CollectLeaves(nodes), prefix, height, nodes)
    decreases nodes
  {
    if nodes != [] {
      var n := nodes[0];
      var rest := nodes[1..];
      var l0 := if n.children == [] then [n] else CollectLeaves(n.children);
      var lr := CollectLeaves(rest);
      assert CollectLeaves(nodes) == l0 + lr;
      WellFormedTail(nodes, prefix, height);
      assert LeavesAt(l0, prefix, height, nodes) by {
        assert n in nodes && Values(nodes)[0] == n.value;
        if n.children != [] {
          LeavesShape(n.children, n.fullPath, height - 1);
          ChildLeavesShape(n, prefix, height, nodes);
        } else {
          assert n.fullPath[..|prefix|] == prefix;
        }
      }
      assert LeavesAt(lr, prefix, height, nodes) by {
        LeavesShape(rest, prefix, height);
        assert Values(rest) == Values(nodes)[1..];
      }
      LeavesAtAppend(l0, lr, prefix, height, nodes);
    }
  }

  lemma {:induction false} LeavesAtAppend(a: seq<ColumnNode>, b: seq<ColumnNode>, prefix: seq<Value>,
                                          height: nat, nodes: seq<ColumnNode>)
    requires LeavesAt(a, prefix, height, nodes) && LeavesAt(b, prefix, height, nodes)
    ensures LeavesAt(a + b, prefix, height, nodes)
  {
    var l := a + b;
    forall j | 0 <= j < |l| ensures LeafAt(l[j], prefix, height, nodes) {
      if j < |a| { assert l[j] == a[j]; } else { assert l[j] == b[j - |a|]; }
    }
  }

  lemma {:induction false} ChildLeavesShape(n: ColumnNode, prefix: seq<Value>, height: nat, nodes: seq<ColumnNode>)
    requires n in nodes && n.children != [] && NodeWellFormed(n, prefix, height)
    requires LeavesAt(CollectLeaves(n.children), n.fullPath, height - 1, n.children)
    ensures LeavesAt(CollectLeaves(n.children), prefix, height, nodes)
  {
    var l0 := CollectLeaves(n.children);
    forall j | 0 <= j < |l0| ensures LeafAt(l0[j], prefix, height, nodes) {
      var p := l0[j].fullPath;
      assert LeafAt(l0[j], n.fullPath, height - 1, n.children);
      assert p[..|n.fullPath|] == prefix + [n.value];
      assert p[..|prefix|] == (prefix + [n.value])[..|prefix|];
      assert p[|prefix|] == (prefix + [n.value])[|prefix|];
      var k :| 0 <= k < |nodes| && nodes[k] == n;
      assert Values(nodes)[k] == n.value;
    }
  }

  lemma {:induction false} WellFormedTail(nodes: seq<ColumnNode>, prefix: seq<Value>, height: nat)
    requires nodes != [] && WellFormed(nodes, prefix, height)
    ensures NodeWellFormed(nodes[0], prefix, height)
    ensures WellFormed(nodes[1..], prefix, height)
    ensures nodes[0].value !in Values(nodes[1..])
  {
    var rest := nodes[1..];
    forall i | 0 <= i < |rest| ensures NodeWellFormed(rest[i], prefix, height) {
      assert rest[i] == nodes[i + 1];
    }
    assert Values(rest) == Values(nodes)[1..];
  }

  /** No two leaves of a well-formed tree share a path. */
  lemma {:induction false} LeavesDistinct(nodes: seq<ColumnNode>, prefix: seq<Value>, height: nat)
    requires WellFormed(nodes, prefix, height)
    ensures NoDup(FullPaths(CollectLeaves(nodes)))
    decreases nodes
  {
    if nodes != [] {
      var n := nodes[0];
      var rest := nodes[1..];
      var l0 := CollectLeaves([n]);
      var lr := CollectLeaves(rest);
      assert CollectLeaves(nodes) == l0 + lr by {
        assert nodes == [n] + rest;
        CollectLeavesAppend([n], rest);
      }
      WellFormedTail(nodes, prefix, height);
      assert NoDup(FullPaths(l0)) by {
        CollectLeavesSingle(n);
        if n.children != [] { LeavesDistinct(n.children, n.fullPath, height - 1); }
      }
      assert NoDup(FullPaths(lr)) by {
        LeavesDistinct(rest, prefix, height);
      }
      LeavesSeparated(n, rest, prefix, height);
      DisjointConcat(l0, lr, |prefix|);
    }
  }

  /** The leaves under one root and those under its later siblings differ in
      the root's own position of their paths. */
  lemma {:induction false} LeavesSeparated(n: ColumnNode, rest: seq<ColumnNode>, prefix: seq<Value>, height: nat)
    requires NodeWellFormed(n, prefix, height) && WellFormed(rest, prefix, height)
    requires n.value !in Values(rest)
    ensures Separated(CollectLeaves([n]), CollectLeaves(rest), |prefix|)
  {
    var l0 := CollectLeaves([n]);
    var lr := CollectLeaves(rest);
    assert WellFormed([n], prefix, height) by {
      WellFormedCons(n, [], prefix, height);
      assert [n] + [] == [n];
    }
    LeavesShape([n], prefix, height);
    LeavesShape(rest, prefix, height);
    forall i, j | 0 <= i < |l0| && 0 <= j < |lr|
      ensures |l0[i].fullPath| > |prefix| && |lr[j].fullPath| > |prefix|
      ensures l0[i].fullPath[|prefix|] != lr[j].fullPath[|prefix|]
    {
      assert LeafAt(l0[i], prefix, height, [n]);
      assert LeafAt(lr[j], prefix, height, rest);
    }
  }

  /** Every path in `a` differs from every path in `b` at position `k`. */
  predicate Separated(a: seq<ColumnNode>, b: seq<ColumnNode>, k: nat)
  {
    forall i, j :: 0 <= i < |a| && 0 <= j < |b| ==>
      |a[i].fullPath| > k && |b[j].fullPath| > k && a[i].fullPath[k] != b[j].fullPath[k]
  }

  /** Two path-distinct leaf lists whose paths differ at position `k` concatenate
      to a path-distinct list. */
  lemma {:induction false} DisjointConcat(a: seq<ColumnNode>, b: seq<ColumnNode>, k: nat)
    requires NoDup(FullPaths(a)) && NoDup(FullPaths(b))
    requires Separated(a, b, k)
    ensures NoDup(FullPaths(a + b))
  {
    var l := a + b;
    forall i, j | 0 <= i < j < |l| ensures l[i].fullPath != l[j].fullPath {
      if j < |a| {
        assert FullPaths(a)[i] != FullPaths(a)[j];
      } else if i >= |a| {
        assert FullPaths(b)[i - |a|] != FullPaths(b)[j - |a|];
      } else {
        assert l[j] == b[j - |a|];
      }
    }
  }

  /** A leaf below the roots `nodes`: childless, one column wide, its path
      `prefix` followed by `height` values, the first of which is a root's. */
  predicate LeafAt(l: ColumnNode, prefix: seq<Value>, height: nat, nodes: seq<ColumnNode>)
  {
    && height >= 1
    && l.children == []
    && l.colSpan == 1
    && |l.fullPath| == |prefix| + height
    && l.fullPath[..|prefix|] == prefix
    && l.fullPath[|prefix|] in Values(nodes)
  }

  /** The roots' spans add up to the number of leaves. */
  lemma {:induction false} SpanSumCountsLeaves(nodes: seq<ColumnNode>, prefix: seq<Value>, height: nat)
    requires WellFormed(nodes, prefix, height)
    ensures SpanSum(nodes) == |CollectLeaves(nodes)|
    decreases nodes
  {
    if nodes != [] {
      var n := nodes[0];
      WellFormedTail(nodes, prefix, height);
      SpanSumCountsLeaves(nodes[1..], prefix, height);
      if n.children != [] {
        SpanSumCountsLeaves(n.children, n.fullPath, height - 1);
      }
    }
  }

  /** The nodes at any depth above the leaves together span as many columns
      as the roots: every header row is as wide as the table. */
  lemma {:induction false} HeaderRowSpan(nodes: seq<ColumnNode>, prefix: seq<Value>, height: nat, d: nat)
    requires WellFormed(nodes, prefix, height) && d < height
    ensures SpanSum(GetHeaderNodesAtDepth(nodes, d)) == SpanSum(nodes)
    decreases nodes
  {
    if d > 0 && nodes != [] {
      var n := nodes[0];
      var h0 := GetHeaderNodesAtDepth(n.children, d - 1);
      var hr := GetHeaderNodesAtDepth(nodes[1..], d);
      assert SpanSum(h0) == n.colSpan && SpanSum(hr) == SpanSum(nodes[1..]) by {
        WellFormedTail(nodes, prefix, height);
        HeaderRowSpan(n.children, n.fullPath, height - 1, d - 1);
        HeaderRowSpan(nodes[1..], prefix, height, d);
      }
      assert GetHeaderNodesAtDepth(nodes, d) == h0 + hr;
      SpanSumAppend(h0, hr);
    }
  }

  /** Every node that `GetHeaderNodesAtDepth` returns for depth `d` has a path
      of `d + 1` values below `prefix`. */
  lemma {:induction false} HeaderRowDepth(nodes: seq<ColumnNode>, prefix: seq<Value>, height: nat, d: nat)
    requires WellFormed(nodes, prefix, height)
    ensures forall i :: 0 <= i < |GetHeaderNodesAtDepth(nodes, d)| ==>
              |GetHeaderNodesAtDepth(nodes, d)[i].fullPath| == |prefix| + d + 1
    decreases nodes
  {
    if d == 0 {
      forall i | 0 <= i < |nodes| ensures |nodes[i].fullPath| == |prefix| + 1 {
        assert NodeWellFormed(nodes[i], prefix, height);
      }
    } else if nodes != [] {
      var n := nodes[0];
      WellFormedTail(nodes, prefix, height);
      var h0 := if n.children != [] then GetHeaderNodesAtDepth(n.children, d - 1) else [];
      var hr := GetHeaderNodesAtDepth(nodes[1..], d);
      assert GetHeaderNodesAtDepth(nodes, d) == h0 + hr;
      if n.children != [] { HeaderRowDepth(n.children, n.fullPath, height - 1, d - 1); }
      HeaderRowDepth(nodes[1..], prefix, height, d);
      var r := h0 + hr;
      forall i | 0 <= i < |r| ensures |r[i].fullPath| == |prefix| + d + 1 {
        if i >= |h0| { assert r[i] == hr[i - |h0|]; }
      }
    }
  }

  /** The header row at any depth above the leaves, expanded to its leaves,
      is the whole leaf list in order: the row holds every node at that
      depth, each once, left to right. */
  lemma {:induction false} HeaderRowCoversLeaves(nodes: seq<ColumnNode>, prefix: seq<Value>, height: nat, d: nat)
    requires WellFormed(nodes, prefix, height) && d < height
    ensures CollectLeaves(GetHeaderNodesAtDepth(nodes, d)) == CollectLeaves(nodes)
    decreases nodes
  {
    if d > 0 && nodes != [] {
      var n := nodes[0];
      var rest := nodes[1..];
      WellFormedTail(nodes, prefix, height);
      assert n.children != [];
      var h0 := GetHeaderNodesAtDepth(n.children, d - 1);
      var hr := GetHeaderNodesAtDepth(rest, d);
      assert GetHeaderNodesAtDepth(nodes, d) == h0 + hr;
      assert CollectLeaves(h0) == CollectLeaves(n.children) by {
        HeaderRowCoversLeaves(n.children, n.fullPath, height - 1, d - 1);
      }
      assert CollectLeaves(hr) == CollectLeaves(rest) by {
        HeaderRowCoversLeaves(rest, prefix, height, d);
      }
      CollectLeavesAppend(h0, hr);
    }
  }

  /** The header row at the leaves' depth is the leaf list itself. */
  lemma {:induction false} HeaderRowAtLeafDepth(nodes: seq<ColumnNode>, prefix: seq<Value>, height: nat)
    requires WellFormed(nodes, prefix, height) && height >= 1
    ensures GetHeaderNodesAtDepth(nodes, height - 1) == CollectLeaves(nodes)
    decreases nodes
  {
    if nodes != [] {
      var n := nodes[0];
      var rest := nodes[1..];
      WellFormedTail(nodes, prefix, height);
      assert GetHeaderNodesAtDepth(rest, height - 1) == CollectLeaves(rest) by {
        HeaderRowAtLeafDepth(rest, prefix, height);
      }
      if height == 1 {
        assert n.children == [];
        assert nodes == [n] + rest;
        assert CollectLeaves(nodes) == [n] + CollectLeaves(rest);
      } else {
        assert GetHeaderNodesAtDepth(n.children, height - 2) == CollectLeaves(n.children) by {
          HeaderRowAtLeafDepth(n.children, n.fullPath, height - 1);
        }
        assert GetHeaderNodesAtDepth(nodes, height - 1) ==
               GetHeaderNodesAtDepth(n.children, height - 2) + GetHeaderNodesAtDepth(rest, height - 1);
        assert CollectLeaves(nodes) == CollectLeaves(n.children) + CollectLeaves(rest);
      }
    }
  }

  /** Below the leaves there are no header nodes. */
  lemma {:induction false} HeaderRowBeyondLeaves(nodes: seq<ColumnNode>, prefix: seq<Value>, height: nat, d: nat)
    requires WellFormed(nodes, prefix, height) && d >= height
    ensures GetHeaderNodesAtDepth(nodes, d) == []
    decreases nodes
  {
    if nodes != [] {
      var n := nodes[0];
      var rest := nodes[1..];
      assert NodeWellFormed(n, prefix, height) && WellFormed(rest, prefix, height) by {
        WellFormedTail(nodes, prefix, height);
      }
      assert height >= 1 && d > 0;
      var h0 := if n.children != [] then GetHeaderNodesAtDepth(n.children, d - 1) else [];
      var hr := GetHeaderNodesAtDepth(rest, d);
      assert GetHeaderNodesAtDepth(nodes, d) == h0 + hr;
      if n.children != [] {
        assert WellFormed(n.children, n.fullPath, height - 1);
        HeaderRowBeyondLeaves(n.children, n.fullPath, height - 1, d - 1);
      }
      HeaderRowBeyondLeaves(rest, prefix, height, d);
    }
  }

  // ----- the tree against the data -----

  /** `p` is `path` followed by some transaction's values of `fields`. */
  predicate PathInData(p: seq<Value>, txs: seq<Transaction>, fields: seq<GroupField>, path: seq<Value>)
  {
    exists t :: t in txs && p == path + ValuePath(t, fields)
  }

  predicate HasLeafWithPath(leaves: seq<ColumnNode>, p: seq<Value>)
  {
    exists j :: 0 <= j < |leaves| && leaves[j].fullPath == p
  }

  lemma {:induction false} HasLeafWithPathAppend(a: seq<ColumnNode>, b: seq<ColumnNode>, p: seq<Value>)
    requires HasLeafWithPath(a, p) || HasLeafWithPath(b, p)
    ensures HasLeafWithPath(a + b, p)
  {
    if HasLeafWithPath(a, p) {
      var j :| 0 <= j < |a| && a[j].fullPath == p;
      assert (a + b)[j] == a[j];
    } else {
      var j :| 0 <= j < |b| && b[j].fullPath == p;
      assert (a + b)[|a| + j] == b[j];
    }
  }

  lemma {:induction false} ValuePathCons(t: Transaction, f: GroupField, rest: seq<GroupField>)
    ensures ValuePath(t, [f] + rest) == [FieldValue(t, f)] + ValuePath(t, rest)
  {
    assert ([f] + rest)[1..] == rest;
  }

  /** The tree is sparse and complete: there is a leaf for every combination of
      column values that some transaction carries, and for no other. */
  lemma {:induction false} LeavesMatchData(txs: seq<Transaction>, fields: seq<GroupField>, path: seq<Value>)
    requires fields != []
    ensures forall j :: 0 <= j < |CollectLeaves(BuildColumnTree(txs, fields, path))| ==>
              PathInData(CollectLeaves(BuildColumnTree(txs, fields, path))[j].fullPath, txs, fields, path)
    ensures forall t :: t in txs ==>
              HasLeafWithPath(CollectLeaves(BuildColumnTree(txs, fields, path)), path + ValuePath(t, fields))
    decreases |fields|, 0
  {
    var vals := DistinctSorted(Project(txs, fields[0]));
    ProjectMembers(txs, fields[0]);
    NodesLeavesMatchData(txs, fields[0], fields[1..], path, vals);
    assert [fields[0]] + fields[1..] == fields;
    forall t | t in txs ensures FieldValue(t, fields[0]) in vals {
      assert Occurs(txs, fields[0], FieldValue(t, fields[0]));
    }
  }

  lemma {:induction false} NodesLeavesMatchData(txs: seq<Transaction>, f: GroupField, rest: seq<GroupField>,
                                                path: seq<Value>, vals: seq<Value>)
    requires forall v :: v in vals ==> Occurs(txs, f, v)
    ensures forall j :: 0 <= j < |CollectLeaves(BuildNodes(txs, f, rest, path, vals))| ==>
              PathInData(CollectLeaves(BuildNodes(txs, f, rest, path, vals))[j].fullPath, txs, [f] + rest, path)
    ensures forall t :: t in txs && FieldValue(t, f) in vals ==>
              HasLeafWithPath(CollectLeaves(BuildNodes(txs, f, rest, path, vals)), path + ValuePath(t, [f] + rest))
    decreases |rest|, 2, |vals|
  {
    if vals != [] {
      var v := vals[0];
      var node := BuildNode(txs, f, rest, path, v);
      var tail := BuildNodes(txs, f, rest, path, vals[1..]);
      assert BuildNodes(txs, f, rest, path, vals) == [node] + tail;
      var l0 := CollectLeaves([node]);
      var lt := CollectLeaves(tail);
      var l := l0 + lt;
      assert CollectLeaves([node] + tail) == l by {
        CollectLeavesAppend([node], tail);
      }
      assert v in vals;
      assert forall v' :: v' in vals[1..] ==> Occurs(txs, f, v');
      NodesLeavesMatchData(txs, f, rest, path, vals[1..]);
      forall j | 0 <= j < |l| ensures PathInData(l[j].fullPath, txs, [f] + rest, path) {
        if j < |l0| {
          NodeLeavesFromData(txs, f, rest, path, v);
        } else {
          assert l[j] == lt[j - |l0|];
        }
      }
      forall t | t in txs && FieldValue(t, f) in vals ensures HasLeafWithPath(l, path + ValuePath(t, [f] + rest)) {
        if FieldValue(t, f) != v {
          assert FieldValue(t, f) in vals[1..];
        } else {
          NodeLeavesCoverData(txs, f, rest, path, v);
        }
        HasLeafWithPathAppend(l0, lt, path + ValuePath(t, [f] + rest));
      }
    }
  }

  lemma {:induction false} CollectLeavesSingle(n: ColumnNode)
    ensures CollectLeaves([n]) == if n.children == [] then [n] else CollectLeaves(n.children)
  {
    assert [n][1..] == [];
  }

  /** `path + [v]` followed by `t`'s values of `rest` is `path` followed by
      `t`'s values of `[f] + rest`, when `t` carries `v` in `f`. */
  lemma {:induction false} ExtendedPath(t: Transaction, f: GroupField, rest: seq<GroupField>, path: seq<Value>, v: Value)
    requires FieldValue(t, f) == v
    ensures path + [v] + ValuePath(t, rest) == path + ValuePath(t, [f] + rest)
  {
    ValuePathCons(t, f, rest);
    assert path + [v] + ValuePath(t, rest) == path + ([v] + ValuePath(t, rest));
  }

  /** Every leaf under the node for `v` has the path of a transaction. */
  lemma {:induction false} NodeLeavesFromData(txs: seq<Transaction>, f: GroupField, rest: seq<GroupField>,
                                              path: seq<Value>, v: Value)
    requires Occurs(txs, f, v)
    ensures forall j :: 0 <= j < |CollectLeaves([BuildNode(txs, f, rest, path, v)])| ==>
              PathInData(CollectLeaves([BuildNode(txs, f, rest, path, v)])[j].fullPath, txs, [f] + rest, path)
    decreases |rest|, 1
  {
    var node := BuildNode(txs, f, rest, path, v);
    var sub := Filter(txs, f, v);
    var l0 := CollectLeaves([node]);
    CollectLeavesSingle(node);
    assert node.children == BuildColumnTree(sub, rest, path + [v]);
    var t0 :| t0 in txs && FieldValue(t0, f) == v;
    if rest == [] {
      assert node.children == [];
      ExtendedPath(t0, f, rest, path, v);
      assert l0[0].fullPath == path + ValuePath(t0, [f] + rest);
    } else {
      assert t0 in sub;
      BuildColumnTreeEmpty(sub, rest, path + [v]);
      LeavesMatchData(sub, rest, path + [v]);
      forall j | 0 <= j < |l0| ensures PathInData(l0[j].fullPath, txs, [f] + rest, path) {
        assert PathInData(l0[j].fullPath, sub, rest, path + [v]);
        var t :| t in sub && l0[j].fullPath == path + [v] + ValuePath(t, rest);
        ExtendedPath(t, f, rest, path, v);
      }
    }
  }

  /** Every transaction carrying `v` has a leaf under the node for `v`. */
  lemma {:induction false} NodeLeavesCoverData(txs: seq<Transaction>, f: GroupField, rest: seq<GroupField>,
                                               path: seq<Value>, v: Value)
    requires Occurs(txs, f, v)
    ensures forall t :: t in txs && FieldValue(t, f) == v ==>
              HasLeafWithPath(CollectLeaves([BuildNode(txs, f, rest, path, v)]), path + ValuePath(t, [f] + rest))
    decreases |rest|, 1
  {
    var node := BuildNode(txs, f, rest, path, v);
    var sub := Filter(txs, f, v);
    var l0 := CollectLeaves([node]);
    CollectLeavesSingle(node);
    assert node.children == BuildColumnTree(sub, rest, path + [v]);
    if rest == [] {
      assert node.children == [];
    } else {
      var t0 :| t0 in txs && FieldValue(t0, f) == v;
      assert t0 in sub;
      BuildColumnTreeEmpty(sub, rest, path + [v]);
      LeavesMatchData(sub, rest, path + [v]);
    }
    forall t | t in txs && FieldValue(t, f) == v ensures HasLeafWithPath(l0, path + ValuePath(t, [f] + rest)) {
      ExtendedPath(t, f, rest, path, v);
      if rest == [] {
        assert l0[0].fullPath == path + ValuePath(t, [f] + rest);
      } else {
        assert t in sub;
      }
    }
  }

  // ----- sibling order -----

  lemma {:induction false} FilterHomogeneous(txs: seq<Transaction>, f: GroupField, v: Value, g: GroupField)
    requires FieldHomogeneous(txs, g)
    ensures FieldHomogeneous(Filter(txs, f, v), g)
  {
    var numeric := AllOfKind(Project(txs, g), true);
    var sub := Filter(txs, f, v);
    forall i | 0 <= i < |sub| ensures IsNumericLike(Project(sub, g)[i]) == numeric {
      assert sub[i] in txs;
      var k :| 0 <= k < |txs| && txs[k] == sub[i];
      assert Project(txs, g)[k] == FieldValue(sub[i], g);
    }
  }

  /** When every column field's values are all numeric-like or all not,
      siblings appear in `sortValues` order at every level. */
  lemma {:induction false} BuildColumnTreeSorted(txs: seq<Transaction>, fields: seq<GroupField>, path: seq<Value>)
    requires forall i :: 0 <= i < |fields| ==> FieldHomogeneous(txs, fields[i])
    ensures SiblingsSorted(BuildColumnTree(txs, fields, path))
    decreases |fields|, 0
  {
    if fields != [] {
      var vals := DistinctSorted(Project(txs, fields[0]));
      var r := BuildColumnTree(txs, fields, path);
      DistinctSortedSpec(Project(txs, fields[0]));
      assert Values(r) == vals;
      NodesChildrenSorted(txs, fields[0], fields[1..], path, vals);
    }
  }

  lemma {:induction false} NodesChildrenSorted(txs: seq<Transaction>, f: GroupField, rest: seq<GroupField>,
                                               path: seq<Value>, vals: seq<Value>)
    requires forall i :: 0 <= i < |rest| ==> FieldHomogeneous(txs, rest[i])
    ensures forall i :: 0 <= i < |vals| ==> SiblingsSorted(BuildNodes(txs, f, rest, path, vals)[i].children)
    decreases |rest|, |vals|
  {
    if vals != [] {
      var v := vals[0];
      var r := BuildNodes(txs, f, rest, path, vals);
      var tail := BuildNodes(txs, f, rest, path, vals[1..]);
      assert r == [r[0]] + tail;
      forall i | 0 <= i < |rest| ensures FieldHomogeneous(Filter(txs, f, v), rest[i]) {
        FilterHomogeneous(txs, f, v, rest[i]);
      }
      BuildColumnTreeSorted(Filter(txs, f, v), rest, path + [v]);
      NodesChildrenSorted(txs, f, rest, path, vals[1..]);
      forall i | 0 <= i < |vals| ensures SiblingsSorted(r[i].children) {
        if i > 0 { assert r[i] == tail[i - 1]; }
      }
    }
  }
}
