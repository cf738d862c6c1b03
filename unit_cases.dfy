/** The cases of tests/utils.test.ts, on the same four transactions. */
module UnitCases {
  import opened PivotTypes
  import opened ValueOrder
  import opened ColumnTree
  import opened Aggregation
  import opened Pivot

  /** The four transactions the tests use. */
  function Sample(): seq<Transaction>
  {
    [ Transaction("invoice", "1", Numeric(100.0), "paid", Str("2024")),
      Transaction("invoice", "2", Numeric(50.0), "unpaid", Str("2024")),
      Transaction("bill", "3", Numeric(25.5), "paid", Str("2025")),
      Transaction("bill", "4", Numeric(24.5), "paid", Str("2024")) ]
  }

  /** The row field's values, in list order. */
  lemma SampleTypes()
    ensures Project(Sample(), TransactionType) == [Str("invoice"), Str("invoice"), Str("bill"), Str("bill")]
  {
  }

  /** `new Set` of the row values keeps the first of each. */
  lemma DistinctAABB(a: Value, b: Value)
    requires a != b
    ensures Distinct([a, a, b, b]) == [a, b]
  {
    var p := [a, a, b, b];
    assert p[..1][..0] == [];
    assert Distinct(p[..1]) == [a];
    assert p[..2][..1] == p[..1];
    assert Distinct(p[..2]) == [a];
    assert p[..3][..2] == p[..2];
    assert Distinct(p[..3]) == [a, b];
    assert p[..4][..3] == p[..3] && p[..4] == p;
  }

  /** Neither label is numeric-like, so they sort as strings. */
  lemma SortTypes()
    ensures Sort([Str("invoice"), Str("bill")]) == [Str("bill"), Str("invoice")]
  {
    assert !AllDigits("invoice") && !AllDigits("bill");
    assert StrCompare("invoice", "bill") == 1;
    assert Sort([Str("bill")]) == [Str("bill")];
  }

  /** The row labels are `['bill', 'invoice']`. */
  lemma SampleRowValues()
    ensures PivotOf(Sample(), TransactionType, []).rowValues == [Str("bill"), Str("invoice")]
  {
    SampleTypes();
    DistinctAABB(Str("invoice"), Str("bill"));
    SortTypes();
  }

  /** The amounts per transaction type, and in all. */
  lemma SampleRowSums()
    ensures SelectedTotal(Sample(), TransactionType, Some("invoice")) == 150.0
    ensures SelectedTotal(Sample(), TransactionType, Some("bill")) == 50.0
    ensures Total(Sample()) == 200.0
  {
    var s := Sample();
    assert s[..3][..2] == s[..2] && s[..2][..1] == s[..1] && s[..1][..0] == [] && s[..4] == s;
    assert Total(s[..1]) == 100.0;
    assert Total(s[..2]) == 150.0;
    assert Total(s[..3]) == 175.5;
    assert SelectedTotal(s[..1], TransactionType, Some("invoice")) == 100.0;
    assert SelectedTotal(s[..2], TransactionType, Some("invoice")) == 150.0;
    assert SelectedTotal(s[..3], TransactionType, Some("invoice")) == 150.0;
    assert SelectedTotal(s[..1], TransactionType, Some("bill")) == 0.0;
    assert SelectedTotal(s[..2], TransactionType, Some("bill")) == 0.0;
    assert SelectedTotal(s[..3], TransactionType, Some("bill")) == 25.5;
  }

  /** Without column groups: the single 'Total' leaf, 150 for invoices, 50
      for bills and 200 in all. */
  lemma SampleNoColumns()
    ensures var res := PivotOf(Sample(), TransactionType, []);
            && res.rowValues == [Str("bill"), Str("invoice")]
            && res.leaves == [ColumnNode(Str("Total"), [], 1, [])]
            && "invoice" in res.pivotMap && res.pivotMap["invoice"] == Scalar(150.0)
            && "bill" in res.pivotMap && res.pivotMap["bill"] == Scalar(50.0)
            && res.totalMap == Scalar(200.0)
  {
    SampleRowValues();
    RowEntriesSpec(Sample(), TransactionType, []);
    assert KeyOf(Str("invoice")) == "invoice" && KeyOf(Str("bill")) == "bill";
    NoColumnsSpec(Sample(), TransactionType);
    SampleRowSums();
  }

  /** `new Set` of the years keeps the first of each. */
  lemma DistinctAABA(a: Value, b: Value)
    requires a != b
    ensures Distinct([a, a, b, a]) == [a, b]
  {
    var p := [a, a, b, a];
    assert p[..1][..0] == [];
    assert Distinct(p[..1]) == [a];
    assert p[..2][..1] == p[..1];
    assert Distinct(p[..2]) == [a];
    assert p[..3][..2] == p[..2];
    assert Distinct(p[..3]) == [a, b];
    assert p[..4][..3] == p[..3] && p[..4] == p;
  }

  /** Both years are numeric-like strings. */
  lemma YearNumbers()
    ensures ParseNumber("2024") == Some(2024) && ParseNumber("2025") == Some(2025)
  {
    assert "2024"[..3] == "202" && "2025"[..3] == "202" && "202"[..2] == "20" && "20"[..1] == "2" && "2"[..0] == "";
    assert DigitsValue("202") == 202;
  }

  /** The year of each transaction, in list order. */
  lemma SampleYearValues()
    ensures Project(Sample(), Year) == [Str("2024"), Str("2024"), Str("2025"), Str("2024")]
  {
  }

  /** Both years are numeric-like, so they sort as numbers. */
  lemma SortYears()
    ensures Sort([Str("2024"), Str("2025")]) == [Str("2024"), Str("2025")]
  {
    YearNumbers();
    assert Sort([Str("2025")]) == [Str("2025")];
    assert Le(Str("2024"), Str("2025"));
  }

  /** The distinct years, in numeric order. */
  lemma SampleYears()
    ensures DistinctSorted(Project(Sample(), Year)) == [Str("2024"), Str("2025")]
  {
    SampleYearValues();
    DistinctAABA(Str("2024"), Str("2025"));
    SortYears();
  }

  /** With the year as column group the roots are '2024' and '2025'. */
  lemma SampleYearTree()
    ensures Values(PivotOf(Sample(), TransactionType, [Year]).columnTree) == [Str("2024"), Str("2025")]
  {
    SampleYears();
  }

  /** The amounts per type and year. */
  lemma SampleYearCellSums()
    ensures CellSum(Sample(), TransactionType, Some("invoice"), [Year], ["2024"]) == 150.0
    ensures CellSum(Sample(), TransactionType, Some("bill"), [Year], ["2024"]) == 24.5
    ensures CellSum(Sample(), TransactionType, Some("bill"), [Year], ["2025"]) == 25.5
  {
    var s := Sample();
    assert s[..3][..2] == s[..2] && s[..2][..1] == s[..1] && s[..1][..0] == [] && s[..4] == s;
    assert KeyPath(s[0], [Year]) == ["2024"] && KeyPath(s[1], [Year]) == ["2024"];
    assert KeyPath(s[2], [Year]) == ["2025"] && KeyPath(s[3], [Year]) == ["2024"];
    assert CellSum(s[..1], TransactionType, Some("invoice"), [Year], ["2024"]) == 100.0;
    assert CellSum(s[..2], TransactionType, Some("invoice"), [Year], ["2024"]) == 150.0;
    assert CellSum(s[..3], TransactionType, Some("invoice"), [Year], ["2024"]) == 150.0;
    assert CellSum(s[..1], TransactionType, Some("bill"), [Year], ["2024"]) == 0.0;
    assert CellSum(s[..2], TransactionType, Some("bill"), [Year], ["2024"]) == 0.0;
    assert CellSum(s[..3], TransactionType, Some("bill"), [Year], ["2024"]) == 0.0;
    assert CellSum(s[..1], TransactionType, Some("bill"), [Year], ["2025"]) == 0.0;
    assert CellSum(s[..2], TransactionType, Some("bill"), [Year], ["2025"]) == 0.0;
    assert CellSum(s[..3], TransactionType, Some("bill"), [Year], ["2025"]) == 25.5;
  }

  /** Each of the three cells has a transaction. */
  lemma SampleYearOccurs()
    ensures CellOccurs(Sample(), TransactionType, Some("invoice"), [Year], ["2024"])
    ensures CellOccurs(Sample(), TransactionType, Some("bill"), [Year], ["2024"])
    ensures CellOccurs(Sample(), TransactionType, Some("bill"), [Year], ["2025"])
  {
    var s := Sample();
    assert s[0] in s && KeyPath(s[0], [Year]) == ["2024"] && RowKey(s[0], TransactionType) == "invoice";
    assert s[2] in s && KeyPath(s[2], [Year]) == ["2025"] && RowKey(s[2], TransactionType) == "bill";
    assert s[3] in s && KeyPath(s[3], [Year]) == ["2024"] && RowKey(s[3], TransactionType) == "bill";
  }

  /** Both types get a row entry, whatever the column groups. */
  lemma SampleRows(cols: seq<GroupField>)
    ensures var pm := PivotOf(Sample(), TransactionType, cols).pivotMap;
            "invoice" in pm && "bill" in pm
  {
    SampleTypes();
    DistinctAABB(Str("invoice"), Str("bill"));
    SortTypes();
    RowEntriesSpec(Sample(), TransactionType, cols);
    assert KeyOf(Str("invoice")) == "invoice" && KeyOf(Str("bill")) == "bill";
  }

  /** With the year as column group: invoices 150 in 2024, bills 24.5 in
      2024 and 25.5 in 2025. */
  lemma SampleYearCells()
    ensures var pm := PivotOf(Sample(), TransactionType, [Year]).pivotMap;
            && "invoice" in pm && Get(pm["invoice"], ["2024"]) == Some(150.0)
            && "bill" in pm && Get(pm["bill"], ["2024"]) == Some(24.5) && Get(pm["bill"], ["2025"]) == Some(25.5)
  {
    SampleRows([Year]);
    ColumnsSpec(Sample(), TransactionType, [Year], ["2024"]);
    ColumnsSpec(Sample(), TransactionType, [Year], ["2025"]);
    SampleYearCellSums();
    SampleYearOccurs();
  }
}
