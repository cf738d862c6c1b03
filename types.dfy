/** Entities of the pivot table: grouping fields, grouping values, transactions
    and column header nodes (src/types.ts). */
module PivotTypes {

  datatype Option<+T> = None | Some(value: T)

  /** A grouping value: the source types these as `string | number`. Numbers that
      occur as grouping values (years) are whole numbers, so `Num` carries an int. */
  datatype Value = Str(s: string) | Num(n: int)

  /** The fields a user can group by. The source's type also lists 'amount', but
      the selector never offers it; here it is not a grouping field. */
  datatype GroupField = TransactionType | Status | Year

  /** The amount as the loader leaves it: a number, or NaN when the raw text
      did not parse. */
  datatype Measure = Numeric(r: real) | NotANumber

  datatype Transaction = Transaction(
    transactionType: string,
    transactionNumber: string,
    amount: Measure,
    status: string,
    year: Value)

  /** One header cell of the column tree. */
  datatype ColumnNode = ColumnNode(
    value: Value,
    fullPath: seq<Value>,
    colSpan: int,
    children: seq<ColumnNode>)

  /** `transaction[field]` */
  function FieldValue(t: Transaction, f: GroupField): Value
  {
    match f
    case TransactionType => Str(t.transactionType)
    case Status => Str(t.status)
    case Year => t.year
  }

  /** The field's name as it appears in the source (and in cache keys). */
  function FieldName(f: GroupField): (name: string)
    ensures |name| > 0 && '|' !in name
  {
    match f
    case TransactionType => "transaction_type"
    case Status => "status"
    case Year => "year"
  }

  /** `Number(t.amount) || 0`: NaN (and 0) become 0. */
  function Amount(t: Transaction): real
  {
    match t.amount
    case Numeric(r) => r
    case NotANumber => 0.0
  }

  /** The sum of all amounts, accumulated in list order. */
  function Total(txs: seq<Transaction>): real
  {
    if txs == [] then 0.0 else Total(txs[..|txs| - 1]) + Amount(txs[|txs| - 1])
  }

  /** The values of `fields`, in order, for one transaction. */
  function ValuePath(t: Transaction, fields: seq<GroupField>): (p: seq<Value>)
    ensures |p| == |fields|
    ensures forall i :: 0 <= i < |fields| ==> p[i] == FieldValue(t, fields[i])
  {
    if fields == [] then [] else [FieldValue(t, fields[0])] + ValuePath(t, fields[1..])
  }

  predicate NoDup<T(==)>(s: seq<T>)
  {
    forall i, j :: 0 <= i < j < |s| ==> s[i] != s[j]
  }

  lemma NoDupCons<T>(x: T, s: seq<T>)
    requires NoDup(s) && x !in s
    ensures NoDup([x] + s)
  {
    var r := [x] + s;
    forall i, j | 0 <= i < j < |r| ensures r[i] != r[j] {
      assert r[j] == s[j - 1];
      if i > 0 { assert r[i] == s[i - 1]; }
    }
  }

  /** Splitting off the head of a list without duplicates. */
  lemma {:induction false} NoDupTail<T>(s: seq<T>)
    requires s != [] && NoDup(s)
    ensures NoDup(s[1..]) && s[0] !in s[1..]
  {
    forall i, j | 0 <= i < j < |s[1..]| ensures s[1..][i] != s[1..][j] {
      assert s[1..][i] == s[i + 1] && s[1..][j] == s[j + 1];
    }
  }
}
