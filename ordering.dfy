/** The ordering of grouping values (`sortValues` in src/utils.ts) and the
    distinct, sorted value list that both the row labels and every level of the
    column tree are built from. */
module ValueOrder {
  import opened PivotTypes

  predicate IsDigit(c: char) { '0' <= c <= '9' }

  predicate AllDigits(s: string)
  {
    s == [] || (IsDigit(s[|s| - 1]) && AllDigits(s[..|s| - 1]))
  }

  /** The value of a run of decimal digits. */
  function DigitsValue(s: string): nat
    requires AllDigits(s)
  {
    if s == [] then 0 else DigitsValue(s[..|s| - 1]) * 10 + (s[|s| - 1] as int - '0' as int)
  }

  /** `Number(s)` for the strings this model understands: the empty string is 0,
      an optional '-' followed by decimal digits is that integer, anything else
      is NaN (None). */
  function ParseNumber(s: string): Option<int>
  {
    if s == [] then Some(0 as int)
    else if AllDigits(s) then Some(DigitsValue(s))
    else if s[0] == '-' && |s| > 1 && AllDigits(s[1..]) then Some(-(DigitsValue(s[1..]) as int))
    else None
  }

  function DigitChar(d: nat): char
    requires d < 10
  {
    ('0' as int + d) as char
  }

  function NatToString(n: nat): string
  {
    if n < 10 then [DigitChar(n)] else NatToString(n / 10) + [DigitChar(n % 10)]
  }

  /** `String(n)` for an integer. */
  function IntToString(n: int): string
  {
    if n < 0 then "-" + NatToString(-n) else NatToString(n)
  }

  /** `String(v)`, which is also the key a JavaScript object stores `v` under. */
  function ToStr(v: Value): string
  {
    match v
    case Str(s) => s
    case Num(n) => IntToString(n)
  }

  /** `typeof v === 'number' || !Number.isNaN(Number(v))` */
  predicate IsNumericLike(v: Value)
  {
    v.Num? || ParseNumber(v.s).Some?
  }

  /** `Number(v)` for a numeric-like value. */
  function NumberOf(v: Value): int
    requires IsNumericLike(v)
  {
    match v
    case Num(n) => n
    case Str(s) => ParseNumber(s).value
  }

  /** `localeCompare`, taken as code-unit lexicographic order: negative, zero or
      positive as `a` sorts before, equal to or after `b`. */
  function StrCompare(a: string, b: string): int
  {
    if a == [] && b == [] then 0
    else if a == [] then -1
    else if b == [] then 1
    else if a[0] < b[0] then -1
    else if a[0] > b[0] then 1
    else StrCompare(a[1..], b[1..])
  }

  /** `sortValues(a, b)`: numerically when both are numeric-like, otherwise as
      strings. Only the sign matters to the sort. */
  function SortValues(a: Value, b: Value): int
  {
    if IsNumericLike(a) && IsNumericLike(b) then NumberOf(a) - NumberOf(b)
    else StrCompare(ToStr(a), ToStr(b))
  }

  /** `a` may stay before `b` in a sorted list. */
  predicate Le(a: Value, b: Value) { SortValues(a, b) <= 0 }

  predicate AllOfKind(s: seq<Value>, numeric: bool)
  {
    forall i :: 0 <= i < |s| ==> IsNumericLike(s[i]) == numeric
  }

  /** All values numeric-like, or none: the only case where `sortValues` is a
      total preorder (on mixed data it can cycle). */
  predicate Homogeneous(s: seq<Value>)
  {
    AllOfKind(s, true) || AllOfKind(s, false)
  }

  predicate Sorted(s: seq<Value>)
  {
    forall i, j :: 0 <= i < j < |s| ==> Le(s[i], s[j])
  }

  /** One step of a stable insertion sort: `x` goes before the first element it
      is not after. */
  function Insert(x: Value, s: seq<Value>): (r: seq<Value>)
    ensures multiset(r) == multiset(s) + multiset{x}
  {
    if s == [] then [x]
    else if Le(x, s[0]) then [x] + s
    else
      assert s == [s[0]] + s[1..];
      [s[0]] + Insert(x, s[1..])
  }

  /** `Array.prototype.sort(sortValues)`, which is stable: a stable insertion sort. */
  function Sort(s: seq<Value>): (r: seq<Value>)
    ensures multiset(r) == multiset(s)
  {
    if s == [] then []
    else
      assert s == [s[0]] + s[1..];
      Insert(s[0], Sort(s[1..]))
  }

  /** `Array.from(new Set(s))`: the first occurrence of each value, in order. */
  function Distinct(s: seq<Value>): seq<Value>
  {
    if s == [] then []
    else
      var d := Distinct(s[..|s| - 1]);
      if s[|s| - 1] in d then d else d + [s[|s| - 1]]
  }

  /** `Array.from(new Set(s)).sort(sortValues)` */
  function DistinctSorted(s: seq<Value>): seq<Value>
  {
    Sort(Distinct(s))
  }

  // ----- lemmas -----

  lemma {:induction false} StrCompareAntisymmetric(a: string, b: string)
    ensures StrCompare(a, b) == -StrCompare(b, a)
    ensures StrCompare(a, b) == 0 <==> a == b
  {
    if a != [] && b != [] && a[0] == b[0] {
      StrCompareAntisymmetric(a[1..], b[1..]);
      assert a == [a[0]] + a[1..] && b == [b[0]] + b[1..];
    }
  }

  lemma {:induction false} StrCompareTransitive(a: string, b: string, c: string)
    requires StrCompare(a, b) <= 0 && StrCompare(b, c) <= 0
    ensures StrCompare(a, c) <= 0
  {
    if a != [] && b != [] && c != [] && a[0] == b[0] && b[0] == c[0] {
      StrCompareTransitive(a[1..], b[1..], c[1..]);
    }
  }

  /** Within one kind, any two values are comparable. */
  lemma LeTotal(a: Value, b: Value)
    requires IsNumericLike(a) == IsNumericLike(b)
    ensures Le(a, b) || Le(b, a)
  {
    StrCompareAntisymmetric(ToStr(a), ToStr(b));
  }

  /** Within one kind, the order is transitive. */
  lemma LeTransitive(a: Value, b: Value, c: Value)
    requires IsNumericLike(a) == IsNumericLike(b) == IsNumericLike(c)
    requires Le(a, b) && Le(b, c)
    ensures Le(a, c)
  {
    if !IsNumericLike(a) {
      StrCompareTransitive(ToStr(a), ToStr(b), ToStr(c));
    }
  }

  /** A value no greater than any element of a sorted list may go in front. */
  lemma SortedCons(x: Value, s: seq<Value>)
    requires Sorted(s) && forall j :: 0 <= j < |s| ==> Le(x, s[j])
    ensures Sorted([x] + s)
  {
    var r := [x] + s;
    forall i, j | 0 <= i < j < |r| ensures Le(r[i], r[j]) {
      assert r[j] == s[j - 1];
      if i > 0 { assert r[i] == s[i - 1]; }
    }
  }

  lemma {:induction false} InsertSorted(x: Value, s: seq<Value>, numeric: bool)
    requires Sorted(s) && AllOfKind(s, numeric) && IsNumericLike(x) == numeric
    ensures Sorted(Insert(x, s))
  {
    if s == [] {
    } else if Le(x, s[0]) {
      forall j | 0 <= j < |s| ensures Le(x, s[j]) {
        if j > 0 { LeTransitive(x, s[0], s[j]); }
      }
      SortedCons(x, s);
    } else {
      LeTotal(x, s[0]);
      var t := Insert(x, s[1..]);
      assert Sorted(t) by {
        InsertSorted(x, s[1..], numeric);
      }
      forall j | 0 <= j < |t| ensures Le(s[0], t[j]) {
        assert t[j] in multiset(t);
        if t[j] != x {
          assert t[j] in multiset(s[1..]);
          var k :| 0 <= k < |s[1..]| && s[1..][k] == t[j];
          assert s[k + 1] == t[j];
        }
      }
      SortedCons(s[0], t);
    }
  }

  lemma AllOfKindMultiset(s: seq<Value>, r: seq<Value>, numeric: bool)
    requires multiset(r) == multiset(s) && AllOfKind(s, numeric)
    ensures AllOfKind(r, numeric)
  {
    forall i | 0 <= i < |r| ensures IsNumericLike(r[i]) == numeric {
      assert r[i] in multiset(s);
    }
  }

  /** Sorting a homogeneous list yields a sorted permutation of it. */
  lemma {:induction false} SortSorted(s: seq<Value>, numeric: bool)
    requires AllOfKind(s, numeric)
    ensures Sorted(Sort(s)) && multiset(Sort(s)) == multiset(s)
  {
    if s != [] {
      SortSorted(s[1..], numeric);
      AllOfKindMultiset(s[1..], Sort(s[1..]), numeric);
      InsertSorted(s[0], Sort(s[1..]), numeric);
    }
  }

  lemma {:induction false} DistinctSpec(s: seq<Value>)
    ensures NoDup(Distinct(s))
    ensures forall x :: x in Distinct(s) <==> x in s
  {
    if s != [] {
      DistinctSpec(s[..|s| - 1]);
      assert s == s[..|s| - 1] + [s[|s| - 1]];
    }
  }

  lemma {:induction false} InsertNoDup(x: Value, s: seq<Value>)
    requires NoDup(s) && x !in s
    ensures NoDup(Insert(x, s))
  {
    if s != [] && !Le(x, s[0]) {
      var t := Insert(x, s[1..]);
      assert NoDup(s[1..]) && s[0] !in s[1..] && x !in s[1..] by {
        assert s == [s[0]] + s[1..];
      }
      InsertNoDup(x, s[1..]);
      assert s[0] !in t by {
        assert s[0] != x && multiset(s[1..])[s[0]] == 0;
        assert multiset(t)[s[0]] == 0;
      }
      NoDupCons(s[0], t);
    } else {
      NoDupCons(x, s);
    }
  }

  /** Sorting a list without duplicates yields a list without duplicates. */
  lemma {:induction false} SortNoDup(s: seq<Value>)
    requires NoDup(s)
    ensures NoDup(Sort(s))
  {
    if s != [] {
      assert NoDup(s[1..]) && s[0] !in s[1..] by {
        assert s == [s[0]] + s[1..];
      }
      SortNoDup(s[1..]);
      assert s[0] !in Sort(s[1..]) by {
        assert s[0] !in multiset(s[1..]);
      }
      InsertNoDup(s[0], Sort(s[1..]));
    }
  }

  /** The row labels and each level of the column tree: exactly the distinct
      values of the input, each once, sorted when the values are all
      numeric-like or all not. */
  lemma DistinctSortedSpec(s: seq<Value>)
    ensures NoDup(DistinctSorted(s))
    ensures forall x :: x in DistinctSorted(s) <==> x in s
    ensures Homogeneous(s) ==> Sorted(DistinctSorted(s))
    ensures s == [] ==> DistinctSorted(s) == []
  {
    var d := Distinct(s);
    DistinctSpec(s);
    SortNoDup(d);
    forall x ensures x in Sort(d) <==> x in d {
      assert x in Sort(d) <==> x in multiset(Sort(d));
    }
    if Homogeneous(s) {
      var numeric := AllOfKind(s, true);
      assert AllOfKind(d, numeric) by {
        forall i | 0 <= i < |d| ensures IsNumericLike(d[i]) == numeric {
          assert d[i] in s;
        }
      }
      SortSorted(d, numeric);
    }
  }

  /** The key a JavaScript object stores a number under reads back as that number. */
  lemma {:induction false} NumberKeyRoundTrip(n: int)
    ensures ParseNumber(IntToString(n)) == Some(n)
  {
    if n < 0 {
      NatToStringValue(-n);
      var s := "-" + NatToString(-n);
      assert s[1..] == NatToString(-n);
      assert !AllDigits(s) by {
        if AllDigits(s) { AllDigitsHead(s); }
      }
    } else {
      NatToStringValue(n);
    }
  }

  lemma {:induction false} AllDigitsHead(s: string)
    requires s != [] && AllDigits(s)
    ensures IsDigit(s[0])
  {
    if |s| > 1 {
      AllDigitsHead(s[..|s| - 1]);
    }
  }

  /** The decimal digits of `n` read back as `n`. */
  lemma {:induction false} NatToStringValue(n: nat)
    ensures |NatToString(n)| > 0 && AllDigits(NatToString(n))
    ensures DigitsValue(NatToString(n)) == n
  {
    if n >= 10 {
      NatToStringValue(n / 10);
      var s := NatToString(n);
      assert s == NatToString(n / 10) + [DigitChar(n % 10)];
      assert s[..|s| - 1] == NatToString(n / 10);
    }
  }
}
