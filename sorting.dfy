// sortValues: order the row positions of a table by one column with the
// comparator the facade passes to `Array.prototype.sort`, then emit one record
// per position in that order.

module Sorting {
  import opened Values
  import opened Tables
  import opened Objects

  /** `opts?.ascending !== false`: only an explicit `false` sorts descending. */
  function IsAscending(ascending: Option<bool>): (r: bool)
    ensures ascending.None? ==> r
    ensures ascending.Some? ==> r == ascending.value
  {
    ascending != Some(false)
  }

  // ----- the columns list ---------------------------------------------------

  /** What `df.columns` may hold: an array of names, an index object whose
      `toArray()` yields the names, or anything else. */
  datatype ColumnsField = NameArray(names: seq<string>) | Indexed(items: seq<Value>) | Unusable

  predicate ColumnsReadable(c: ColumnsField)
  {
    c.Indexed? ==> forall j :: 0 <= j < |c.items| ==> Keyable(c.items[j])
  }

  /** The best-effort `columns` list: the array itself, `toArray().map(String)`,
      or an empty list. */
  function DeriveColumns(c: ColumnsField): (r: seq<string>)
    requires ColumnsReadable(c)
    ensures c.NameArray? ==> r == c.names
    ensures c.Indexed? ==> |r| == |c.items| && forall j :: 0 <= j < |r| ==> r[j] == ToText(c.items[j])
    ensures c.Unusable? ==> r == []
  {
    match c
    case NameArray(ns) => ns
    case Indexed(items) => seq(|items|, j requires 0 <= j < |items| => ToText(items[j]))
    case Unusable => []
  }

  // ----- the records ----------------------------------------------------------

  predicate AllColumns(df: Table, columns: seq<string>)
  {
    df.Valid() && forall c :: c in columns ==> df.HasColumn(c)
  }

  /** The record after `row[col] = df.get(col).iloc(i)` for each listed column, in order. */
  function ListedFields(df: Table, columns: seq<string>, i: nat): Record
    requires AllColumns(df, columns) && i < df.length
    decreases |columns|
  {
    if columns == [] then Empty()
    else
      var n := |columns| - 1;
      Put(ListedFields(df, columns[..n], i), columns[n], df.Get(columns[n])[i])
  }

  /** The record sortValues emits for input row `i`: the listed columns, plus
      the sort column when the listed ones do not already give it. */
  function RowAt(df: Table, columns: seq<string>, column: string, i: nat): Record
    requires AllColumns(df, columns) && df.HasColumn(column) && i < df.length
  {
    var listed := ListedFields(df, columns, i);
    if column in listed.vals then listed else Put(listed, column, df.Get(column)[i])
  }

  lemma {:induction false} ListedFieldsSpec(df: Table, columns: seq<string>, i: nat)
    requires AllColumns(df, columns) && i < df.length
    ensures Valid(ListedFields(df, columns, i))
    ensures forall c :: c in ListedFields(df, columns, i).vals <==> c in columns
    ensures forall c :: c in columns ==> ListedFields(df, columns, i).vals[c] == df.Get(c)[i]
    decreases |columns|
  {
    if columns != [] {
      var n := |columns| - 1;
      var pre := columns[..n];
      ListedFieldsSpec(df, pre, i);
      var before := ListedFields(df, pre, i);
      var after := Put(before, columns[n], df.Get(columns[n])[i]);
      assert ListedFields(df, columns, i) == after;
      PutSpec(before, columns[n], df.Get(columns[n])[i]);
      assert columns == pre + [columns[n]];
      forall c | c in columns
        ensures after.vals[c] == df.Get(c)[i]
      {
        if c != columns[n] {
          assert c in pre;
        }
      }
    }
  }

  /** Every emitted record is well formed, holds the sort column with the row's
      value, and holds each listed column with the row's value and nothing else. */
  lemma RowAtSpec(df: Table, columns: seq<string>, column: string, i: nat)
    requires AllColumns(df, columns) && df.HasColumn(column) && i < df.length
    ensures Valid(RowAt(df, columns, column, i))
    ensures column in RowAt(df, columns, column, i).vals
    ensures RowAt(df, columns, column, i).vals[column] == df.Get(column)[i]
    ensures forall c :: c in RowAt(df, columns, column, i).vals <==> c in columns || c == column
    ensures forall c :: c in columns ==> RowAt(df, columns, column, i).vals[c] == df.Get(c)[i]
  {
    var listed := ListedFields(df, columns, i);
    ListedFieldsSpec(df, columns, i);
    PutSpec(listed, column, df.Get(column)[i]);
  }

  /** When no column list can be derived, each record is exactly `{ [column]: value }`. */
  lemma RowWithoutColumns(df: Table, column: string, i: nat)
    requires df.Valid() && df.HasColumn(column) && i < df.length
    ensures RowAt(df, [], column, i).keys == [column]
    ensures RowAt(df, [], column, i).vals == map[column := df.Get(column)[i]]
  {
  }

  /** The names `in` finds on every plain object through `Object.prototype`. */
  const InheritedNames: set<string> := {
    "constructor", "hasOwnProperty", "isPrototypeOf", "propertyIsEnumerable",
    "toLocaleString", "toString", "valueOf", "__proto__",
    "__defineGetter__", "__defineSetter__", "__lookupGetter__", "__lookupSetter__" }

  /** The record as the code is written: `column in row` also sees inherited names,
      so the sort column is not added when its name is one of them. */
  function RowAtAsWritten(df: Table, columns: seq<string>, column: string, i: nat): Record
    requires AllColumns(df, columns) && df.HasColumn(column) && i < df.length
  {
    var listed := ListedFields(df, columns, i);
    if column in listed.vals || column in InheritedNames then listed
    else Put(listed, column, df.Get(column)[i])
  }

  /** The corrected record differs from the one the code builds only for a sort
      column named after an inherited property. */
  lemma RowAtAgrees(df: Table, columns: seq<string>, column: string, i: nat)
    requires AllColumns(df, columns) && df.HasColumn(column) && i < df.length
    ensures column !in InheritedNames ==> RowAtAsWritten(df, columns, column, i) == RowAt(df, columns, column, i)
    ensures column in InheritedNames && column !in columns ==>
      column !in RowAtAsWritten(df, columns, column, i).vals && column in RowAt(df, columns, column, i).vals
  {
    ListedFieldsSpec(df, columns, i);
    RowAtSpec(df, columns, column, i);
  }

  /** A table with one column named "toString", sorted on it with no column list:
      the record the code emits lacks the sort column, and the corrected one has it. */
  lemma InheritedNameDropsSortColumn()
    ensures var df := Table([Column("toString", [Num(1.0)])], 1);
      && df.HasColumn("toString")
      && "toString" !in RowAtAsWritten(df, [], "toString", 0).vals
      && "toString" in RowAt(df, [], "toString", 0).vals
  {
    var df := Table([Column("toString", [Num(1.0)])], 1);
    assert df.HasColumn("toString") by { assert df.columns[0].name == "toString"; }
  }

  // ----- the order --------------------------------------------------------------

  predicate Bounded(vals: seq<Value>, t: seq<nat>)
  {
    forall j :: 0 <= j < |t| ==> t[j] < |vals|
  }

  /** A rearrangement of positions within bounds stays within bounds. */
  lemma BoundedPermutation(vals: seq<Value>, s: seq<nat>, t: seq<nat>)
    requires Bounded(vals, s) && multiset(t) == multiset(s)
    ensures Bounded(vals, t)
  {
    forall j | 0 <= j < |t|
      ensures t[j] < |vals|
    {
      assert t[j] in multiset(s);
      var k :| 0 <= k < |s| && s[k] == t[j];
    }
  }

  /** Row position `a` goes before row position `b`: its value comes first in the
      chosen direction, or the values are `===` and `a` came first. */
  predicate Before(vals: seq<Value>, asc: bool, a: nat, b: nat)
    requires a < |vals| && b < |vals|
  {
    DirLess(vals[a], vals[b], asc) || (vals[a] == vals[b] && a < b)
  }

  predicate SortedBy(vals: seq<Value>, asc: bool, t: seq<nat>)
    requires Bounded(vals, t)
  {
    forall p, q :: 0 <= p < q < |t| ==> Before(vals, asc, t[p], t[q])
  }

  /** `Array.from({ length }, (_, i) => i)` */
  function Range(n: nat): (r: seq<nat>)
    ensures |r| == n && forall i :: 0 <= i < n ==> r[i] == i
  {
    seq(n, i => i)
  }

  /** On a column of one kind, `Before` is a strict total order on row positions. */
  lemma BeforeStrictTotal(vals: seq<Value>, asc: bool, a: nat, b: nat, c: nat)
    requires Homogeneous(vals) && a < |vals| && b < |vals| && c < |vals|
    ensures !Before(vals, asc, a, a)
    ensures Before(vals, asc, a, b) ==> !Before(vals, asc, b, a)
    ensures Before(vals, asc, a, b) && Before(vals, asc, b, c) ==> Before(vals, asc, a, c)
    ensures a != b ==> Before(vals, asc, a, b) || Before(vals, asc, b, a)
  {
    LessStrictTotalOrder(vals[a], vals[b], vals[c]);
    LessStrictTotalOrder(vals[c], vals[b], vals[a]);
    LessStrictTotalOrder(vals[b], vals[a], vals[c]);
    LessStrictTotalOrder(vals[c], vals[a], vals[b]);
  }

  /** The comparator sorts `b` before `a` exactly when `Before(b, a)`, given that
      every position already placed is smaller than `b`. */
  lemma CompareBefore(vals: seq<Value>, asc: bool, a: nat, b: nat)
    requires Homogeneous(vals) && a < |vals| && b < |vals| && a < b
    ensures Compare(vals[a], vals[b], asc) > 0 <==> Before(vals, asc, b, a)
    ensures Compare(vals[a], vals[b], asc) <= 0 <==> Before(vals, asc, a, b)
  {
    CompareMeaning(vals[a], vals[b], asc);
    BeforeStrictTotal(vals, asc, a, b, b);
  }

  /** One insertion step of a stable sort under the comparator. */
  function Insert(vals: seq<Value>, asc: bool, t: seq<nat>, x: nat): (r: seq<nat>)
    requires Bounded(vals, t) && x < |vals|
    ensures |r| == |t| + 1 && Bounded(vals, r)
    ensures multiset(r) == multiset(t) + multiset{x}
  {
    if t == [] then [x]
    else if Compare(vals[t[0]], vals[x], asc) > 0 then [x] + t
    else
      assert t == [t[0]] + t[1..];
      [t[0]] + Insert(vals, asc, t[1..], x)
  }

  /** A stable sort of `s` under the comparator. */
  function InsertionSort(vals: seq<Value>, asc: bool, s: seq<nat>): (r: seq<nat>)
    requires Bounded(vals, s)
    ensures |r| == |s| && Bounded(vals, r)
    ensures multiset(r) == multiset(s)
    decreases |s|
  {
    if s == [] then []
    else
      var n := |s| - 1;
      assert s == s[..n] + [s[n]];
      var t := InsertionSort(vals, asc, s[..n]);
      BoundedPermutation(vals, s[..n], t);
      Insert(vals, asc, t, s[n])
  }

  /** The order `indices.sort(cmp)` leaves the row positions in. */
  function StableOrder(vals: seq<Value>, asc: bool): seq<nat>
  {
    InsertionSort(vals, asc, Range(|vals|))
  }

  lemma {:induction false} InsertSorted(vals: seq<Value>, asc: bool, t: seq<nat>, x: nat)
    requires Homogeneous(vals) && Bounded(vals, t) && x < |vals|
    requires SortedBy(vals, asc, t)
    requires forall y :: y in t ==> y < x
    ensures SortedBy(vals, asc, Insert(vals, asc, t, x))
  {
    if t != [] {
      var r := Insert(vals, asc, t, x);
      assert t[0] in t;
      CompareBefore(vals, asc, t[0], x);
      if Compare(vals[t[0]], vals[x], asc) > 0 {
        forall q | 1 <= q < |r|
          ensures Before(vals, asc, r[0], r[q])
        {
          assert r[q] == t[q - 1];
          if q > 1 {
            BeforeStrictTotal(vals, asc, x, t[0], t[q - 1]);
          }
        }
      } else {
        var tail := Insert(vals, asc, t[1..], x);
        assert forall y :: y in t[1..] ==> y in t;
        InsertSorted(vals, asc, t[1..], x);
        forall q | 0 <= q < |tail|
          ensures Before(vals, asc, t[0], tail[q])
        {
          assert tail[q] in multiset(tail);
          if tail[q] != x {
            var p :| 0 <= p < |t[1..]| && t[1..][p] == tail[q];
            assert t[p + 1] == tail[q];
          }
        }
      }
    }
  }

  lemma {:induction false} SortRangeSorted(vals: seq<Value>, asc: bool, m: nat)
    requires Homogeneous(vals) && m <= |vals|
    ensures SortedBy(vals, asc, InsertionSort(vals, asc, Range(m)))
  {
    if m > 0 {
      var n := m - 1;
      assert Range(m)[..n] == Range(n);
      SortRangeSorted(vals, asc, n);
      var t := InsertionSort(vals, asc, Range(n));
      forall y | y in t
        ensures y < n
      {
        assert y in multiset(Range(n));
      }
      InsertSorted(vals, asc, t, n);
    }
  }

  lemma SortedTail(vals: seq<Value>, asc: bool, t: seq<nat>)
    requires Bounded(vals, t) && SortedBy(vals, asc, t) && t != []
    ensures Bounded(vals, t[1..]) && SortedBy(vals, asc, t[1..])
  {
    forall p, q | 0 <= p < q < |t[1..]|
      ensures Before(vals, asc, t[1..][p], t[1..][q])
    {
      assert t[1..][p] == t[p + 1] && t[1..][q] == t[q + 1];
    }
  }

  /** Two sorted arrangements of the same positions start with the same one. */
  lemma SortedHeads(vals: seq<Value>, asc: bool, t: seq<nat>, u: seq<nat>)
    requires Homogeneous(vals) && Bounded(vals, t) && Bounded(vals, u)
    requires multiset(t) == multiset(u) && t != []
    requires SortedBy(vals, asc, t) && SortedBy(vals, asc, u)
    ensures u != [] && t[0] == u[0]
  {
    assert t[0] in multiset(u);
    var q :| 0 <= q < |u| && u[q] == t[0];
    assert u[0] in multiset(t);
    var p :| 0 <= p < |t| && t[p] == u[0];
    if t[0] != u[0] {
      assert Before(vals, asc, t[0], t[p]);
      assert Before(vals, asc, u[0], u[q]);
      BeforeStrictTotal(vals, asc, t[0], u[0], t[0]);
      assert false;
    }
  }

  lemma MultisetTails(t: seq<nat>, u: seq<nat>)
    requires t != [] && u != [] && t[0] == u[0] && multiset(t) == multiset(u)
    ensures multiset(t[1..]) == multiset(u[1..])
  {
    assert t == [t[0]] + t[1..];
    assert u == [u[0]] + u[1..];
    assert multiset(t[1..]) == multiset(t) - multiset{t[0]};
    assert multiset(u[1..]) == multiset(u) - multiset{u[0]};
  }

  /** Two sequences that hold the same positions and are both sorted by `Before`
      are equal: the stable order is unique. */
  lemma {:induction false} SortedUnique(vals: seq<Value>, asc: bool, t: seq<nat>, u: seq<nat>)
    requires Homogeneous(vals) && Bounded(vals, t) && Bounded(vals, u)
    requires multiset(t) == multiset(u)
    requires SortedBy(vals, asc, t) && SortedBy(vals, asc, u)
    ensures t == u
    decreases |t|
  {
    if t == [] {
      assert |u| == |multiset(u)| == 0;
    } else {
      SortedHeads(vals, asc, t, u);
      MultisetTails(t, u);
      SortedTail(vals, asc, t);
      SortedTail(vals, asc, u);
      SortedUnique(vals, asc, t[1..], u[1..]);
      assert t == [t[0]] + t[1..];
      assert u == [u[0]] + u[1..];
    }
  }

  /** On a column of one kind, the stable order is a permutation of the row
      positions sorted by `Before`. */
  lemma StableOrderSpec(vals: seq<Value>, asc: bool)
    requires Homogeneous(vals)
    ensures |StableOrder(vals, asc)| == |vals|
    ensures multiset(StableOrder(vals, asc)) == multiset(Range(|vals|))
    ensures Bounded(vals, StableOrder(vals, asc))
    ensures SortedBy(vals, asc, StableOrder(vals, asc))
  {
    var o := StableOrder(vals, asc);
    forall y | y in o
      ensures y < |vals|
    {
      assert y in multiset(Range(|vals|));
    }
    SortRangeSorted(vals, asc, |vals|);
  }

  /** What sorted by `Before` means for the values: the comparator never puts a
      later position first, the column is non-decreasing ascending and
      non-increasing descending, and `===` values keep their original order. */
  lemma SortedMeaning(vals: seq<Value>, asc: bool, t: seq<nat>)
    requires Homogeneous(vals) && Bounded(vals, t) && SortedBy(vals, asc, t)
    ensures forall p, q :: 0 <= p < q < |t| ==> Compare(vals[t[p]], vals[t[q]], asc) <= 0
    ensures asc ==> forall p, q :: 0 <= p < q < |t| ==> !Less(vals[t[q]], vals[t[p]])
    ensures !asc ==> forall p, q :: 0 <= p < q < |t| ==> !Less(vals[t[p]], vals[t[q]])
    ensures forall p, q :: 0 <= p < q < |t| && vals[t[p]] == vals[t[q]] ==> t[p] < t[q]
  {
    forall p, q | 0 <= p < q < |t|
      ensures Compare(vals[t[p]], vals[t[q]], asc) <= 0
      ensures asc ==> !Less(vals[t[q]], vals[t[p]])
      ensures !asc ==> !Less(vals[t[p]], vals[t[q]])
    {
      CompareMeaning(vals[t[p]], vals[t[q]], asc);
      LessStrictTotalOrder(vals[t[p]], vals[t[q]], vals[t[p]]);
    }
  }

  /** Conversely, any permutation of the row positions that the comparator
      accepts and that keeps `===` values in original order is the stable order. */
  lemma StableOrderUnique(vals: seq<Value>, asc: bool, t: seq<nat>)
    requires Homogeneous(vals) && Bounded(vals, t) && multiset(t) == multiset(Range(|vals|))
    requires forall p, q :: 0 <= p < q < |t| ==> Compare(vals[t[p]], vals[t[q]], asc) <= 0
    requires forall p, q :: 0 <= p < q < |t| && vals[t[p]] == vals[t[q]] ==> t[p] < t[q]
    ensures t == StableOrder(vals, asc)
  {
    forall p, q | 0 <= p < q < |t|
      ensures Before(vals, asc, t[p], t[q])
    {
      CompareMeaning(vals[t[p]], vals[t[q]], asc);
    }
    StableOrderSpec(vals, asc);
    SortedUnique(vals, asc, t, StableOrder(vals, asc));
  }

  // ----- the in-place sort ----------------------------------------------------

  /** After `i` rounds of the insertion sort: positions `i..` are untouched and
      `s[..i]` holds the positions below `i` in `Before` order. */
  predicate SortedPrefix(vals: seq<Value>, asc: bool, s: seq<nat>, i: nat)
  {
    && |s| == |vals| && i <= |s|
    && (forall p :: 0 <= p < |s| ==> s[p] < |s|)
    && (forall p :: i <= p < |s| ==> s[p] == p)
    && (forall p :: 0 <= p < i ==> s[p] < i)
    && (forall p, q :: 0 <= p < q < i ==> Before(vals, asc, s[p], s[q]))
  }

  /** While position `i` moves left it sits at `j`: the others up to `i` stay in
      `Before` order, and `i` goes before each one it has passed. */
  predicate Inserting(vals: seq<Value>, asc: bool, s: seq<nat>, i: nat, j: nat)
  {
    && |s| == |vals| && j <= i < |s|
    && (forall p :: 0 <= p < |s| ==> s[p] < |s|)
    && s[j] == i
    && (forall p :: i < p < |s| ==> s[p] == p)
    && (forall p :: 0 <= p <= i && p != j ==> s[p] < i)
    && (forall p, q :: 0 <= p < q <= i && p != j && q != j ==> Before(vals, asc, s[p], s[q]))
    && (forall q :: j < q <= i ==> Before(vals, asc, i, s[q]))
  }

  lemma StartInserting(vals: seq<Value>, asc: bool, s: seq<nat>, i: nat)
    requires SortedPrefix(vals, asc, s, i) && i < |s|
    ensures Inserting(vals, asc, s, i, i)
  {
  }

  /** Swapping `i` with a left neighbour the comparator puts after it keeps the state. */
  lemma SwapStep(vals: seq<Value>, asc: bool, s: seq<nat>, i: nat, j: nat)
    requires Homogeneous(vals) && Inserting(vals, asc, s, i, j) && j > 0
    requires Compare(vals[s[j - 1]], vals[s[j]], asc) > 0
    ensures Inserting(vals, asc, s[j - 1 := s[j]][j := s[j - 1]], i, j - 1)
  {
    CompareBefore(vals, asc, s[j - 1], i);
  }

  /** Once the left neighbour goes before `i`, the prefix up to `i` is sorted. */
  lemma StopInserting(vals: seq<Value>, asc: bool, s: seq<nat>, i: nat, j: nat)
    requires Homogeneous(vals) && Inserting(vals, asc, s, i, j)
    requires j > 0 ==> Compare(vals[s[j - 1]], vals[s[j]], asc) <= 0
    ensures SortedPrefix(vals, asc, s, i + 1)
  {
    if j > 0 {
      CompareBefore(vals, asc, s[j - 1], i);
      forall p | 0 <= p < j
        ensures Before(vals, asc, s[p], i)
      {
        if p < j - 1 {
          BeforeStrictTotal(vals, asc, s[p], s[j - 1], i);
        }
      }
    }
  }

  lemma SwapMultiset(s: seq<nat>, j: nat)
    requires 0 < j < |s|
    ensures multiset(s[j - 1 := s[j]][j := s[j - 1]]) == multiset(s)
  {
  }

  /** `indices.sort(cmp)` on `indices == [0, 1, ..., n-1]`, as a stable
      insertion sort that swaps a position left while the comparator says the
      left neighbour is greater. */
  method SortIndices(vals: seq<Value>, asc: bool, a: array<nat>)
    requires Homogeneous(vals) && a[..] == Range(|vals|)
    modifies a
    ensures a[..] == StableOrder(vals, asc)
  {
    for i := 0 to a.Length
      invariant SortedPrefix(vals, asc, a[..], i)
      invariant multiset(a[..]) == multiset(Range(|vals|))
    {
      InsertAt(vals, asc, a, i);
    }
    assert Bounded(vals, a[..]);
    StableOrderSpec(vals, asc);
    SortedUnique(vals, asc, a[..], StableOrder(vals, asc));
  }

  /** Moves `a[i] == i` left into place among the sorted `a[..i]`. */
  method InsertAt(vals: seq<Value>, asc: bool, a: array<nat>, i: nat)
    requires Homogeneous(vals) && SortedPrefix(vals, asc, a[..], i) && i < a.Length
    modifies a
    ensures SortedPrefix(vals, asc, a[..], i + 1)
    ensures multiset(a[..]) == multiset(old(a[..]))
  {
    StartInserting(vals, asc, a[..], i);
    var j: nat := i;
    while j > 0 && Compare(vals[a[j - 1]], vals[a[j]], asc) > 0
      invariant Inserting(vals, asc, a[..], i, j)
      invariant multiset(a[..]) == multiset(old(a[..]))
    {
      SwapStep(vals, asc, a[..], i, j);
      SwapMultiset(a[..], j);
      a[j - 1], a[j] := a[j], a[j - 1];
      j := j - 1;
    }
    StopInserting(vals, asc, a[..], i, j);
  }

  // ----- sortValues -------------------------------------------------------------

  /** The records for the row positions `idx`, in that order. */
  function Rows(df: Table, columns: seq<string>, column: string, idx: seq<nat>): (r: seq<Record>)
    requires AllColumns(df, columns) && df.HasColumn(column)
    requires forall k :: 0 <= k < |idx| ==> idx[k] < df.length
    ensures |r| == |idx|
  {
    seq(|idx|, k requires 0 <= k < |idx| => RowAt(df, columns, column, idx[k]))
  }

  /** The table sortValues returns, as its list of records. */
  function SortedRows(df: Table, columns: seq<string>, column: string, asc: bool): seq<Record>
    requires AllColumns(df, columns) && df.HasColumn(column) && Homogeneous(df.Get(column))
  {
    var o := StableOrder(df.Get(column), asc);
    StableOrderSpec(df.Get(column), asc);
    assert forall k :: 0 <= k < |o| ==> o[k] in o;
    Rows(df, columns, column, o)
  }

  predicate SortUsable(df: Table, column: string, columnsRaw: ColumnsField)
  {
    && df.Valid() && df.HasColumn(column) && Homogeneous(df.Get(column))
    && ColumnsReadable(columnsRaw) && AllColumns(df, DeriveColumns(columnsRaw))
  }

  /** `sortValues(df, column, { ascending })`. */
  method SortValues(df: Table, column: string, ascending: Option<bool>, columnsRaw: ColumnsField)
    returns (outRows: seq<Record>)
    requires SortUsable(df, column, columnsRaw)
    ensures outRows == SortedRows(df, DeriveColumns(columnsRaw), column, IsAscending(ascending))
  {
    var asc := IsAscending(ascending);
    var columns := DeriveColumns(columnsRaw);
    var series := df.Get(column);
    var indices := new nat[df.length](i => i);
    assert indices[..] == Range(|series|);
    SortIndices(series, asc, indices);
    StableOrderSpec(series, asc);
    outRows := EmitRows(df, columns, column, indices);
  }

  /** The output loop: one record per sorted position, in order. */
  method EmitRows(df: Table, columns: seq<string>, column: string, indices: array<nat>)
    returns (outRows: seq<Record>)
    requires AllColumns(df, columns) && df.HasColumn(column)
    requires forall k :: 0 <= k < indices.Length ==> indices[k] < df.length
    ensures outRows == Rows(df, columns, column, indices[..])
  {
    outRows := [];
    for k := 0 to indices.Length
      invariant outRows == Rows(df, columns, column, indices[..k])
    {
      var row := EmitRow(df, columns, column, indices[k]);
      assert indices[..k + 1] == indices[..k] + [indices[k]];
      RowsAppend(df, columns, column, indices[..k], [indices[k]]);
      outRows := outRows + [row];
    }
    assert indices[..indices.Length] == indices[..];
  }

  /** The body of the output loop for row position `i`: copy the listed columns,
      then add the sort column when it is not already there. */
  method EmitRow(df: Table, columns: seq<string>, column: string, i: nat) returns (row: Record)
    requires AllColumns(df, columns) && df.HasColumn(column) && i < df.length
    ensures row == RowAt(df, columns, column, i)
  {
    row := Empty();
    for c := 0 to |columns|
      invariant row == ListedFields(df, columns[..c], i)
    {
      assert columns[..c + 1][..c] == columns[..c];
      row := Put(row, columns[c], df.Get(columns[c])[i]);
    }
    assert columns[..|columns|] == columns;
    if !(column in row.vals) {
      row := Put(row, column, df.Get(column)[i]);
    }
  }

  // ----- properties of the result -------------------------------------------

  lemma RowsAppend(df: Table, columns: seq<string>, column: string, u: seq<nat>, w: seq<nat>)
    requires AllColumns(df, columns) && df.HasColumn(column)
    requires forall k :: 0 <= k < |u| ==> u[k] < df.length
    requires forall k :: 0 <= k < |w| ==> w[k] < df.length
    ensures Rows(df, columns, column, u + w) == Rows(df, columns, column, u) + Rows(df, columns, column, w)
  {
  }

  lemma RemoveAt(w: seq<nat>, j: nat)
    requires j < |w|
    ensures multiset(w) == multiset([w[j]] + (w[..j] + w[j + 1..]))
  {
    assert w == w[..j] + [w[j]] + w[j + 1..];
  }

  /** `f` applied to each position of `u`, in order. */
  function Mapped<B>(f: nat -> B, u: seq<nat>): (r: seq<B>)
    ensures |r| == |u|
  {
    seq(|u|, k requires 0 <= k < |u| => f(u[k]))
  }

  /** Mapping two arrangements of the same positions gives the same multiset. */
  lemma {:induction false} MappedPermutation<B>(f: nat -> B, u: seq<nat>, w: seq<nat>)
    requires multiset(u) == multiset(w)
    ensures multiset(Mapped(f, u)) == multiset(Mapped(f, w))
    decreases |u|
  {
    if u == [] {
      assert |w| == |multiset(w)| == 0;
    } else {
      var x := u[0];
      assert x in multiset(w);
      var j :| 0 <= j < |w| && w[j] == x;
      var rest := w[..j] + w[j + 1..];
      RemoveAt(w, j);
      MultisetTails(u, [x] + rest);
      assert ([x] + rest)[1..] == rest;
      MappedPermutation(f, u[1..], rest);
      assert Mapped(f, u) == [f(x)] + Mapped(f, u[1..]);
      assert Mapped(f, w) == Mapped(f, w[..j]) + [f(x)] + Mapped(f, w[j + 1..]);
      assert Mapped(f, rest) == Mapped(f, w[..j]) + Mapped(f, w[j + 1..]);
    }
  }

  /** Records for two arrangements of the same positions are the same records,
      rearranged. */
  lemma RowsPermutation(df: Table, columns: seq<string>, column: string, u: seq<nat>, w: seq<nat>)
    requires AllColumns(df, columns) && df.HasColumn(column)
    requires forall k :: 0 <= k < |u| ==> u[k] < df.length
    requires forall k :: 0 <= k < |w| ==> w[k] < df.length
    requires multiset(u) == multiset(w)
    ensures multiset(Rows(df, columns, column, u)) == multiset(Rows(df, columns, column, w))
  {
    var f := (i: nat) => if i < df.length then RowAt(df, columns, column, i) else Empty();
    MappedPermutation(f, u, w);
    assert Rows(df, columns, column, u) == Mapped(f, u);
    assert Rows(df, columns, column, w) == Mapped(f, w);
  }

  /** sortValues returns as many records as the table has rows, the records of
      all rows rearranged, each holding the sort column, the comparator accepting
      every pair in output order, and `===` values in original row order. */
  lemma SortedRowsSpec(df: Table, columns: seq<string>, column: string, asc: bool)
    requires AllColumns(df, columns) && df.HasColumn(column) && Homogeneous(df.Get(column))
    ensures |SortedRows(df, columns, column, asc)| == df.length
    ensures multiset(SortedRows(df, columns, column, asc)) == multiset(Rows(df, columns, column, Range(df.length)))
    ensures forall k :: 0 <= k < df.length ==> column in SortedRows(df, columns, column, asc)[k].vals
    ensures forall p, q :: 0 <= p < q < df.length ==>
      Compare(SortedRows(df, columns, column, asc)[p].vals[column], SortedRows(df, columns, column, asc)[q].vals[column], asc) <= 0
    ensures forall p, q ::
      0 <= p < q < df.length &&
      SortedRows(df, columns, column, asc)[p].vals[column] == SortedRows(df, columns, column, asc)[q].vals[column]
      ==> StableOrder(df.Get(column), asc)[p] < StableOrder(df.Get(column), asc)[q]
  {
    var vals := df.Get(column);
    var o := StableOrder(vals, asc);
    var rows := SortedRows(df, columns, column, asc);
    StableOrderSpec(vals, asc);
    SortedMeaning(vals, asc, o);
    assert forall k :: 0 <= k < |o| ==> o[k] in o;
    forall k | 0 <= k < |o|
      ensures column in rows[k].vals && rows[k].vals[column] == vals[o[k]]
    {
      RowAtSpec(df, columns, column, o[k]);
    }
    RowsPermutation(df, columns, column, o, Range(df.length));
  }
}
