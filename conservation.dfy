// Conservation across groupBy: the per-bucket sums of a column add up to the
// column's total, and the per-bucket counts add up to the number of rows.

module Conservation {
  import opened Values
  import opened Tables
  import opened Bucketing
  import opened Aggregation

  lemma IndicesBounded(ks: seq<string>, k: string)
    ensures forall j :: 0 <= j < |IndicesOf(ks, k)| ==> IndicesOf(ks, k)[j] < |ks|
  {
    IndicesOfSpec(ks, k);
    forall j | 0 <= j < |IndicesOf(ks, k)|
      ensures IndicesOf(ks, k)[j] < |ks|
    {
      assert IndicesOf(ks, k)[j] in IndicesOf(ks, k);
    }
  }

  /** The sum over the keys of `order` of the total of `col` at that key's rows of `ks`. */
  function BucketTotal(col: seq<Value>, ks: seq<string>, order: seq<string>): real
    requires AllNum(col) && |ks| <= |col|
  {
    if order == [] then 0.0
    else
      var n := |order| - 1;
      IndicesBounded(ks, order[n]);
      BucketTotal(col, ks, order[..n]) + Total(Picked(col, IndicesOf(ks, order[n])))
  }

  /** The entries of a numeric column of records, added up in order. */
  function ColumnSum(rows: seq<Record>, c: string): real
    requires forall p :: 0 <= p < |rows| ==> c in rows[p].vals && rows[p].vals[c].Num?
  {
    if rows == [] then 0.0
    else
      var n := |rows| - 1;
      ColumnSum(rows[..n], c) + rows[n].vals[c].x
  }

  lemma TotalSnoc(col: seq<Value>, idxs: seq<nat>, i: nat)
    requires AllNum(col) && i < |col|
    requires forall j :: 0 <= j < |idxs| ==> idxs[j] < |col|
    ensures Total(Picked(col, idxs + [i])) == Total(Picked(col, idxs)) + col[i].x
  {
    assert Picked(col, idxs + [i]) == Picked(col, idxs) + [col[i]];
    assert (Picked(col, idxs) + [col[i]])[..|idxs|] == Picked(col, idxs);
  }

  /** One more row with key `x`: only the term of `x` grows, by the row's cell. */
  lemma {:induction false} BucketTotalBump(col: seq<Value>, ks: seq<string>, x: string, order: seq<string>)
    requires AllNum(col) && |ks| < |col|
    requires forall p, q :: 0 <= p < q < |order| ==> order[p] != order[q]
    ensures BucketTotal(col, ks + [x], order) ==
      BucketTotal(col, ks, order) + (if x in order then col[|ks|].x else 0.0)
  {
    if order != [] {
      var n := |order| - 1;
      var k := order[n];
      BucketTotalBump(col, ks, x, order[..n]);
      var s' := ks + [x];
      assert s'[..|ks|] == ks;
      assert IndicesOf(s', k) == IndicesOf(ks, k) + (if x == k then [|ks|] else []);
      IndicesBounded(ks, k);
      assert BucketTotal(col, s', order) == BucketTotal(col, s', order[..n]) + Total(Picked(col, IndicesOf(s', k)));
      assert BucketTotal(col, ks, order) == BucketTotal(col, ks, order[..n]) + Total(Picked(col, IndicesOf(ks, k)));
      assert x in order <==> x in order[..n] || x == k;
      if x == k {
        TotalSnoc(col, IndicesOf(ks, k), |ks|);
        assert x !in order[..n];
      } else {
        assert IndicesOf(s', k) == IndicesOf(ks, k);
      }
    }
  }

  /** A key outside `order` does not change the sum over `order`. */
  lemma {:induction false} BucketTotalOther(col: seq<Value>, ks: seq<string>, x: string, order: seq<string>)
    requires AllNum(col) && |ks| < |col| && x !in order
    ensures BucketTotal(col, ks + [x], order) == BucketTotal(col, ks, order)
  {
    if order != [] {
      var n := |order| - 1;
      var k := order[n];
      BucketTotalOther(col, ks, x, order[..n]);
      var s' := ks + [x];
      assert s'[..|ks|] == ks;
      assert IndicesOf(s', k) == IndicesOf(ks, k);
    }
  }

  /** Over the buckets in first-seen order, the bucket totals add up to the total
      of the column over all rows. */
  lemma {:induction false} BucketTotalsConserve(col: seq<Value>, ks: seq<string>)
    requires AllNum(col) && |ks| <= |col|
    ensures BucketTotal(col, ks, FirstSeen(ks)) == Total(col[..|ks|])
  {
    if ks != [] {
      var n := |ks| - 1;
      var pre := ks[..n];
      var x := ks[n];
      assert ks == pre + [x];
      BucketTotalsConserve(col, pre);
      assert col[..|ks|][..n] == col[..n];
      assert Total(col[..|ks|]) == Total(col[..n]) + col[n].x;
      ConserveStep(col, pre, x);
    }
  }

  /** One more row adds its cell to the sum over the buckets. */
  lemma ConserveStep(col: seq<Value>, pre: seq<string>, x: string)
    requires AllNum(col) && |pre| < |col|
    ensures BucketTotal(col, pre + [x], FirstSeen(pre + [x])) ==
      BucketTotal(col, pre, FirstSeen(pre)) + col[|pre|].x
  {
    var ks := pre + [x];
    var n := |pre|;
    assert ks[..n] == pre;
    FirstSeenSpec(pre);
    if x in pre {
      assert FirstSeen(ks) == FirstSeen(pre);
      BucketTotalBump(col, pre, x, FirstSeen(pre));
    } else {
      var order := FirstSeen(ks);
      assert order == FirstSeen(pre) + [x];
      assert order[..|order| - 1] == FirstSeen(pre);
      BucketTotalOther(col, pre, x, FirstSeen(pre));
      assert IndicesOf(ks, x) == IndicesOf(pre, x) + [n];
      IndicesOfNonEmpty(pre, x);
      IndicesBounded(ks, x);
      TotalSnoc(col, [], n);
      assert BucketTotal(col, ks, order) == BucketTotal(col, ks, FirstSeen(pre)) + Total(Picked(col, [n]));
    }
  }

  /** Rows whose `c` entries are the bucket totals, in bucket order, add up to
      the sum of the bucket totals. */
  lemma {:induction false} RowSumsAreBucketTotals(rows: seq<Record>, c: string, col: seq<Value>, ks: seq<string>, order: seq<string>)
    requires AllNum(col) && |ks| <= |col| && |rows| == |order|
    requires forall p :: 0 <= p < |rows| ==> c in rows[p].vals
    requires forall p :: 0 <= p < |rows| ==>
      IndicesBoundedBy(ks, order[p], |col|) &&
      rows[p].vals[c] == Num(Total(Picked(col, IndicesOf(ks, order[p]))))
    ensures ColumnSum(rows, c) == BucketTotal(col, ks, order)
  {
    if rows != [] {
      var n := |rows| - 1;
      RowSumsAreBucketTotals(rows[..n], c, col, ks, order[..n]);
    }
  }

  predicate IndicesBoundedBy(ks: seq<string>, k: string, len: nat)
  {
    forall j :: 0 <= j < |IndicesOf(ks, k)| ==> IndicesOf(ks, k)[j] < len
  }

  /** `sum` conserves the column: the `c` entries of the output rows add up to
      the sum of the whole column. */
  lemma SumConserved(df: Table, keys: seq<string>, agg: AggSpec, c: string)
    requires KeysUsable(df, keys) && SpecUsable(df, agg)
    requires c in agg.vals && agg.vals[c] == SumOp
    ensures BucketsFit(df, keys, BucketsOf(RowKeys(df, keys)))
    ensures forall p :: 0 <= p < |Materialize(df, keys, BucketsOf(RowKeys(df, keys)), agg)| ==>
      c in Materialize(df, keys, BucketsOf(RowKeys(df, keys)), agg)[p].vals &&
      Materialize(df, keys, BucketsOf(RowKeys(df, keys)), agg)[p].vals[c].Num?
    ensures Numeric(df, c)
    ensures ColumnSum(Materialize(df, keys, BucketsOf(RowKeys(df, keys)), agg), c) == Total(df.Get(c))
  {
    var ks := RowKeys(df, keys);
    var b := BucketsOf(ks);
    BucketsOfFit(df, keys);
    var rows := Materialize(df, keys, b, agg);
    var col := df.Get(c);
    MaterializeAggregates(df, keys, b, agg);
    forall p | 0 <= p < |rows|
      ensures IndicesBoundedBy(ks, b.order[p], |col|)
      ensures rows[p].vals[c] == Num(Total(Picked(col, IndicesOf(ks, b.order[p]))))
    {
      assert b.order[p] in b.order;
      IndicesBounded(ks, b.order[p]);
    }
    RowSumsAreBucketTotals(rows, c, col, ks, b.order);
    BucketTotalsConserve(col, ks);
    assert df.Get(c)[..|ks|] == df.Get(c);
  }

  lemma {:induction false} TotalOfOnes(vs: seq<Value>)
    requires forall j :: 0 <= j < |vs| ==> vs[j] == Num(1.0)
    ensures Total(vs) == |vs| as real
  {
    if vs != [] {
      TotalOfOnes(vs[..|vs| - 1]);
    }
  }

  /** Ones picked at any rows add up to the number of rows picked. */
  lemma PickedOnes(ones: seq<Value>, idxs: seq<nat>)
    requires forall i :: 0 <= i < |ones| ==> ones[i] == Num(1.0)
    requires forall j :: 0 <= j < |idxs| ==> idxs[j] < |ones|
    ensures Total(Picked(ones, idxs)) == |idxs| as real
  {
    var vs := Picked(ones, idxs);
    assert forall j :: 0 <= j < |vs| ==> vs[j] == ones[idxs[j]];
    TotalOfOnes(vs);
  }

  /** Each output row's count is the bucket's total of a column of ones. */
  lemma CountsAsTotals(df: Table, keys: seq<string>, agg: AggSpec, c: string, ones: seq<Value>)
    requires KeysUsable(df, keys) && SpecUsable(df, agg)
    requires c in agg.vals && agg.vals[c] == CountOp
    requires BucketsFit(df, keys, BucketsOf(RowKeys(df, keys)))
    requires |ones| == df.length && forall i :: 0 <= i < |ones| ==> ones[i] == Num(1.0)
    ensures forall p :: 0 <= p < |Materialize(df, keys, BucketsOf(RowKeys(df, keys)), agg)| ==>
      && p < |BucketsOf(RowKeys(df, keys)).order|
      && c in Materialize(df, keys, BucketsOf(RowKeys(df, keys)), agg)[p].vals
      && IndicesBoundedBy(RowKeys(df, keys), BucketsOf(RowKeys(df, keys)).order[p], |ones|)
      && Materialize(df, keys, BucketsOf(RowKeys(df, keys)), agg)[p].vals[c] ==
         Num(Total(Picked(ones, IndicesOf(RowKeys(df, keys), BucketsOf(RowKeys(df, keys)).order[p]))))
  {
    var ks := RowKeys(df, keys);
    var b := BucketsOf(ks);
    var rows := Materialize(df, keys, b, agg);
    MaterializeAggregates(df, keys, b, agg);
    forall p | 0 <= p < |rows|
      ensures IndicesBoundedBy(ks, b.order[p], |ones|)
      ensures rows[p].vals[c] == Num(Total(Picked(ones, IndicesOf(ks, b.order[p]))))
    {
      var k := b.order[p];
      assert k in b.order;
      assert b.index[k] == IndicesOf(ks, k);
      IndicesBounded(ks, k);
      PickedOnes(ones, IndicesOf(ks, k));
    }
  }

  /** `count` conserves the rows: the counts of the output rows add up to the
      number of rows of the table. */
  lemma CountConserved(df: Table, keys: seq<string>, agg: AggSpec, c: string)
    requires KeysUsable(df, keys) && SpecUsable(df, agg)
    requires c in agg.vals && agg.vals[c] == CountOp
    ensures BucketsFit(df, keys, BucketsOf(RowKeys(df, keys)))
    ensures forall p :: 0 <= p < |Materialize(df, keys, BucketsOf(RowKeys(df, keys)), agg)| ==>
      c in Materialize(df, keys, BucketsOf(RowKeys(df, keys)), agg)[p].vals &&
      Materialize(df, keys, BucketsOf(RowKeys(df, keys)), agg)[p].vals[c].Num?
    ensures ColumnSum(Materialize(df, keys, BucketsOf(RowKeys(df, keys)), agg), c) == df.length as real
  {
    var ks := RowKeys(df, keys);
    var b := BucketsOf(ks);
    BucketsOfFit(df, keys);
    var rows := Materialize(df, keys, b, agg);
    var ones := seq(|ks|, i => Num(1.0));
    CountsAsTotals(df, keys, agg, c, ones);
    MaterializeAggregates(df, keys, b, agg);
    RowSumsAreBucketTotals(rows, c, ones, ks, b.order);
    BucketTotalsConserve(ones, ks);
    assert ones[..|ks|] == ones;
    TotalOfOnes(ones);
  }
}
