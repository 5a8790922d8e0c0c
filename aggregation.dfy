// materializeGrouped and the GroupedDataFrame wrappers: one output record per
// bucket, in bucket order, holding the key columns rebuilt from the bucket key
// and one aggregated value per entry of the aggregation specification.

module Aggregation {
  import opened Text
  import opened Values
  import opened Tables
  import opened Objects
  import opened Bucketing

  /** The operations of an aggregation specification. */
  datatype AggOp = SumOp | MeanOp | CountOp

  /** `AggSpec`: output column name to operation, in insertion order. */
  type AggSpec = Obj<AggOp>

  /** Every cell is a number. */
  predicate AllNum(vs: seq<Value>)
  {
    forall j :: 0 <= j < |vs| ==> vs[j].Num?
  }

  /** `Series.sum()` on numbers: their exact sum. */
  function Total(vs: seq<Value>): (r: real)
    requires AllNum(vs)
    ensures (forall j :: 0 <= j < |vs| ==> vs[j].x >= 0.0) ==> r >= 0.0
  {
    if vs == [] then 0.0 else Total(vs[..|vs| - 1]) + vs[|vs| - 1].x
  }

  /** The sum of a concatenation is the sum of the sums. */
  lemma {:induction false} TotalAppend(a: seq<Value>, b: seq<Value>)
    requires AllNum(a) && AllNum(b)
    ensures Total(a + b) == Total(a) + Total(b)
  {
    if b != [] {
      var n := |b| - 1;
      TotalAppend(a, b[..n]);
      assert (a + b)[..|a + b| - 1] == a + b[..n];
    } else {
      assert a + b == a;
    }
  }

  /** The cells of `col` at the bucket's rows: `idxs.map((i) => col.iloc(i))`. */
  function Picked(col: seq<Value>, idxs: seq<nat>): (r: seq<Value>)
    requires forall j :: 0 <= j < |idxs| ==> idxs[j] < |col|
    ensures |r| == |idxs|
    ensures AllNum(col) ==> AllNum(r)
  {
    seq(|idxs|, j requires 0 <= j < |idxs| => col[idxs[j]])
  }

  /** One picked cell per index, read at that index. */
  lemma PickedSpec(col: seq<Value>, idxs: seq<nat>)
    requires forall j :: 0 <= j < |idxs| ==> idxs[j] < |col|
    ensures forall j :: 0 <= j < |idxs| ==> Picked(col, idxs)[j] == col[idxs[j]]
  {
  }

  /** `col` is a column of numbers. */
  predicate Numeric(df: Table, col: string)
    requires df.Valid()
  {
    df.HasColumn(col) && AllNum(df.Get(col))
  }

  /** Every sum and mean target of the specification is a numeric column. */
  predicate SpecUsable(df: Table, agg: AggSpec)
    requires df.Valid()
  {
    Valid(agg) && forall c :: c in agg.vals && agg.vals[c] != CountOp ==> Numeric(df, c)
  }

  /** A bucket's rows: a non-empty list of row positions of `df`. */
  predicate RowList(df: Table, idxs: seq<nat>)
  {
    |idxs| > 0 && forall j :: 0 <= j < |idxs| ==> idxs[j] < df.length
  }

  /** What one specification entry puts in a bucket's output row:
      sum of the cells, their mean, or the bucket size. */
  function AggValue(df: Table, col: string, op: AggOp, idxs: seq<nat>): (r: Value)
    requires df.Valid() && RowList(df, idxs)
    requires op != CountOp ==> Numeric(df, col)
    ensures r.Num?
    ensures op == CountOp ==> r.x == |idxs| as real
    ensures op == SumOp ==> r.x == Total(Picked(df.Get(col), idxs))
  {
    match op
    case CountOp => Num(|idxs| as real)
    case SumOp => Num(Total(Picked(df.Get(col), idxs)))
    case MeanOp => Num(Total(Picked(df.Get(col), idxs)) / (|idxs| as real))
  }

  /** A mean times the bucket size is the bucket's total. */
  lemma AggValueMean(df: Table, col: string, idxs: seq<nat>)
    requires df.Valid() && RowList(df, idxs) && Numeric(df, col)
    ensures AggValue(df, col, MeanOp, idxs).x * (|idxs| as real) == Total(Picked(df.Get(col), idxs))
  {
  }

  /** `keys.forEach((k, i) => { row[k] = parts[i] })` on an empty row. */
  function KeyFields(keys: seq<string>, parts: seq<string>): Record
    requires |parts| >= |keys|
  {
    if keys == [] then Empty()
    else
      var n := |keys| - 1;
      Put(KeyFields(keys[..n], parts), keys[n], Str(parts[n]))
  }

  /** The aggregation loop over the entries `cols` of `agg`, starting from `row`. */
  function AggFields(row: Record, df: Table, agg: AggSpec, cols: seq<string>, idxs: seq<nat>): Record
    requires df.Valid() && RowList(df, idxs) && SpecUsable(df, agg)
    requires forall j :: 0 <= j < |cols| ==> cols[j] in agg.vals
  {
    if cols == [] then row
    else
      var n := |cols| - 1;
      Put(AggFields(row, df, agg, cols[..n], idxs), cols[n], AggValue(df, cols[n], agg.vals[cols[n]], idxs))
  }

  /** The buckets can be materialized: every listed key has a non-empty list of
      rows of `df`, and its key splits into at least one piece per key column. */
  predicate BucketsFit(df: Table, keys: seq<string>, b: Buckets)
  {
    forall k :: k in b.order ==>
      k in b.index && RowList(df, b.index[k]) && |Split(k, KeySep)| >= |keys|
  }

  /** The output row of the `p`-th bucket. */
  function OutRow(df: Table, keys: seq<string>, b: Buckets, agg: AggSpec, p: nat): Record
    requires df.Valid() && BucketsFit(df, keys, b) && SpecUsable(df, agg)
    requires p < |b.order|
  {
    var k := b.order[p];
    assert k in b.order;
    AggFields(KeyFields(keys, Split(k, KeySep)), df, agg, agg.keys, b.index[k])
  }

  /** The records `materializeGrouped` produces: one per bucket, in bucket order. */
  function Materialize(df: Table, keys: seq<string>, b: Buckets, agg: AggSpec): (rows: seq<Record>)
    requires df.Valid() && BucketsFit(df, keys, b) && SpecUsable(df, agg)
  {
    seq(|b.order|, p requires 0 <= p < |b.order| => OutRow(df, keys, b, agg, p))
  }

  /** `materializeGrouped(df, keys, buckets, agg)`, up to the pandas-js
      DataFrame construction from the records. */
  method MaterializeGrouped(df: Table, keys: seq<string>, b: Buckets, agg: AggSpec)
    returns (outRows: seq<Record>)
    requires df.Valid() && BucketsFit(df, keys, b) && SpecUsable(df, agg)
    ensures outRows == Materialize(df, keys, b, agg)
  {
    outRows := [];
    for p := 0 to |b.order|
      invariant |outRows| == p
      invariant forall q :: 0 <= q < p ==> outRows[q] == OutRow(df, keys, b, agg, q)
    {
      var keyStr := b.order[p];
      assert keyStr in b.order;
      var row := BucketRow(df, keys, keyStr, b.index[keyStr], agg);
      outRows := outRows + [row];
    }
  }

  /** The body of the loop over buckets: the record of one bucket. */
  method BucketRow(df: Table, keys: seq<string>, keyStr: string, idxs: seq<nat>, agg: AggSpec)
    returns (row: Record)
    requires df.Valid() && RowList(df, idxs) && SpecUsable(df, agg)
    requires |Split(keyStr, KeySep)| >= |keys|
    ensures row == AggFields(KeyFields(keys, Split(keyStr, KeySep)), df, agg, agg.keys, idxs)
  {
    var parts := Split(keyStr, KeySep);
    row := KeyRow(keys, parts);
    row := AggRow(row, df, agg, idxs);
  }

  /** `keys.forEach((k, i) => { row[k] = parts[i] })` on a fresh row. */
  method KeyRow(keys: seq<string>, parts: seq<string>) returns (row: Record)
    requires |parts| >= |keys|
    ensures row == KeyFields(keys, parts)
  {
    row := Empty();
    for j := 0 to |keys|
      invariant row == KeyFields(keys[..j], parts)
    {
      assert keys[..j + 1][..j] == keys[..j];
      row := Put(row, keys[j], Str(parts[j]));
    }
    assert keys[..|keys|] == keys;
  }

  /** The loop over `Object.entries(agg)` that adds one aggregate per entry. */
  method AggRow(row0: Record, df: Table, agg: AggSpec, idxs: seq<nat>) returns (row: Record)
    requires df.Valid() && RowList(df, idxs) && SpecUsable(df, agg)
    ensures row == AggFields(row0, df, agg, agg.keys, idxs)
  {
    row := row0;
    for e := 0 to |agg.keys|
      invariant row == AggFields(row0, df, agg, agg.keys[..e], idxs)
    {
      assert agg.keys[..e + 1][..e] == agg.keys[..e];
      var col := agg.keys[e];
      // the ternary `op === 'sum' ? s.sum() : op === 'mean' ? s.mean() : idxs.length`
      var v := AggValue(df, col, agg.vals[col], idxs);
      row := Put(row, col, v);
    }
    assert agg.keys[..|agg.keys|] == agg.keys;
  }

  /** The rebuilt key fields hold exactly the key columns, each reading back
      its piece of the split key, provided a repeated key column is given the
      same piece each time. */
  lemma {:induction false} KeyFieldsSpec(keys: seq<string>, parts: seq<string>)
    requires |parts| >= |keys|
    requires forall j, j' :: 0 <= j < |keys| && 0 <= j' < |keys| && keys[j] == keys[j'] ==> parts[j] == parts[j']
    ensures Valid(KeyFields(keys, parts))
    ensures forall k :: k in KeyFields(keys, parts).vals <==> k in keys
    ensures forall j :: 0 <= j < |keys| ==> KeyFields(keys, parts).vals[keys[j]] == Str(parts[j])
  {
    if keys != [] {
      var n := |keys| - 1;
      var pre := keys[..n];
      KeyFieldsSpec(pre, parts);
      var o := KeyFields(pre, parts);
      var o' := Put(o, keys[n], Str(parts[n]));
      assert KeyFields(keys, parts) == o';
      PutSpec(o, keys[n], Str(parts[n]));
      assert keys == pre + [keys[n]];
      forall j | 0 <= j < |keys|
        ensures o'.vals[keys[j]] == Str(parts[j])
      {
        if j < n && keys[j] != keys[n] {
          assert pre[j] == keys[j];
        }
      }
    }
  }

  /** The aggregation loop keeps the row well formed and adds exactly the visited columns. */
  lemma {:induction false} AggFieldsDomain(row: Record, df: Table, agg: AggSpec, cols: seq<string>, idxs: seq<nat>)
    requires df.Valid() && RowList(df, idxs) && SpecUsable(df, agg) && Valid(row)
    requires forall j :: 0 <= j < |cols| ==> cols[j] in agg.vals
    ensures Valid(AggFields(row, df, agg, cols, idxs))
    ensures forall k :: k in AggFields(row, df, agg, cols, idxs).vals <==> k in row.vals || k in cols
  {
    if cols != [] {
      var n := |cols| - 1;
      var pre := cols[..n];
      AggFieldsDomain(row, df, agg, pre, idxs);
      var before := AggFields(row, df, agg, pre, idxs);
      var v := AggValue(df, cols[n], agg.vals[cols[n]], idxs);
      assert AggFields(row, df, agg, cols, idxs) == Put(before, cols[n], v);
      PutSpec(before, cols[n], v);
      assert cols == pre + [cols[n]];
    }
  }

  /** After the aggregation loop, each visited column holds its aggregated value
      and every other property of the starting row is unchanged. */
  lemma {:induction false} AggFieldsValues(row: Record, df: Table, agg: AggSpec, cols: seq<string>, idxs: seq<nat>)
    requires df.Valid() && RowList(df, idxs) && SpecUsable(df, agg)
    requires forall j :: 0 <= j < |cols| ==> cols[j] in agg.vals
    ensures forall j :: 0 <= j < |cols| ==>
              cols[j] in AggFields(row, df, agg, cols, idxs).vals &&
              AggFields(row, df, agg, cols, idxs).vals[cols[j]] == AggValue(df, cols[j], agg.vals[cols[j]], idxs)
    ensures forall k :: k in row.vals && k !in cols ==>
              k in AggFields(row, df, agg, cols, idxs).vals &&
              AggFields(row, df, agg, cols, idxs).vals[k] == row.vals[k]
  {
    if cols != [] {
      var n := |cols| - 1;
      var pre := cols[..n];
      AggFieldsValues(row, df, agg, pre, idxs);
      assert forall k :: k in cols <==> k in pre || k == cols[n];
      forall j | 0 <= j < n ensures pre[j] == cols[j] { }
    }
  }

  /** One output row per bucket, in bucket order; each row holds every
      specification column with its aggregated value over the bucket's rows. */
  lemma MaterializeAggregates(df: Table, keys: seq<string>, b: Buckets, agg: AggSpec)
    requires df.Valid() && BucketsFit(df, keys, b) && SpecUsable(df, agg)
    ensures |Materialize(df, keys, b, agg)| == |b.order|
    ensures forall p, c :: 0 <= p < |b.order| && c in agg.vals ==>
              b.order[p] in b.index && RowList(df, b.index[b.order[p]]) &&
              c in Materialize(df, keys, b, agg)[p].vals &&
              Materialize(df, keys, b, agg)[p].vals[c] == AggValue(df, c, agg.vals[c], b.index[b.order[p]])
  {
    var rows := Materialize(df, keys, b, agg);
    forall p, c | 0 <= p < |b.order| && c in agg.vals
      ensures b.order[p] in b.index && RowList(df, b.index[b.order[p]])
      ensures c in rows[p].vals && rows[p].vals[c] == AggValue(df, c, agg.vals[c], b.index[b.order[p]])
    {
      var k := b.order[p];
      assert k in b.order;
      var parts := Split(k, KeySep);
      AggFieldsValues(KeyFields(keys, parts), df, agg, agg.keys, b.index[k]);
      var j :| 0 <= j < |agg.keys| && agg.keys[j] == c;
    }
  }

  /** The rebuilt key fields always form a well-formed object. */
  lemma {:induction false} KeyFieldsValid(keys: seq<string>, parts: seq<string>)
    requires |parts| >= |keys|
    ensures Valid(KeyFields(keys, parts))
  {
    if keys != [] {
      KeyFieldsValid(keys[..|keys| - 1], parts);
      PutSpec(KeyFields(keys[..|keys| - 1], parts), keys[|keys| - 1], Str(parts[|keys| - 1]));
    }
  }

  /** For the buckets of `df` itself and key cells free of the separator, each
      output row's key columns that are not also aggregated hold the string form
      of the key cells shared by every row of the bucket. */
  lemma MaterializeKeys(df: Table, keys: seq<string>, agg: AggSpec, p: nat, j: nat, i: nat)
    requires KeysUsable(df, keys) && SeparatorFree(df, keys) && SpecUsable(df, agg)
    requires BucketsFit(df, keys, BucketsOf(RowKeys(df, keys)))
    requires p < |BucketsOf(RowKeys(df, keys)).order| && j < |keys| && keys[j] !in agg.vals
    requires i in BucketsOf(RowKeys(df, keys)).index[BucketsOf(RowKeys(df, keys)).order[p]]
    ensures i < df.length
    ensures keys[j] in Materialize(df, keys, BucketsOf(RowKeys(df, keys)), agg)[p].vals
    ensures Materialize(df, keys, BucketsOf(RowKeys(df, keys)), agg)[p].vals[keys[j]]
              == Str(ToText(df.Get(keys[j])[i]))
  {
    var b := BucketsOf(RowKeys(df, keys));
    var k := b.order[p];
    assert k in b.order;
    KeyFieldsOfBucket(df, keys, k, i, j);
    var kf := KeyFields(keys, Split(k, KeySep));
    assert keys[j] !in agg.keys;
    var row := AggFields(kf, df, agg, agg.keys, b.index[k]);
    assert Materialize(df, keys, b, agg)[p] == row;
    AggFieldsValues(kf, df, agg, agg.keys, b.index[k]);
  }

  /** For a row of bucket `k`, the rebuilt key field of key column `j` is the
      string form of that row's key cell. */
  lemma KeyFieldsOfBucket(df: Table, keys: seq<string>, k: string, i: nat, j: nat)
    requires KeysUsable(df, keys) && SeparatorFree(df, keys) && j < |keys|
    requires k in BucketsOf(RowKeys(df, keys)).index && i in BucketsOf(RowKeys(df, keys)).index[k]
    ensures i < df.length && |Split(k, KeySep)| >= |keys|
    ensures keys[j] in KeyFields(keys, Split(k, KeySep)).vals
    ensures KeyFields(keys, Split(k, KeySep)).vals[keys[j]] == Str(ToText(df.Get(keys[j])[i]))
  {
    KeyRoundTrip(df, keys, k, i);
    KeyFieldsSpec(keys, Split(k, KeySep));
  }

  /** The buckets `buildBuckets` produces can always be materialized. */
  lemma BucketsOfFit(df: Table, keys: seq<string>)
    requires KeysUsable(df, keys)
    ensures BucketsFit(df, keys, BucketsOf(RowKeys(df, keys)))
  {
    var ks := RowKeys(df, keys);
    var b := BucketsOf(ks);
    FirstSeenSpec(ks);
    forall k | k in b.order ensures k in b.index && RowList(df, b.index[k]) && |Split(k, KeySep)| >= |keys| {
      assert k in ks;
      IndicesOfSpec(ks, k);
      IndicesOfNonEmpty(ks, k);
      var idxs := b.index[k];
      forall j | 0 <= j < |idxs| ensures idxs[j] < df.length {
        assert idxs[j] in idxs;
      }
      assert idxs[0] in idxs;
      KeyRoundTrip(df, keys, k, idxs[0]);
    }
  }

  /** The specification `sum(cols)` / `mean(cols)` builds: `agg[c] = op` for each listed column. */
  function SameOp(cols: seq<string>, op: AggOp): AggSpec
  {
    if cols == [] then Empty()
    else
      var n := |cols| - 1;
      Put(SameOp(cols[..n], op), cols[n], op)
  }

  /** `sum(cols)` and `mean(cols)` map every listed column, once and in
      first-listed order, to the same operation. */
  lemma {:induction false} SameOpSpec(cols: seq<string>, op: AggOp)
    ensures Valid(SameOp(cols, op))
    ensures SameOp(cols, op).keys == FirstSeen(cols)
    ensures forall c :: c in SameOp(cols, op).vals <==> c in cols
    ensures forall c :: c in SameOp(cols, op).vals ==> SameOp(cols, op).vals[c] == op
  {
    if cols != [] {
      var n := |cols| - 1;
      SameOpSpec(cols[..n], op);
      FirstSeenSpec(cols[..n]);
      PutSpec(SameOp(cols[..n], op), cols[n], op);
      assert forall c :: c in cols <==> c in cols[..n] || c == cols[n];
    }
  }

  /** `GroupedDataFrame`: the source table, the key columns and the buckets,
      all fixed at construction. */
  class GroupedDataFrame {
    const df: Table
    const keys: seq<string>
    const buckets: Buckets

    ghost predicate Valid()
    {
      KeysUsable(df, keys) && buckets == BucketsOf(RowKeys(df, keys))
    }

    constructor (df: Table, sel: KeySelector)
      requires KeysUsable(df, EnsureArray(sel))
      ensures Valid() && this.df == df && keys == EnsureArray(sel)
    {
      var ks := EnsureArray(sel);
      var b := BuildBuckets(df, ks);
      this.df := df;
      this.keys := ks;
      this.buckets := b;
    }

    /** `sum(cols)`: each listed column summed per bucket. */
    method Sum(cols: KeySelector) returns (outRows: seq<Record>)
      requires Valid()
      requires forall c :: c in EnsureArray(cols) ==> Numeric(df, c)
      ensures SameOpUsable(df, EnsureArray(cols), SumOp) && BucketsFit(df, keys, buckets)
      ensures outRows == Materialize(df, keys, buckets, SameOp(EnsureArray(cols), SumOp))
    {
      var agg := SumOrMeanSpec(df, EnsureArray(cols), SumOp);
      BucketsOfFit(df, keys);
      outRows := MaterializeGrouped(df, keys, buckets, agg);
    }

    /** `mean(cols)`: each listed column averaged per bucket. */
    method Mean(cols: KeySelector) returns (outRows: seq<Record>)
      requires Valid()
      requires forall c :: c in EnsureArray(cols) ==> Numeric(df, c)
      ensures SameOpUsable(df, EnsureArray(cols), MeanOp) && BucketsFit(df, keys, buckets)
      ensures outRows == Materialize(df, keys, buckets, SameOp(EnsureArray(cols), MeanOp))
    {
      var agg := SumOrMeanSpec(df, EnsureArray(cols), MeanOp);
      BucketsOfFit(df, keys);
      outRows := MaterializeGrouped(df, keys, buckets, agg);
    }

    /** `count(colName = 'count')`: the size of each bucket. */
    method Count(colName: Option<string>) returns (outRows: seq<Record>)
      requires Valid()
      ensures df.Valid() && BucketsFit(df, keys, buckets)
      ensures outRows == Materialize(df, keys, buckets, CountSpec(colName))
    {
      BucketsOfFit(df, keys);
      outRows := MaterializeGrouped(df, keys, buckets, CountSpec(colName));
    }

    /** `agg(spec)`. */
    method Agg(spec: AggSpec) returns (outRows: seq<Record>)
      requires Valid()
      requires df.Valid() && SpecUsable(df, spec)
      ensures BucketsFit(df, keys, buckets)
      ensures outRows == Materialize(df, keys, buckets, spec)
    {
      BucketsOfFit(df, keys);
      outRows := MaterializeGrouped(df, keys, buckets, spec);
    }
  }

  /** The specification `count(colName)` builds: `{ [colName]: 'count' }`,
      the name defaulting to `'count'`. */
  function CountSpec(colName: Option<string>): (agg: AggSpec)
    ensures Valid(agg) && |agg.keys| == 1 && agg.keys[0] in agg.vals && agg.vals[agg.keys[0]] == CountOp
    ensures agg.keys[0] == if colName.Some? then colName.value else "count"
  {
    var name := if colName.Some? then colName.value else "count";
    Obj([name], map[name := CountOp])
  }

  /** The specification `sum(cols)` / `mean(cols)` can be evaluated on `df`. */
  predicate SameOpUsable(df: Table, cols: seq<string>, op: AggOp)
  {
    df.Valid() && SpecUsable(df, SameOp(cols, op))
  }

  /** The loop `for (const c of cols) agg[c] = op`. */
  method SumOrMeanSpec(df: Table, cols: seq<string>, op: AggOp) returns (agg: AggSpec)
    requires df.Valid() && forall c :: c in cols ==> Numeric(df, c)
    requires op != CountOp
    ensures agg == SameOp(cols, op)
    ensures SameOpUsable(df, cols, op)
  {
    agg := Empty();
    for e := 0 to |cols|
      invariant agg == SameOp(cols[..e], op)
    {
      assert cols[..e + 1][..e] == cols[..e];
      agg := Put(agg, cols[e], op);
    }
    assert cols[..|cols|] == cols;
    SameOpSpec(cols, op);
  }

  /** `groupBy(df, by)`. */
  method GroupBy(df: Table, sel: KeySelector) returns (g: GroupedDataFrame)
    requires KeysUsable(df, EnsureArray(sel))
    ensures fresh(g) && g.Valid() && g.df == df && g.keys == EnsureArray(sel)
  {
    g := new GroupedDataFrame(df, Many(EnsureArray(sel)));
  }
}
