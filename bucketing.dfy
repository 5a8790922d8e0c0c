// buildBuckets: one pass over the rows, composing each row's key from the key
// columns' String(...) forms joined with the separator, and appending the row
// index to that key's bucket in an insertion-ordered Map.

module Bucketing {
  import opened Text
  import opened Values
  import opened Tables

  /** The key columns exist and each of their cells has a modelled String(...) form. */
  predicate KeysUsable(df: Table, keys: seq<string>)
  {
    && df.Valid()
    && (forall k :: k in keys ==> df.HasColumn(k))
    && (forall k :: k in keys ==> forall v :: v in df.Get(k) ==> Keyable(v))
  }

  /** The string forms of row `i`'s key cells, in `keys` order. */
  function KeyParts(df: Table, keys: seq<string>, i: nat): (parts: seq<string>)
    requires KeysUsable(df, keys) && i < df.length
    ensures |parts| == |keys|
    ensures forall j :: 0 <= j < |keys| ==> parts[j] == ToText(df.Get(keys[j])[i])
  {
    seq(|keys|, j requires 0 <= j < |keys| =>
      assert keys[j] in keys && df.Get(keys[j])[i] in df.Get(keys[j]);
      ToText(df.Get(keys[j])[i]))
  }

  /** The composed bucket key of row `i`. */
  function RowKey(df: Table, keys: seq<string>, i: nat): (k: string)
    requires KeysUsable(df, keys) && i < df.length
    ensures |keys| > 0 ==> ToText(df.Get(keys[0])[i]) <= k
  {
    Join(KeyParts(df, keys, i), [KeySep])
  }

  /** The composed key of every row, in row order. */
  function RowKeys(df: Table, keys: seq<string>): (ks: seq<string>)
    requires KeysUsable(df, keys)
  {
    seq(df.length, i requires 0 <= i < df.length => RowKey(df, keys, i))
  }

  /** The distinct keys of `ks` in the order of their first occurrence. */
  function FirstSeen(ks: seq<string>): seq<string>
  {
    if ks == [] then []
    else
      var n := |ks| - 1;
      if ks[n] in ks[..n] then FirstSeen(ks[..n]) else FirstSeen(ks[..n]) + [ks[n]]
  }

  /** The positions of `ks` that hold `k`, in increasing order. */
  function IndicesOf(ks: seq<string>, k: string): seq<nat>
  {
    if ks == [] then []
    else
      var n := |ks| - 1;
      IndicesOf(ks[..n], k) + (if ks[n] == k then [n] else [])
  }

  /** The insertion-ordered `Map<string, number[]>`: the keys in insertion
      order, and the list stored under each key. */
  datatype Buckets = Buckets(order: seq<string>, index: map<string, seq<nat>>)

  /** The buckets of a sequence of row keys: keys in first-seen order, each
      holding the rows with that key. */
  function BucketsOf(ks: seq<string>): Buckets
  {
    Buckets(FirstSeen(ks), map k | k in ks :: IndicesOf(ks, k))
  }

  /** One more row: an existing key gets the row pushed onto its list, a new key
      is appended to the order with a one-row list. */
  lemma BucketsOfSnoc(s: seq<string>, x: string)
    ensures var b := BucketsOf(s);
      BucketsOf(s + [x]) ==
        if x in b.index then Buckets(b.order, b.index[x := b.index[x] + [|s|]])
        else Buckets(b.order + [x], b.index[x := [|s|]])
  {
    var s' := s + [x];
    var b := BucketsOf(s);
    assert s'[..|s|] == s && s'[|s|] == x;
    assert FirstSeen(s') == if x in s then b.order else b.order + [x];
    assert forall k :: k in s' <==> k in s || k == x;
    var m' := map k | k in s' :: IndicesOf(s', k);
    var m := if x in b.index then b.index[x := b.index[x] + [|s|]] else b.index[x := [|s|]];
    forall k | k in s' ensures k in m && m'[k] == m[k] {
      assert IndicesOf(s', k) == IndicesOf(s, k) + (if x == k then [|s|] else []);
      if k == x && x !in s {
        IndicesOfNonEmpty(s, x);
      }
    }
    assert m' == m;
  }

  /** `buildBuckets(df, keys)`. */
  method BuildBuckets(df: Table, keys: seq<string>) returns (b: Buckets)
    requires KeysUsable(df, keys)
    ensures b == BucketsOf(RowKeys(df, keys))
  {
    ghost var ks := RowKeys(df, keys);
    var order: seq<string> := [];
    var index: map<string, seq<nat>> := map[];
    for i := 0 to df.length
      invariant Buckets(order, index) == BucketsOf(ks[..i])
    {
      var key := RowKey(df, keys, i);
      BuildStep(ks, i, order, index);
      if key in index {
        index := index[key := index[key] + [i]];
      } else {
        order := order + [key];
        index := index[key := [i]];
      }
    }
    assert ks[..df.length] == ks;
    b := Buckets(order, index);
  }

  /** One iteration of `BuildBuckets`: the push or the insertion of row `i`
      gives the buckets of the first `i + 1` keys. */
  lemma BuildStep(ks: seq<string>, i: nat, order: seq<string>, index: map<string, seq<nat>>)
    requires i < |ks| && Buckets(order, index) == BucketsOf(ks[..i])
    ensures ks[i] in index ==> Buckets(order, index[ks[i] := index[ks[i]] + [i]]) == BucketsOf(ks[..i + 1])
    ensures ks[i] !in index ==> Buckets(order + [ks[i]], index[ks[i] := [i]]) == BucketsOf(ks[..i + 1])
  {
    assert ks[..i + 1] == ks[..i] + [ks[i]];
    BucketsOfSnoc(ks[..i], ks[i]);
  }

  /** A bucket list holds exactly the positions carrying its key, strictly increasing. */
  lemma {:induction false} IndicesOfSpec(ks: seq<string>, k: string)
    ensures forall j :: j in IndicesOf(ks, k) <==> 0 <= j < |ks| && ks[j] == k
    ensures forall p, q :: 0 <= p < q < |IndicesOf(ks, k)| ==> IndicesOf(ks, k)[p] < IndicesOf(ks, k)[q]
  {
    if ks != [] {
      var n := |ks| - 1;
      IndicesOfSpec(ks[..n], k);
      forall j | 0 <= j < n ensures ks[..n][j] == ks[j] { }
      var pre := IndicesOf(ks[..n], k);
      var all := IndicesOf(ks, k);
      assert all == pre + (if ks[n] == k then [n] else []);
      forall p, q | 0 <= p < q < |all| ensures all[p] < all[q] {
        assert all[p] == pre[p] && pre[p] in pre;
        if q < |pre| { assert all[q] == pre[q]; }
      }
    }
  }

  /** A bucket list is non-empty exactly for keys that occur. */
  lemma IndicesOfNonEmpty(ks: seq<string>, k: string)
    ensures |IndicesOf(ks, k)| > 0 <==> k in ks
  {
    IndicesOfSpec(ks, k);
    if k in ks {
      var j :| 0 <= j < |ks| && ks[j] == k;
      assert j in IndicesOf(ks, k);
    }
  }

  /** Adding a row leaves the first position of every earlier key unchanged. */
  lemma FirstIndexStable(ks: seq<string>, x: string, k: string)
    requires k in ks
    ensures |IndicesOf(ks, k)| > 0
    ensures IndicesOf(ks + [x], k)[0] == IndicesOf(ks, k)[0]
  {
    IndicesOfNonEmpty(ks, k);
    assert (ks + [x])[..|ks|] == ks;
  }

  /** First-seen order lists each occurring key once, and a key listed earlier
      first occurs at an earlier row. */
  lemma {:induction false} FirstSeenSpec(ks: seq<string>)
    ensures forall k :: k in FirstSeen(ks) <==> k in ks
    ensures forall p, q :: 0 <= p < q < |FirstSeen(ks)| ==> FirstSeen(ks)[p] != FirstSeen(ks)[q]
    ensures forall p, q :: 0 <= p < q < |FirstSeen(ks)| ==>
              |IndicesOf(ks, FirstSeen(ks)[p])| > 0 && |IndicesOf(ks, FirstSeen(ks)[q])| > 0 &&
              IndicesOf(ks, FirstSeen(ks)[p])[0] < IndicesOf(ks, FirstSeen(ks)[q])[0]
  {
    if ks != [] {
      var n := |ks| - 1;
      var pre, x := ks[..n], ks[n];
      assert ks == pre + [x];
      FirstSeenSpec(pre);
      var fs := FirstSeen(ks);
      assert forall k :: k in ks <==> k in pre || k == x;
      forall p, q | 0 <= p < q < |fs|
        ensures |IndicesOf(ks, fs[p])| > 0 && |IndicesOf(ks, fs[q])| > 0
        ensures IndicesOf(ks, fs[p])[0] < IndicesOf(ks, fs[q])[0]
      {
        assert fs[p] in pre;
        FirstIndexStable(pre, x, fs[p]);
        if q < |FirstSeen(pre)| {
          assert fs[q] in pre;
          FirstIndexStable(pre, x, fs[q]);
        } else {
          assert fs[q] == x && x !in pre;
          IndicesOfSpec(pre, fs[p]);
          assert IndicesOf(pre, fs[p])[0] in IndicesOf(pre, fs[p]);
          assert IndicesOf(ks, x) == [n] by {
            IndicesOfSpec(pre, x);
            IndicesOfNonEmpty(pre, x);
          }
        }
      }
    }
  }

  /** The buckets partition the rows: every row lies in the bucket of its own
      key and in no other; bucket lists are non-empty, strictly increasing and
      in range; the bucket order lists each key once and covers every bucket. */
  lemma Partition(ks: seq<string>)
    ensures var b := BucketsOf(ks);
      && (forall i :: 0 <= i < |ks| ==> ks[i] in b.index && i in b.index[ks[i]])
      && (forall k, i :: k in b.index && i in b.index[k] ==> 0 <= i < |ks| && ks[i] == k)
      && (forall k :: k in b.index ==> |b.index[k]| > 0)
      && (forall k, p, q :: k in b.index && 0 <= p < q < |b.index[k]| ==> b.index[k][p] < b.index[k][q])
      && (forall k :: k in b.order <==> k in b.index)
      && (forall p, q :: 0 <= p < q < |b.order| ==> b.order[p] != b.order[q])
  {
    var b := BucketsOf(ks);
    FirstSeenSpec(ks);
    forall k ensures (k in b.index ==> |b.index[k]| > 0) && (forall j :: j in IndicesOf(ks, k) <==> 0 <= j < |ks| && ks[j] == k)
      ensures forall p, q :: 0 <= p < q < |IndicesOf(ks, k)| ==> IndicesOf(ks, k)[p] < IndicesOf(ks, k)[q]
    {
      IndicesOfSpec(ks, k);
      IndicesOfNonEmpty(ks, k);
    }
  }

  /** Two rows share a bucket exactly when their composed keys are equal. */
  lemma SameBucket(ks: seq<string>, i: nat, j: nat)
    requires i < |ks| && j < |ks|
    ensures (exists k :: k in BucketsOf(ks).index && i in BucketsOf(ks).index[k] && j in BucketsOf(ks).index[k])
            <==> ks[i] == ks[j]
  {
    Partition(ks);
  }

  /** Bucket order is first-seen order: a bucket listed earlier begins at an earlier row. */
  lemma BucketOrderFirstSeen(ks: seq<string>)
    ensures var b := BucketsOf(ks);
      forall p, q :: 0 <= p < q < |b.order| ==>
        b.order[p] in b.index && b.order[q] in b.index &&
        |b.index[b.order[p]]| > 0 && |b.index[b.order[q]]| > 0 &&
        b.index[b.order[p]][0] < b.index[b.order[q]][0]
  {
    var b := BucketsOf(ks);
    FirstSeenSpec(ks);
    forall p, q | 0 <= p < q < |b.order|
      ensures b.order[p] in b.index && b.order[q] in b.index
      ensures |b.index[b.order[p]]| > 0 && |b.index[b.order[q]]| > 0
      ensures b.index[b.order[p]][0] < b.index[b.order[q]][0]
    {
      assert b.order[p] in ks && b.order[q] in ks;
      assert b.index[b.order[p]] == IndicesOf(ks, b.order[p]);
      assert b.index[b.order[q]] == IndicesOf(ks, b.order[q]);
    }
  }

  /** No cell of a key column contains the separator in its string form. */
  predicate SeparatorFree(df: Table, keys: seq<string>)
    requires KeysUsable(df, keys)
  {
    forall k, v :: k in keys && v in df.Get(k) ==> KeySep !in ToText(v)
  }

  /** Splitting a bucket key on the separator yields at least one piece per key
      column, and when no key cell contains the separator the pieces are, in
      `keys` order, the string forms of the key cells of every row in the bucket. */
  lemma KeyRoundTrip(df: Table, keys: seq<string>, k: string, i: nat)
    requires KeysUsable(df, keys)
    requires k in BucketsOf(RowKeys(df, keys)).index && i in BucketsOf(RowKeys(df, keys)).index[k]
    ensures i < df.length && k == RowKey(df, keys, i)
    ensures |Split(k, KeySep)| >= |keys|
    ensures SeparatorFree(df, keys) ==>
              forall j :: 0 <= j < |keys| ==> Split(k, KeySep)[j] == ToText(df.Get(keys[j])[i])
  {
    BucketMemberKey(df, keys, k, i);
    var parts := KeyParts(df, keys, i);
    assert k == Join(parts, [KeySep]);
    SplitJoin(parts, KeySep);
    if SeparatorFree(df, keys) {
      KeyPartsFree(df, keys, i);
      forall j | 0 <= j < |keys|
        ensures Split(k, KeySep)[j] == ToText(df.Get(keys[j])[i])
      {
        assert Split(k, KeySep)[j] == parts[j];
      }
    }
  }

  /** A row listed in a bucket carries that bucket's key. */
  lemma BucketMemberKey(df: Table, keys: seq<string>, k: string, i: nat)
    requires KeysUsable(df, keys)
    requires k in BucketsOf(RowKeys(df, keys)).index && i in BucketsOf(RowKeys(df, keys)).index[k]
    ensures i < df.length && k == RowKey(df, keys, i)
  {
    var ks := RowKeys(df, keys);
    assert k in ks;
    assert BucketsOf(ks).index[k] == IndicesOf(ks, k);
    IndicesOfSpec(ks, k);
  }

  /** Without the separator in the key cells, no key part contains it. */
  lemma KeyPartsFree(df: Table, keys: seq<string>, i: nat)
    requires KeysUsable(df, keys) && i < df.length && SeparatorFree(df, keys)
    ensures forall x :: x in KeyParts(df, keys, i) ==> KeySep !in x
  {
    var parts := KeyParts(df, keys, i);
    forall x | x in parts ensures KeySep !in x {
      var j :| 0 <= j < |parts| && parts[j] == x;
      assert keys[j] in keys && df.Get(keys[j])[i] in df.Get(keys[j]);
    }
  }

  /** With a separator that may occur in the data, two different key tuples can
      compose the same key and so share a bucket. */
  lemma SeparatorCollision()
    ensures ["a" + [KeySep] + "b", "c"] != ["a", "b" + [KeySep] + "c"]
    ensures Join(["a" + [KeySep] + "b", "c"], [KeySep]) == Join(["a", "b" + [KeySep] + "c"], [KeySep])
  {
    assert ("a" + [KeySep] + "b")[0] == 'a';
  }
}
