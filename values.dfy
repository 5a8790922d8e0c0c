// Cell values of a table and the two operations the facade applies to them:
// String(v) when composing a bucket key, and the `<` / `===` comparator of sortValues.

module Values {
  import opened Text

  /** A cell: a JavaScript number (modelled exactly, as a real) or a string. */
  datatype Value = Num(x: real) | Str(s: string)

  const PlainLimit: real := 9007199254740992.0  // 2^53

  /** Values whose `String(...)` form is modelled: strings, and integral numbers
      below 2^53 in magnitude. Every such number is a double held exactly, and
      JavaScript prints it digit for digit; above 2^53 it prints the shortest
      digits that round-trip, padded with zeros. */
  predicate Keyable(v: Value)
  {
    v.Str? || (v.x == v.x.Floor as real && -PlainLimit < v.x < PlainLimit)
  }

  /** `String(v)`: a string is itself, an integral number its decimal form. */
  function ToText(v: Value): (r: string)
    requires Keyable(v)
    ensures v.Str? ==> r == v.s
    ensures v.Num? ==> KeySep !in r && |r| >= 1
  {
    match v
    case Str(s) => s
    case Num(x) => IntToString(x.Floor)
  }

  /** Lexicographic `<` on strings, character by character. */
  predicate StrLess(a: string, b: string)
  {
    if a == [] then b != []
    else if b == [] then false
    else if a[0] != b[0] then a[0] < b[0]
    else StrLess(a[1..], b[1..])
  }

  predicate SameKind(a: Value, b: Value)
  {
    a.Num? == b.Num?
  }

  /** All cells of a column are numbers, or all are strings. */
  predicate Homogeneous(vs: seq<Value>)
  {
    forall i, j :: 0 <= i < |vs| && 0 <= j < |vs| ==> SameKind(vs[i], vs[j])
  }

  /** JavaScript `va < vb` for two values of the same kind. */
  predicate Less(a: Value, b: Value)
  {
    match (a, b)
    case (Num(x), Num(y)) => x < y
    case (Str(s), Str(t)) => StrLess(s, t)
    case _ => false
  }

  /** The comparator passed to `indices.sort` in sortValues:
      0 for `===` values, otherwise -1/1 by `<`, sign flipped when descending. */
  function Compare(va: Value, vb: Value, ascending: bool): (r: int)
    ensures r == 0 <==> va == vb
    ensures -1 <= r <= 1
  {
    if va == vb then 0
    else (if Less(va, vb) then -1 else 1) * (if ascending then 1 else -1)
  }

  /** `<` in the chosen direction: the order sortValues puts values in. */
  predicate DirLess(a: Value, b: Value, ascending: bool)
  {
    if ascending then Less(a, b) else Less(b, a)
  }

  lemma {:induction false} StrLessIrreflexive(a: string)
    ensures !StrLess(a, a)
  {
    if a != [] {
      StrLessIrreflexive(a[1..]);
    }
  }

  lemma {:induction false} StrLessTransitive(a: string, b: string, c: string)
    requires StrLess(a, b) && StrLess(b, c)
    ensures StrLess(a, c)
  {
    if a != [] && b != [] && c != [] && a[0] == b[0] && b[0] == c[0] {
      StrLessTransitive(a[1..], b[1..], c[1..]);
    }
  }

  /** Two different strings are ordered one way or the other. */
  lemma {:induction false} StrLessTotal(a: string, b: string)
    requires a != b
    ensures StrLess(a, b) || StrLess(b, a)
  {
    if a != [] && b != [] && a[0] == b[0] {
      assert a == [a[0]] + a[1..] && b == [b[0]] + b[1..];
      StrLessTotal(a[1..], b[1..]);
    }
  }

  lemma {:induction false} StrLessAsymmetric(a: string, b: string)
    requires StrLess(a, b)
    ensures !StrLess(b, a)
  {
    if a != [] && b != [] && a[0] == b[0] {
      StrLessAsymmetric(a[1..], b[1..]);
    }
  }

  /** On values of one kind, `<` is a strict total order. */
  lemma LessStrictTotalOrder(a: Value, b: Value, c: Value)
    requires SameKind(a, b) && SameKind(b, c)
    ensures !Less(a, a)
    ensures Less(a, b) ==> !Less(b, a)
    ensures Less(a, b) && Less(b, c) ==> Less(a, c)
    ensures a != b ==> Less(a, b) || Less(b, a)
  {
    if a.Str? {
      StrLessIrreflexive(a.s);
      if StrLess(a.s, b.s) { StrLessAsymmetric(a.s, b.s); }
      if StrLess(a.s, b.s) && StrLess(b.s, c.s) { StrLessTransitive(a.s, b.s, c.s); }
      if a.s != b.s { StrLessTotal(a.s, b.s); }
    }
  }

  /** The comparator is negative exactly when the first value comes first in the
      chosen direction, and swapping the arguments negates it. */
  lemma CompareMeaning(va: Value, vb: Value, ascending: bool)
    requires SameKind(va, vb)
    ensures Compare(va, vb, ascending) < 0 <==> DirLess(va, vb, ascending)
    ensures Compare(va, vb, ascending) > 0 <==> DirLess(vb, va, ascending)
    ensures Compare(vb, va, ascending) == -Compare(va, vb, ascending)
  {
    LessStrictTotalOrder(va, vb, va);
    LessStrictTotalOrder(vb, va, vb);
  }
}
