// String helpers the facade relies on: Array.prototype.join, String.prototype.split
// with a one-character separator, and the decimal form String(n) of an integral number.

module Text {

  /** The character `buildBuckets` puts between key parts: U+00A6 BROKEN BAR. */
  const KeySep: char := '\U{00A6}'

  /** `xs.join(sep)`: the empty list joins to the empty string. */
  function Join(xs: seq<string>, sep: string): (r: string)
    ensures |xs| > 0 ==> xs[0] <= r
    ensures |xs| > 1 ==> xs[0] + sep <= r
  {
    if |xs| == 0 then ""
    else if |xs| == 1 then xs[0]
    else xs[0] + sep + Join(xs[1..], sep)
  }

  /** `s.split(sep)` for a one-character separator: the pieces between separators,
      at least one (the empty string splits to one empty piece). */
  function Split(s: string, sep: char): (r: seq<string>)
    ensures |r| >= 1
    ensures sep !in s ==> r == [s]
  {
    if s == [] then [""]
    else
      var rest := Split(s[1..], sep);
      if s[0] == sep then [""] + rest
      else
        assert sep !in s ==> rest == [s[1..]] && [s[0]] + s[1..] == s by {
          if sep !in s { assert forall c :: c in s[1..] ==> c in s; }
        }
        [[s[0]] + rest[0]] + rest[1..]
  }

  /** Every character of a joined string comes from one of the parts or from the separator. */
  lemma {:induction false} JoinChars(xs: seq<string>, sep: string)
    ensures forall c :: c in Join(xs, sep) ==> c in sep || exists j :: 0 <= j < |xs| && c in xs[j]
  {
    if |xs| > 1 {
      JoinChars(xs[1..], sep);
      var r := Join(xs, sep);
      assert r == xs[0] + sep + Join(xs[1..], sep);
      forall c | c in r
        ensures c in sep || exists j :: 0 <= j < |xs| && c in xs[j]
      {
        if c !in xs[0] && c !in sep {
          assert c in Join(xs[1..], sep);
          var j :| 0 <= j < |xs[1..]| && c in xs[1..][j];
          assert c in xs[j + 1];
        }
      }
    } else if |xs| == 1 {
      assert c0: Join(xs, sep) == xs[0];
    }
  }

  /** One step of `Split` on a string that starts with the separator. */
  lemma SplitConsSep(t: string, sep: char)
    ensures Split([sep] + t, sep) == [""] + Split(t, sep)
  {
    assert ([sep] + t)[1..] == t;
  }

  /** One step of `Split` on a string that starts with another character. */
  lemma SplitConsOther(c: char, t: string, sep: char)
    requires c != sep
    ensures Split([c] + t, sep) == [[c] + Split(t, sep)[0]] + Split(t, sep)[1..]
  {
    assert ([c] + t)[1..] == t;
  }

  /** Splitting distributes over a separator: `(a + sep + b).split(sep)` is
      `a.split(sep)` followed by `b.split(sep)`. */
  lemma {:induction false} SplitAround(a: string, sep: char, b: string)
    ensures Split(a + [sep] + b, sep) == Split(a, sep) + Split(b, sep)
  {
    if a == [] {
      assert a + [sep] + b == [sep] + b;
      SplitConsSep(b, sep);
    } else {
      var c, t := a[0], a[1..];
      SplitAround(t, sep, b);
      assert a + [sep] + b == [c] + (t + [sep] + b);
      assert a == [c] + t;
      if c == sep {
        SplitAroundSep(t, sep, b);
      } else {
        SplitAroundOther(c, t, sep, b);
      }
    }
  }

  lemma SplitAroundSep(t: string, sep: char, b: string)
    requires Split(t + [sep] + b, sep) == Split(t, sep) + Split(b, sep)
    ensures Split([sep] + (t + [sep] + b), sep) == Split([sep] + t, sep) + Split(b, sep)
  {
    SplitConsSep(t + [sep] + b, sep);
    SplitConsSep(t, sep);
    ConsAppend("", Split(t, sep), Split(b, sep));
  }

  lemma ConsAppend(x: string, s1: seq<string>, s2: seq<string>)
    ensures [x] + (s1 + s2) == ([x] + s1) + s2
  {
  }

  lemma SplitAroundOther(c: char, t: string, sep: char, b: string)
    requires c != sep
    requires Split(t + [sep] + b, sep) == Split(t, sep) + Split(b, sep)
    ensures Split([c] + (t + [sep] + b), sep) == Split([c] + t, sep) + Split(b, sep)
  {
    var w := t + [sep] + b;
    SplitConsOther(c, w, sep);
    SplitConsOther(c, t, sep);
    ExtendFirst(c, Split(t, sep), Split(b, sep));
  }

  /** Prefixing `c` to the first piece commutes with appending more pieces. */
  lemma ExtendFirst(c: char, s1: seq<string>, s2: seq<string>)
    requires |s1| >= 1
    ensures [[c] + (s1 + s2)[0]] + (s1 + s2)[1..] == ([[c] + s1[0]] + s1[1..]) + s2
  {
    assert (s1 + s2)[1..] == s1[1..] + s2;
  }

  /** Splitting a joined key yields at least one piece per joined part, and the
      first pieces are the parts themselves when no part contains the separator. */
  lemma {:induction false} SplitJoin(xs: seq<string>, sep: char)
    ensures |Split(Join(xs, [sep]), sep)| >= |xs|
    ensures (forall x :: x in xs ==> sep !in x) ==>
              forall j :: 0 <= j < |xs| ==> Split(Join(xs, [sep]), sep)[j] == xs[j]
  {
    if |xs| > 1 {
      SplitJoin(xs[1..], sep);
      SplitAround(xs[0], sep, Join(xs[1..], [sep]));
      assert Join(xs, [sep]) == xs[0] + [sep] + Join(xs[1..], [sep]);
      if forall x :: x in xs ==> sep !in x {
        assert forall x :: x in xs[1..] ==> x in xs;
        assert Split(xs[0], sep) == [xs[0]];
        forall j | 0 <= j < |xs| ensures Split(Join(xs, [sep]), sep)[j] == xs[j] {
          if j > 0 {
            assert Split(Join(xs, [sep]), sep)[j] == Split(Join(xs[1..], [sep]), sep)[j - 1];
          }
        }
      }
    }
  }

  /** Joining with a separator no part contains is injective on lists of one length. */
  lemma JoinInjective(xs: seq<string>, ys: seq<string>, sep: char)
    requires |xs| == |ys|
    requires forall x :: x in xs ==> sep !in x
    requires forall y :: y in ys ==> sep !in y
    requires Join(xs, [sep]) == Join(ys, [sep])
    ensures xs == ys
  {
    SplitJoin(xs, sep);
    SplitJoin(ys, sep);
  }

  function DigitChar(d: nat): (c: char)
    requires d < 10
    ensures '0' <= c <= '9'
  {
    ['0', '1', '2', '3', '4', '5', '6', '7', '8', '9'][d]
  }

  /** Decimal digits of a natural number, most significant first, no leading zero. */
  function NatToString(n: nat): (r: string)
    ensures |r| >= 1
    ensures forall j :: 0 <= j < |r| ==> '0' <= r[j] <= '9'
    ensures n > 0 ==> r[0] != '0'
  {
    if n < 10 then [DigitChar(n)] else NatToString(n / 10) + [DigitChar(n % 10)]
  }

  /** `String(n)` for an integral number in plain decimal notation: an optional
      minus sign followed by digits, never the key separator. */
  function IntToString(i: int): (r: string)
    ensures |r| >= 1
    ensures forall c :: c in r ==> c == '-' || '0' <= c <= '9'
    ensures KeySep !in r
    ensures (r[0] == '-') <==> i < 0
    ensures forall j :: 1 <= j < |r| ==> '0' <= r[j] <= '9'
    ensures i >= 0 ==> '0' <= r[0] <= '9'
  {
    if i < 0 then "-" + NatToString(-i) else NatToString(i)
  }

  /** The number a decimal digit stands for. */
  function DigitValue(c: char): nat
    requires '0' <= c <= '9'
  {
    (c as int) - ('0' as int)
  }

  /** The number a string of decimal digits denotes, most significant first. */
  function DigitsValue(s: string): nat
    requires forall j :: 0 <= j < |s| ==> '0' <= s[j] <= '9'
  {
    if s == [] then 0
    else
      var n := |s| - 1;
      10 * DigitsValue(s[..n]) + DigitValue(s[n])
  }

  /** Reading back a decimal form: an optional minus sign, then digits. */
  function ParseInt(s: string): int
    requires s != [] && (s[0] == '-' || '0' <= s[0] <= '9')
    requires forall j :: 1 <= j < |s| ==> '0' <= s[j] <= '9'
  {
    if s[0] == '-' then -(DigitsValue(s[1..]) as int) else DigitsValue(s)
  }

  /** The digits of `NatToString(n)` denote `n`. */
  lemma {:induction false} NatToStringValue(n: nat)
    ensures DigitsValue(NatToString(n)) == n
  {
    var s := NatToString(n);
    if n < 10 {
      assert s == [DigitChar(n)];
      assert s[..0] == [];
    } else {
      NatToStringValue(n / 10);
      assert s[..|s| - 1] == NatToString(n / 10);
      assert s[|s| - 1] == DigitChar(n % 10);
    }
  }

  /** Reading `IntToString(i)` back gives `i`. */
  lemma IntToStringRoundTrip(i: int)
    ensures ParseInt(IntToString(i)) == i
  {
    if i < 0 {
      MinusRoundTrip(-i);
    } else {
      PlainRoundTrip(i);
    }
  }

  /** A minus sign followed by the digits of `n` reads back as `-n`. */
  lemma MinusRoundTrip(n: nat)
    ensures ParseInt("-" + NatToString(n)) == -(n as int)
  {
    var d := NatToString(n);
    assert ("-" + d)[1..] == d;
    NatToStringValue(n);
  }

  /** The digits of `n` alone read back as `n`. */
  lemma PlainRoundTrip(n: nat)
    ensures ParseInt(NatToString(n)) == n
  {
    NatToStringValue(n);
  }

  /** Distinct integers have distinct decimal forms. */
  lemma IntToStringInjective(i: int, j: int)
    requires IntToString(i) == IntToString(j)
    ensures i == j
  {
    IntToStringRoundTrip(i);
    IntToStringRoundTrip(j);
  }
}
