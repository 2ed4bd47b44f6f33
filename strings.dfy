/** Python's `str.split` and `str.join` on one delimiter character, pandas'
    order-preserving `unique`, and duplicate-free enumerations of a set. */
module Strings {

  /** `s.split(d)`: the pieces between the occurrences of `d`; there is always one
      more piece than there are occurrences, so at least one. */
  function Split(s: string, d: char): (r: seq<string>)
    ensures |r| >= 1
    ensures forall k :: 0 <= k < |r| ==> d !in r[k]
  {
    if |s| == 0 then [""]
    else if s[0] == d then [""] + Split(s[1..], d)
    else
      var t := Split(s[1..], d);
      [[s[0]] + t[0]] + t[1..]
  }

  /** `d.join(parts)`: it starts with the first part, and two or more parts
      put the delimiter in. */
  function Join(parts: seq<string>, d: char): (s: string)
    ensures |parts| > 0 ==> parts[0] <= s
    ensures |parts| >= 2 ==> d in s
  {
    if |parts| == 0 then ""
    else if |parts| == 1 then parts[0]
    else
      var s := parts[0] + [d] + Join(parts[1..], d);
      assert s[|parts[0]|] == d;
      s
  }

  /** A string without the delimiter splits into itself alone. */
  lemma {:induction false} SplitNoDelimiter(s: string, d: char)
    requires d !in s
    ensures Split(s, d) == [s]
  {
    if |s| > 0 {
      SplitNoDelimiter(s[1..], d);
      assert [s[0]] + s[1..] == s;
    }
  }

  /** Splitting `a + rest` where `a` has no delimiter glues `a` to the first piece of `rest`. */
  lemma {:induction false} SplitPrefix(a: string, rest: string, d: char)
    requires d !in a
    ensures var t := Split(rest, d);
      Split(a + rest, d) == [a + t[0]] + t[1..]
  {
    var t := Split(rest, d);
    if |a| == 0 {
      assert a + rest == rest;
      assert a + t[0] == t[0];
      assert [t[0]] + t[1..] == t;
    } else {
      SplitPrefix(a[1..], rest, d);
      assert (a + rest)[1..] == a[1..] + rest;
      var t' := Split(a[1..] + rest, d);
      assert t' == [a[1..] + t[0]] + t[1..];
      assert t'[0] == a[1..] + t[0] && t'[1..] == t[1..];
      assert [a[0]] + (a[1..] + t[0]) == a + t[0];
    }
  }

  /** The piece count exceeds one exactly when the delimiter occurs (Python's
      `s.split(d)[1]` raises IndexError exactly when `d` is absent). */
  lemma {:induction false} SplitHasSecond(s: string, d: char)
    ensures |Split(s, d)| >= 2 <==> d in s
  {
    if |s| > 0 {
      SplitHasSecond(s[1..], d);
      assert d in s <==> s[0] == d || d in s[1..];
    }
  }

  /** Splitting `a + [d] + b`, with no delimiter in `a`, gives `a` and then the pieces of `b`. */
  lemma SplitAtFirst(a: string, b: string, d: char)
    requires d !in a
    ensures Split(a + [d] + b, d) == [a] + Split(b, d)
  {
    SplitPrefix(a, [d] + b, d);
    assert ([d] + b)[1..] == b;
    assert a + [d] + b == a + ([d] + b);
    var t := Split([d] + b, d);
    assert t == [""] + Split(b, d);
    assert t[0] == "" && t[1..] == Split(b, d);
    assert a + t[0] == a;
  }

  /** Joining then splitting gives back the parts, when no part holds the delimiter. */
  lemma {:induction false} SplitJoin(parts: seq<string>, d: char)
    requires |parts| >= 1
    requires forall k :: 0 <= k < |parts| ==> d !in parts[k]
    ensures Split(Join(parts, d), d) == parts
  {
    if |parts| == 1 {
      SplitNoDelimiter(parts[0], d);
    } else {
      SplitJoin(parts[1..], d);
      SplitAtFirst(parts[0], Join(parts[1..], d), d);
      assert [parts[0]] + parts[1..] == parts;
    }
  }

  /** Splitting then joining gives back the string. */
  lemma {:induction false} JoinSplit(s: string, d: char)
    ensures Join(Split(s, d), d) == s
  {
    if |s| > 0 {
      JoinSplit(s[1..], d);
      var t := Split(s[1..], d);
      if s[0] == d {
        assert ([""] + t)[1..] == t;
      } else {
        var r := [[s[0]] + t[0]] + t[1..];
        assert r[1..] == t[1..];
        if |t| > 1 {
          assert Join(t, d) == t[0] + [d] + Join(t[1..], d);
        }
      }
    }
  }

  predicate NoDuplicates<T(==)>(s: seq<T>)
  {
    forall i, j :: 0 <= i < j < |s| ==> s[i] != s[j]
  }

  /** `order` lists the distinct values of `xs`, each once, in some order. */
  predicate IsOrderOf<T(==)>(order: seq<T>, xs: seq<T>)
  {
    NoDuplicates(order) && (forall x :: x in order ==> x in xs) && (forall x :: x in xs ==> x in order)
  }

  /** pandas `Series.unique()`: the distinct values in order of first appearance. */
  function Unique<T(==)>(xs: seq<T>): (u: seq<T>)
    ensures IsOrderOf(u, xs)
  {
    if |xs| == 0 then []
    else
      var u := Unique(xs[..|xs| - 1]);
      assert xs == xs[..|xs| - 1] + [xs[|xs| - 1]];
      if xs[|xs| - 1] in u then u else u + [xs[|xs| - 1]]
  }
}
