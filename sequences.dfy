/** List operations the client relies on: `list.count`, de-duplication by
    `not in` while appending, list comprehensions with a condition, and
    `str.join`. Each is defined the way the Python loop builds it, element by
    element from the front, so the last element is peeled off first. */
module Sequences {

  /** `s.count(x)` */
  function Count<T(==,!new)>(s: seq<T>, x: T): (n: nat)
    ensures n <= |s|
    ensures n > 0 <==> x in s
  {
    if s == [] then 0
    else
      assert s == s[..|s| - 1] + [s[|s| - 1]];
      Count(s[..|s| - 1], x) + (if s[|s| - 1] == x then 1 else 0)
  }

  predicate NoDuplicates<T(==,!new)>(s: seq<T>)
  {
    forall i, j :: 0 <= i < j < |s| ==> s[i] != s[j]
  }

  /** The position of the first occurrence of `x` in `s`. */
  function FirstIndex<T(==,!new)>(s: seq<T>, x: T): (i: nat)
    requires x in s
    ensures i < |s| && s[i] == x && x !in s[..i]
  {
    if s[0] == x then 0
    else
      var k := FirstIndex(s[1..], x);
      assert s[..k + 1] == [s[0]] + s[1..][..k];
      k + 1
  }

  lemma FirstIndexUnique<T(!new)>(s: seq<T>, x: T, i: nat)
    requires i < |s| && s[i] == x && x !in s[..i]
    ensures FirstIndex(s, x) == i
  {
  }

  /** The elements of `s` in the order of their first occurrence: the list that
      `if x not in out: out.append(x)` builds over `s`. */
  function Distinct<T(==,!new)>(s: seq<T>): (d: seq<T>)
    ensures NoDuplicates(d)
    ensures forall x :: x in d <==> x in s
    ensures |d| <= |s|
  {
    if s == [] then []
    else
      var p := Distinct(s[..|s| - 1]);
      assert s == s[..|s| - 1] + [s[|s| - 1]];
      if s[|s| - 1] in p then p else p + [s[|s| - 1]]
  }

  lemma DistinctAppend<T(!new)>(s: seq<T>, x: T)
    ensures Distinct(s + [x]) == if x in s then Distinct(s) else Distinct(s) + [x]
  {
    assert (s + [x])[..|s|] == s;
  }

  /** Every element of `r` occurs in `s`, and `r` lists them in the order in
      which they first occur in `s`. */
  predicate InFirstSeenOrder<T(==,!new)>(r: seq<T>, s: seq<T>)
  {
    && (forall x :: x in r ==> x in s)
    && forall i, j :: 0 <= i < j < |r| ==> FirstIndex(s, r[i]) < FirstIndex(s, r[j])
  }

  lemma FirstIndexOfPrefix<T(!new)>(p: seq<T>, q: seq<T>, x: T)
    requires x in p
    ensures FirstIndex(p + q, x) == FirstIndex(p, x)
  {
    var i := FirstIndex(p, x);
    assert (p + q)[..i] == p[..i];
    FirstIndexUnique(p + q, x, i);
  }

  lemma {:induction false} DistinctInFirstSeenOrder<T(!new)>(s: seq<T>)
    ensures InFirstSeenOrder(Distinct(s), s)
  {
    if s != [] {
      var p, x := s[..|s| - 1], s[|s| - 1];
      assert s == p + [x];
      DistinctInFirstSeenOrder(p);
      var dp := Distinct(p);
      var d := Distinct(s);
      forall i, j | 0 <= i < j < |d|
        ensures FirstIndex(s, d[i]) < FirstIndex(s, d[j])
      {
        FirstIndexOfPrefix(p, [x], d[i]);
        if j < |dp| {
          FirstIndexOfPrefix(p, [x], d[j]);
        } else {
          // d[j] is x, which does not occur in p
          assert d[j] == x && x !in p;
          assert s[..|p|] == p;
          FirstIndexUnique(s, x, |p|);
        }
      }
    }
  }

  /** Order of first occurrences is equivalent to having no duplicates when
      read against `s` itself. */
  lemma InFirstSeenOrderHasNoDuplicates<T(!new)>(r: seq<T>, s: seq<T>)
    requires InFirstSeenOrder(r, s)
    ensures NoDuplicates(r)
  {
  }

  /** `[x for x in s if keep(x)]` */
  function Filter<T(==,!new)>(s: seq<T>, keep: T -> bool): (r: seq<T>)
    ensures |r| <= |s|
    ensures forall x :: x in r <==> x in s && keep(x)
  {
    if s == [] then []
    else
      var p := Filter(s[..|s| - 1], keep);
      assert s == s[..|s| - 1] + [s[|s| - 1]];
      if keep(s[|s| - 1]) then p + [s[|s| - 1]] else p
  }

  lemma {:induction false} FilterCount<T(!new)>(s: seq<T>, keep: T -> bool, x: T)
    ensures Count(Filter(s, keep), x) == if keep(x) then Count(s, x) else 0
  {
    if s != [] {
      FilterCount(s[..|s| - 1], keep, x);
      var p := Filter(s[..|s| - 1], keep);
      if keep(s[|s| - 1]) {
        assert (p + [s[|s| - 1]])[..|p|] == p;
      }
    }
  }

  /** Filtering one more element keeps it at the end exactly when it passes. */
  lemma FilterSnoc<T(!new)>(s: seq<T>, x: T, keep: T -> bool)
    ensures Filter(s + [x], keep) == Filter(s, keep) + (if keep(x) then [x] else [])
  {
    assert (s + [x])[..|s|] == s;
  }

  /** Filtering a concatenation filters each part and keeps them in order. */
  lemma {:induction false} FilterConcat<T(!new)>(a: seq<T>, b: seq<T>, keep: T -> bool)
    ensures Filter(a + b, keep) == Filter(a, keep) + Filter(b, keep)
    decreases |b|
  {
    if b == [] {
      assert a + b == a;
    } else {
      var b', x := b[..|b| - 1], b[|b| - 1];
      var t := if keep(x) then [x] else [];
      calc {
        Filter(a + b, keep);
        { assert a + b == (a + b') + [x]; }
        Filter((a + b') + [x], keep);
        { FilterSnoc(a + b', x, keep); }
        Filter(a + b', keep) + t;
        { FilterConcat(a, b', keep); }
        (Filter(a, keep) + Filter(b', keep)) + t;
        Filter(a, keep) + (Filter(b', keep) + t);
        { FilterSnoc(b', x, keep); assert b == b' + [x]; }
        Filter(a, keep) + Filter(b, keep);
      }
    }
  }

  /** Filtering keeps the relative order of what it keeps. */
  lemma {:induction false} FilterKeepsFirstSeenOrder<T(!new)>(d: seq<T>, keep: T -> bool, s: seq<T>)
    requires InFirstSeenOrder(d, s)
    ensures InFirstSeenOrder(Filter(d, keep), s)
  {
    if d != [] {
      var p, x := d[..|d| - 1], d[|d| - 1];
      PrefixInFirstSeenOrder(d, s);
      FilterKeepsFirstSeenOrder(p, keep, s);
      var fp := Filter(p, keep);
      if keep(x) {
        forall y | y in fp ensures FirstIndex(s, y) < FirstIndex(s, x) {
          var m :| 0 <= m < |p| && p[m] == y;
          assert d[m] == y;
        }
        AppendInFirstSeenOrder(fp, x, s);
      }
    }
  }

  lemma PrefixInFirstSeenOrder<T(!new)>(d: seq<T>, s: seq<T>)
    requires d != [] && InFirstSeenOrder(d, s)
    ensures InFirstSeenOrder(d[..|d| - 1], s)
  {
    var p := d[..|d| - 1];
    assert forall i | 0 <= i < |p| :: p[i] == d[i];
  }

  lemma AppendInFirstSeenOrder<T(!new)>(r: seq<T>, x: T, s: seq<T>)
    requires InFirstSeenOrder(r, s) && x in s
    requires forall y :: y in r ==> FirstIndex(s, y) < FirstIndex(s, x)
    ensures InFirstSeenOrder(r + [x], s)
  {
    var q := r + [x];
    forall i, j | 0 <= i < j < |q| ensures FirstIndex(s, q[i]) < FirstIndex(s, q[j]) {
      if j == |r| {
        assert q[i] == r[i] && q[j] == x;
      } else {
        assert q[i] == r[i] && q[j] == r[j];
      }
    }
  }

  /** `sep.join(xs)` */
  function Join(sep: string, xs: seq<string>): string
  {
    if xs == [] then ""
    else if |xs| == 1 then xs[0]
    else Join(sep, xs[..|xs| - 1]) + sep + xs[|xs| - 1]
  }

  lemma JoinAppend(sep: string, xs: seq<string>, x: string)
    requires xs != []
    ensures Join(sep, xs + [x]) == Join(sep, xs) + sep + x
  {
    assert (xs + [x])[..|xs|] == xs;
  }
}
