/**
 * Sequence operations behind the Python idioms the modelled code uses:
 * `dict.fromkeys(xs)` / `Counter(xs).keys()` (first-occurrence de-duplication),
 * list comprehensions with a condition, slicing `xs[:n]`, counting, and the
 * keys and values of a dictionary in insertion order.
 */
module Seqs {

  predicate NoDup<T(==)>(s: seq<T>) {
    forall i, j :: 0 <= i < j < |s| ==> s[i] != s[j]
  }

  /** The index of the first occurrence of `x` (Python's `s.index(x)`). */
  function IndexOf<T(==)>(s: seq<T>, x: T): (i: nat)
    requires x in s
    ensures i < |s| && s[i] == x && x !in s[..i]
  {
    if s[0] == x then 0
    else
      var k := IndexOf(s[1..], x);
      assert s[..k + 1] == [s[0]] + s[1..][..k];
      1 + k
  }

  /** A position holding `x` with no `x` before it is the first occurrence. */
  lemma IndexOfUnique<T>(s: seq<T>, x: T, i: nat)
    requires i < |s| && s[i] == x && x !in s[..i]
    ensures IndexOf(s, x) == i
  {
  }

  /** First occurrences found in a prefix are first occurrences in the whole sequence. */
  lemma IndexOfPrefix<T>(s: seq<T>, n: nat, x: T)
    requires n <= |s| && x in s[..n]
    ensures IndexOf(s[..n], x) == IndexOf(s, x)
  {
    var k := IndexOf(s[..n], x);
    assert s[..n][..k] == s[..k];
    IndexOfUnique(s, x, k);
  }

  /** `d` draws its elements from `s` and lists them by increasing first occurrence in `s`. */
  predicate FirstOccurrenceOrder<T(==)>(d: seq<T>, s: seq<T>) {
    (forall i :: 0 <= i < |d| ==> d[i] in s)
    && forall i, j :: 0 <= i < j < |d| ==> IndexOf(s, d[i]) < IndexOf(s, d[j])
  }

  /** Two positions of `d` in first-occurrence order. */
  lemma OrderedPair<T>(d: seq<T>, s: seq<T>, a: nat, b: nat)
    requires FirstOccurrenceOrder(d, s) && a < b < |d|
    ensures d[a] in s && d[b] in s && IndexOf(s, d[a]) < IndexOf(s, d[b])
  {
  }

  /**
   * `list(dict.fromkeys(s))`, and the key order of `Counter(s)`: each element
   * once, where it first occurs. Built the way a dict is filled, one insertion
   * at a time, an element already present keeping its place.
   */
  function Distinct<T(==,!new)>(s: seq<T>): (d: seq<T>)
    ensures NoDup(d)
    ensures forall x :: x in d <==> x in s
    ensures |d| <= |s|
    decreases |s|
  {
    if s == [] then []
    else
      var d := Distinct(s[..|s| - 1]);
      assert forall i :: 0 <= i < |s| - 1 ==> s[i] == s[..|s| - 1][i];
      if s[|s| - 1] in d then d else d + [s[|s| - 1]]
  }

  /** De-duplication keeps first-occurrence order. */
  lemma {:induction false} DistinctOrder<T(!new)>(s: seq<T>)
    ensures FirstOccurrenceOrder(Distinct(s), s)
    decreases |s|
  {
    if s != [] {
      var p := s[..|s| - 1];
      var last := s[|s| - 1];
      assert s[..|s| - 1] == p;
      DistinctOrder(p);
      var d := Distinct(p);
      forall x | x in p ensures IndexOf(p, x) == IndexOf(s, x) {
        IndexOfPrefix(s, |s| - 1, x);
      }
      if last !in d {
        assert last !in p;
        IndexOfUnique(s, last, |s| - 1);
        var e := d + [last];
        forall i, j | 0 <= i < j < |e| ensures IndexOf(s, e[i]) < IndexOf(s, e[j]) {
          assert e[i] == d[i];
          if j < |d| {
            assert e[j] == d[j];
          } else {
            assert IndexOf(p, d[i]) < |p|;
          }
        }
      }
    }
  }

  /** De-duplicating a sequence without duplicates changes nothing. */
  lemma {:induction false} DistinctOfNoDup<T(!new)>(s: seq<T>)
    requires NoDup(s)
    ensures Distinct(s) == s
    decreases |s|
  {
    if s != [] {
      var p := s[..|s| - 1];
      DistinctOfNoDup(p);
      assert s[|s| - 1] !in p;
      assert p + [s[|s| - 1]] == s;
    }
  }

  /** Two duplicate-free sequences with no element in common concatenate to a duplicate-free one. */
  lemma NoDupConcat<T>(a: seq<T>, b: seq<T>)
    requires NoDup(a) && NoDup(b)
    requires forall i, j :: 0 <= i < |a| && 0 <= j < |b| ==> a[i] != b[j]
    ensures NoDup(a + b)
  {
    forall i, j | 0 <= i < j < |a + b| ensures (a + b)[i] != (a + b)[j] {
      if j < |a| {
        assert (a + b)[i] == a[i] && (a + b)[j] == a[j];
      } else if i < |a| {
        assert (a + b)[i] == a[i] && (a + b)[j] == b[j - |a|];
      } else {
        assert (a + b)[i] == b[i - |a|] && (a + b)[j] == b[j - |a|];
      }
    }
  }

  /** A list comprehension with a condition: `[x for x in s if p(x)]`. */
  function Filter<T(==,!new)>(s: seq<T>, p: T -> bool): (r: seq<T>)
    ensures |r| <= |s|
    ensures forall x :: x in r <==> x in s && p(x)
    decreases |s|
  {
    if s == [] then []
    else (if p(s[0]) then [s[0]] else []) + Filter(s[1..], p)
  }

  /** Filtering with a condition no element meets leaves nothing. */
  lemma {:induction false} FilterNone<T(!new)>(s: seq<T>, p: T -> bool)
    requires forall i :: 0 <= i < |s| ==> !p(s[i])
    ensures Filter(s, p) == []
    decreases |s|
  {
    if s != [] {
      FilterNone(s[1..], p);
    }
  }

  /** Filtering keeps a sequence free of duplicates and keeps its first-occurrence order. */
  lemma {:induction false} FilterKeepsOrder<T(!new)>(d: seq<T>, s: seq<T>, p: T -> bool)
    requires NoDup(d) && FirstOccurrenceOrder(d, s)
    ensures NoDup(Filter(d, p)) && FirstOccurrenceOrder(Filter(d, p), s)
    decreases |d|
  {
    if d != [] {
      var tail := d[1..];
      assert FirstOccurrenceOrder(tail, s) by {
        forall i, j | 0 <= i < j < |tail| ensures IndexOf(s, tail[i]) < IndexOf(s, tail[j]) {
          assert tail[i] == d[i + 1] && tail[j] == d[j + 1];
        }
      }
      assert NoDup(tail);
      FilterKeepsOrder(tail, s, p);
      var ft := Filter(tail, p);
      assert Filter(d, p) == (if p(d[0]) then [d[0]] else []) + ft;
      if p(d[0]) {
        HeadPrecedesFilteredTail(d, s, p);
        ConsOrdered(d[0], ft, s);
      } else {
        assert Filter(d, p) == ft;
      }
    }
  }

  lemma HeadPrecedesFilteredTail<T(!new)>(d: seq<T>, s: seq<T>, p: T -> bool)
    requires d != [] && NoDup(d) && FirstOccurrenceOrder(d, s)
    ensures forall y :: y in Filter(d[1..], p) ==> d[0] != y && IndexOf(s, d[0]) < IndexOf(s, y)
  {
    forall y | y in Filter(d[1..], p) ensures d[0] != y && IndexOf(s, d[0]) < IndexOf(s, y) {
      assert y in d[1..];
      var k :| 0 <= k < |d[1..]| && d[1..][k] == y;
      assert d[k + 1] == y;
      OrderedPair(d, s, 0, k + 1);
    }
  }

  /** An element that comes first in `s` and is new can go in front of an ordered sequence. */
  lemma ConsOrdered<T>(x: T, t: seq<T>, s: seq<T>)
    requires x in s && NoDup(t) && FirstOccurrenceOrder(t, s)
    requires forall y :: y in t ==> x != y && IndexOf(s, x) < IndexOf(s, y)
    ensures NoDup([x] + t) && FirstOccurrenceOrder([x] + t, s)
  {
    var r := [x] + t;
    forall i | 0 <= i < |r| ensures r[i] in s {
      if i > 0 {
        assert r[i] == t[i - 1];
      }
    }
    forall i, j | 0 <= i < j < |r| ensures r[i] != r[j] && IndexOf(s, r[i]) < IndexOf(s, r[j]) {
      assert r[j] == t[j - 1];
      if i == 0 {
        assert t[j - 1] in t;
      } else {
        assert r[i] == t[i - 1];
        OrderedPair(t, s, i - 1, j - 1);
      }
    }
  }

  /** Python's slice `s[:n]` for a non-negative `n`. */
  function Take<T>(s: seq<T>, n: nat): (r: seq<T>)
    ensures |r| == if n <= |s| then n else |s|
    ensures r == s[..|r|]
  {
    if n <= |s| then s[..n] else s
  }

  /** The number of occurrences of `x` in `s` (what `Counter(s)[x]` holds). */
  function Count<T(==)>(s: seq<T>, x: T): nat
    decreases |s|
  {
    if s == [] then 0 else (if s[0] == x then 1 else 0) + Count(s[1..], x)
  }

  /** Appending one element adds one occurrence of it and none of anything else. */
  lemma {:induction false} CountAppend<T>(s: seq<T>, y: T, x: T)
    ensures Count(s + [y], x) == Count(s, x) + (if y == x then 1 else 0)
    decreases |s|
  {
    if s != [] {
      CountAppend(s[1..], y, x);
      assert (s + [y])[1..] == s[1..] + [y];
    }
  }

  /** An element occurs at least once exactly when it is in the sequence. */
  lemma {:induction false} CountPositive<T>(s: seq<T>, x: T)
    ensures Count(s, x) > 0 <==> x in s
    decreases |s|
  {
    if s != [] {
      CountPositive(s[1..], x);
      assert x in s <==> s[0] == x || x in s[1..];
    }
  }

  /** `list(d.keys())` of a dictionary given as its (key, value) items in insertion order. */
  function Keys<K, V>(items: seq<(K, V)>): (ks: seq<K>)
    ensures |ks| == |items|
    ensures forall i :: 0 <= i < |items| ==> ks[i] == items[i].0
  {
    seq(|items|, i requires 0 <= i < |items| => items[i].0)
  }

  /** `list(d.values())` of a dictionary given as its (key, value) items in insertion order. */
  function Values<K, V>(items: seq<(K, V)>): (vs: seq<V>)
    ensures |vs| == |items|
    ensures forall i :: 0 <= i < |items| ==> vs[i] == items[i].1
  {
    seq(|items|, i requires 0 <= i < |items| => items[i].1)
  }

  /**
   * `d[k] = v` on a dictionary given as its items in insertion order: a key
   * already present keeps its place and takes the new value, a new key goes
   * at the end.
   */
  function Assign<K(==), V>(items: seq<(K, V)>, k: K, v: V): (r: seq<(K, V)>)
    ensures Keys(r) == if k in Keys(items) then Keys(items) else Keys(items) + [k]
    ensures k in Keys(r) && r[IndexOf(Keys(r), k)] == (k, v)
    ensures forall i :: 0 <= i < |r| && i != IndexOf(Keys(r), k) ==> i < |items| && r[i] == items[i]
  {
    var ks := Keys(items);
    if k in ks then
      var r := items[IndexOf(ks, k) := (k, v)];
      assert Keys(r) == ks;
      r
    else
      var r := items + [(k, v)];
      assert Keys(r) == ks + [k];
      IndexOfUnique(Keys(r), k, |items|);
      r
  }
}
