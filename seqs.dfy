/** The array operations the source relies on: `filter`, `find`/`findIndex` and `some`. */
module Seqs {
  import opened Wrappers

  /** `s.filter(p)`: the elements satisfying `p`, each as often as in `s` (`FilterMultiset`) and
   *  in their original order (`FilterConcat`). */
  function Filter<T>(p: T -> bool, s: seq<T>): (r: seq<T>)
    ensures |r| <= |s|
    ensures forall x | x in r :: x in s && p(x)
    ensures forall i | 0 <= i < |s| && p(s[i]) :: s[i] in r
    ensures forall i | 0 <= i < |r| :: p(r[i])
  {
    if s == [] then [] else (if p(s[0]) then [s[0]] else []) + Filter(p, s[1..])
  }

  /** A filter keeps an element that passes exactly as often as it occurs. */
  lemma {:induction false} FilterCount<T>(p: T -> bool, s: seq<T>, x: T)
    requires p(x)
    ensures multiset(Filter(p, s))[x] == multiset(s)[x]
  {
    if s != [] {
      FilterCount(p, s[1..], x);
      assert s == [s[0]] + s[1..];
    }
  }

  /** A filter adds nothing, and keeps every passing element as often as it occurs. */
  lemma {:induction false} FilterMultiset<T>(p: T -> bool, s: seq<T>)
    ensures multiset(Filter(p, s)) <= multiset(s)
    ensures forall i | 0 <= i < |s| && p(s[i]) :: multiset(Filter(p, s))[s[i]] == multiset(s)[s[i]]
  {
    FilterSubMultiset(p, s);
    forall i | 0 <= i < |s| && p(s[i]) {
      FilterCount(p, s, s[i]);
    }
  }

  /** A filter adds nothing. */
  lemma {:induction false} FilterSubMultiset<T>(p: T -> bool, s: seq<T>)
    ensures multiset(Filter(p, s)) <= multiset(s)
  {
    if s != [] {
      var head := if p(s[0]) then [s[0]] else [];
      FilterSubMultiset(p, s[1..]);
      assert s == [s[0]] + s[1..];
      assert multiset(s) == multiset([s[0]]) + multiset(s[1..]);
      assert multiset(Filter(p, s)) == multiset(head) + multiset(Filter(p, s[1..]));
      assert multiset(head) <= multiset([s[0]]);
    }
  }

  /** A filter keeps something exactly when some element passes it. */
  lemma FilterNonEmpty<T>(p: T -> bool, s: seq<T>)
    ensures Filter(p, s) != [] <==> exists i | 0 <= i < |s| :: p(s[i])
  {
    var r := Filter(p, s);
    if r != [] {
      assert r[0] in s;
      var i :| 0 <= i < |s| && s[i] == r[0];
      assert p(s[i]);
    }
  }

  /** A filter keeps at least two elements exactly when two different positions pass it. */
  lemma {:induction false} FilterAtLeastTwo<T>(p: T -> bool, s: seq<T>)
    ensures |Filter(p, s)| >= 2 <==> exists i, j | 0 <= i < j < |s| :: p(s[i]) && p(s[j])
  {
    if s != [] {
      var t := s[1..];
      FilterAtLeastTwo(p, t);
      FilterNonEmpty(p, t);
      assert |Filter(p, s)| == (if p(s[0]) then 1 else 0) + |Filter(p, t)|;
      if exists i, j | 0 <= i < j < |s| :: p(s[i]) && p(s[j]) {
        var i, j :| 0 <= i < j < |s| && p(s[i]) && p(s[j]);
        assert t[j - 1] == s[j];
        if i > 0 {
          assert t[i - 1] == s[i];
        }
      }
      if |Filter(p, s)| >= 2 {
        if p(s[0]) {
          var j :| 0 <= j < |t| && p(t[j]);
          assert s[j + 1] == t[j];
        } else {
          var i, j :| 0 <= i < j < |t| && p(t[i]) && p(t[j]);
          assert s[i + 1] == t[i] && s[j + 1] == t[j];
        }
      }
    }
  }

  /** Filtering a concatenation filters each part: the kept elements keep their relative order. */
  lemma {:induction false} FilterConcat<T>(p: T -> bool, a: seq<T>, b: seq<T>)
    ensures Filter(p, a + b) == Filter(p, a) + Filter(p, b)
  {
    if a == [] {
      assert a + b == b;
    } else {
      assert (a + b)[1..] == a[1..] + b;
      FilterConcat(p, a[1..], b);
    }
  }

  /** A filter that rejects nothing returns the whole sequence. */
  lemma {:induction false} FilterKeepsAll<T>(p: T -> bool, s: seq<T>)
    requires forall i | 0 <= i < |s| :: p(s[i])
    ensures Filter(p, s) == s
  {
    if s != [] {
      FilterKeepsAll(p, s[1..]);
    }
  }

  /** `s.findIndex(p)`: the first index whose element satisfies `p`, or None. */
  function FindIndex<T>(p: T -> bool, s: seq<T>): (r: Option<nat>)
    ensures r.Some? ==> r.value < |s| && p(s[r.value]) && forall j | 0 <= j < r.value :: !p(s[j])
    ensures r.None? <==> forall j | 0 <= j < |s| :: !p(s[j])
  {
    if s == [] then None
    else if p(s[0]) then Some(0)
    else match FindIndex(p, s[1..])
      case None => None
      case Some(i) => Some(i + 1)
  }

  /** `s.find(p)`: the first element satisfying `p`, or None. */
  function Find<T>(p: T -> bool, s: seq<T>): (r: Option<T>)
    ensures r.None? <==> forall j | 0 <= j < |s| :: !p(s[j])
    ensures r.Some? ==> exists i | 0 <= i < |s| :: s[i] == r.value && p(s[i]) && forall j | 0 <= j < i :: !p(s[j])
  {
    match FindIndex(p, s)
    case None => None
    case Some(i) => Some(s[i])
  }

  /** No two elements of `s` share a key. */
  predicate DistinctBy<T, K(==)>(key: T -> K, s: seq<T>)
  {
    forall i, j | 0 <= i < j < |s| :: key(s[i]) != key(s[j])
  }

  /** Filtering never introduces a shared key. */
  lemma {:induction false} FilterKeepsDistinct<T, K>(p: T -> bool, key: T -> K, s: seq<T>)
    requires DistinctBy(key, s)
    ensures DistinctBy(key, Filter(p, s))
  {
    if s != [] {
      FilterKeepsDistinct(p, key, s[1..]);
      var tail := Filter(p, s[1..]);
      forall j | 0 <= j < |tail| ensures key(s[0]) != key(tail[j]) {
        assert tail[j] in s[1..];
        var m :| 0 <= m < |s[1..]| && s[1..][m] == tail[j];
        assert s[m + 1] == tail[j];
      }
    }
  }

  /** Two tests that agree on every element of `s` keep the same elements. */
  lemma {:induction false} FilterPointwise<T>(p: T -> bool, q: T -> bool, s: seq<T>)
    requires forall i | 0 <= i < |s| :: p(s[i]) == q(s[i])
    ensures Filter(p, s) == Filter(q, s)
  {
    if s != [] {
      FilterPointwise(p, q, s[1..]);
    }
  }
}
