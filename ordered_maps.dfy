/** A JavaScript `Map` as the server uses it: entries in insertion order, at most one per key.
 *  `set` on a present key overwrites the value in place, `set` on a new key appends, and `delete`
 *  removes the entry. Order matters wherever the source iterates a map (`entries()`). */
module OrderedMaps {
  import opened Wrappers

  datatype Entry<K, V> = Entry(key: K, value: V)

  predicate HasKey<K(==, !new), V>(m: seq<Entry<K, V>>, k: K)
  {
    exists i | 0 <= i < |m| :: m[i].key == k
  }

  /** The invariant every `Map` has: no key appears twice. */
  predicate DistinctKeys<K(==, !new), V>(m: seq<Entry<K, V>>)
  {
    forall i, j | 0 <= i < j < |m| :: m[i].key != m[j].key
  }

  /** The position of the entry for `k`: the first one, which is the only one in a `Map`. */
  function Find<K(==, !new), V>(m: seq<Entry<K, V>>, k: K): (r: Option<nat>)
    ensures r.Some? ==> r.value < |m| && m[r.value].key == k && forall j | 0 <= j < r.value :: m[j].key != k
    ensures r.None? <==> !HasKey(m, k)
  {
    if m == [] then None
    else if m[0].key == k then Some(0)
    else match Find(m[1..], k)
      case None => None
      case Some(i) => Some(i + 1)
  }

  /** Any index that holds `k` and has no `k` before it is the one `Find` returns. */
  lemma FindIsFirst<K(!new), V>(m: seq<Entry<K, V>>, k: K, i: nat)
    requires i < |m| && m[i].key == k && forall j | 0 <= j < i :: m[j].key != k
    ensures Find(m, k) == Some(i)
  {
  }

  /** `m.get(k)` for a present key. */
  function Get<K(==, !new), V>(m: seq<Entry<K, V>>, k: K): V
    requires HasKey(m, k)
  {
    m[Find(m, k).value].value
  }

  /** `m.get(k)` when `m` has no other entry for `k` before index `i`. */
  lemma GetAt<K(!new), V>(m: seq<Entry<K, V>>, k: K, i: nat)
    requires i < |m| && m[i].key == k && forall j | 0 <= j < i :: m[j].key != k
    ensures HasKey(m, k) && Get(m, k) == m[i].value
  {
    FindIsFirst(m, k, i);
  }

  /** In a map with distinct keys the entry at `i` is the one `get` finds. */
  lemma GetDistinct<K(!new), V>(m: seq<Entry<K, V>>, i: nat)
    requires DistinctKeys(m) && i < |m|
    ensures HasKey(m, m[i].key) && Get(m, m[i].key) == m[i].value
  {
    GetAt(m, m[i].key, i);
  }

  /** Two maps whose entries carry the same keys at the same positions and differ in value only
   *  at position `i` agree on the presence and value of every key but `m[i].key`. */
  lemma SameKeysExcept<K(!new), V>(m: seq<Entry<K, V>>, r: seq<Entry<K, V>>, i: nat)
    requires |r| == |m| && i < |m|
    requires forall j | 0 <= j < |m| :: r[j].key == m[j].key
    requires forall j | 0 <= j < |m| && j != i :: r[j] == m[j]
    ensures forall k' :: HasKey(r, k') <==> HasKey(m, k')
    ensures forall k' | k' != m[i].key && HasKey(m, k') :: Get(r, k') == Get(m, k')
  {
    forall k' | k' != m[i].key && HasKey(m, k') ensures Get(r, k') == Get(m, k') {
      var j := Find(m, k').value;
      GetAt(r, k', j);
    }
    forall k' ensures HasKey(r, k') <==> HasKey(m, k') {
      if HasKey(m, k') { var j := Find(m, k').value; assert r[j].key == k'; }
      if HasKey(r, k') { var j := Find(r, k').value; assert m[j].key == k'; }
    }
  }

  /** Appending an entry for a new key keeps every existing key and its value. */
  lemma AppendKeeps<K(!new), V>(m: seq<Entry<K, V>>, e: Entry<K, V>)
    requires !HasKey(m, e.key)
    ensures forall k' :: HasKey(m + [e], k') <==> k' == e.key || HasKey(m, k')
    ensures forall k' | HasKey(m, k') :: HasKey(m + [e], k') && Get(m + [e], k') == Get(m, k')
    ensures HasKey(m + [e], e.key) && Get(m + [e], e.key) == e.value
  {
    var r := m + [e];
    GetAt(r, e.key, |m|);
    forall k' | HasKey(m, k') ensures HasKey(r, k') && Get(r, k') == Get(m, k') {
      GetAt(r, k', Find(m, k').value);
    }
    forall k' ensures HasKey(r, k') <==> k' == e.key || HasKey(m, k') {
      if HasKey(m, k') { var j := Find(m, k').value; assert r[j].key == k'; }
      if HasKey(r, k') && k' != e.key { var j := Find(r, k').value; assert m[j].key == k'; }
    }
  }

  /** `m.set(k, v)`. Afterwards `k` maps to `v`, every other key keeps its value, the keys are
   *  those of `m` plus `k`, no key is duplicated, and the size grows only when `k` is new. */
  function Set<K(==, !new), V>(m: seq<Entry<K, V>>, k: K, v: V): (r: seq<Entry<K, V>>)
    ensures HasKey(r, k) && Get(r, k) == v
    ensures forall k' :: HasKey(r, k') <==> k' == k || HasKey(m, k')
    ensures forall k' | k' != k && HasKey(m, k') :: Get(r, k') == Get(m, k')
    ensures DistinctKeys(m) ==> DistinctKeys(r)
    ensures |r| == if HasKey(m, k) then |m| else |m| + 1
  {
    match Find(m, k)
    case Some(i) =>
      var r := m[i := Entry(k, v)];
      GetAt(r, k, i);
      SameKeysExcept(m, r, i);
      r
    case None =>
      AppendKeeps(m, Entry(k, v));
      m + [Entry(k, v)]
  }

  /** Removing the entry at `i` keeps every other entry, in order. */
  lemma RemoveAtKeeps<K(!new), V>(m: seq<Entry<K, V>>, i: nat)
    requires i < |m|
    ensures var r := m[..i] + m[i + 1..];
      && (forall k' | k' != m[i].key :: HasKey(r, k') <==> HasKey(m, k'))
      && (forall k' | k' != m[i].key && HasKey(m, k') && Find(m, k').value > i ::
            HasKey(r, k') && Get(r, k') == Get(m, k'))
      && (forall k' | HasKey(m, k') && Find(m, k').value < i :: HasKey(r, k') && Get(r, k') == Get(m, k'))
      && (DistinctKeys(m) ==> !HasKey(r, m[i].key) && DistinctKeys(r))
  {
    var r := m[..i] + m[i + 1..];
    assert forall j | 0 <= j < i :: r[j] == m[j];
    assert forall j | i <= j < |r| :: r[j] == m[j + 1];
    forall k' | k' != m[i].key && HasKey(m, k') && Find(m, k').value > i
      ensures HasKey(r, k') && Get(r, k') == Get(m, k')
    {
      var j := Find(m, k').value;
      GetAt(r, k', j - 1);
    }
    forall k' | HasKey(m, k') && Find(m, k').value < i
      ensures HasKey(r, k') && Get(r, k') == Get(m, k')
    {
      GetAt(r, k', Find(m, k').value);
    }
    forall k' | k' != m[i].key && HasKey(r, k') ensures HasKey(m, k') {
      var j := Find(r, k').value;
      if j < i { assert m[j].key == k'; } else { assert m[j + 1].key == k'; }
    }
  }

  /** `m.delete(k)`. Afterwards `k` is absent (in a map with distinct keys), every other key keeps
   *  its value, the order of the rest is unchanged, and the size drops only when `k` was present. */
  function Delete<K(==, !new), V>(m: seq<Entry<K, V>>, k: K): (r: seq<Entry<K, V>>)
    ensures DistinctKeys(m) ==> !HasKey(r, k) && DistinctKeys(r)
    ensures forall k' | k' != k :: HasKey(r, k') <==> HasKey(m, k')
    ensures forall k' | k' != k && HasKey(m, k') :: Get(r, k') == Get(m, k')
    ensures |r| == if HasKey(m, k) then |m| - 1 else |m|
  {
    match Find(m, k)
    case None => m
    case Some(i) =>
      RemoveAtKeeps(m, i);
      assert forall k' | k' != k && HasKey(m, k') :: Find(m, k').value != i;
      m[..i] + m[i + 1..]
  }

  /** `delete` removes one entry for `k` and keeps every other entry in its place in the order;
   *  deleting an absent key changes nothing. */
  lemma DeleteKeepsOrder<K(!new), V>(m: seq<Entry<K, V>>, k: K)
    ensures !HasKey(m, k) ==> Delete(m, k) == m
    ensures HasKey(m, k) ==> exists i | 0 <= i < |m| && m[i].key == k :: Delete(m, k) == m[..i] + m[i + 1..]
  {
    if HasKey(m, k) {
      var i := Find(m, k).value;
      assert Delete(m, k) == m[..i] + m[i + 1..];
    }
  }

  /** The step a loop over `m.entries()` takes when it deletes the entry it is visiting: once the
   *  visited prefix has been rewritten to `done`, which no longer holds the key, deleting it
   *  removes exactly that entry. */
  lemma DeleteVisited<K(!new), V>(done: seq<Entry<K, V>>, rest: seq<Entry<K, V>>)
    requires |rest| > 0 && !HasKey(done, rest[0].key)
    ensures Delete(done + rest, rest[0].key) == done + rest[1..]
  {
    FindIsFirst(done + rest, rest[0].key, |done|);
    assert (done + rest)[..|done|] == done;
    assert (done + rest)[|done| + 1..] == rest[1..];
  }

  /** The step a loop over `m.entries()` takes when it overwrites the entry it is visiting. */
  lemma SetVisited<K(!new), V>(done: seq<Entry<K, V>>, rest: seq<Entry<K, V>>, v: V)
    requires |rest| > 0 && !HasKey(done, rest[0].key)
    ensures Set(done + rest, rest[0].key, v) == done + [Entry(rest[0].key, v)] + rest[1..]
  {
    FindIsFirst(done + rest, rest[0].key, |done|);
  }

  /** Setting a key twice keeps only the second value. */
  lemma {:induction false} SetSet<K(!new), V>(m: seq<Entry<K, V>>, k: K, v1: V, v2: V)
    ensures Set(Set(m, k, v1), k, v2) == Set(m, k, v2)
  {
    match Find(m, k)
    case Some(i) =>
      FindIsFirst(m[i := Entry(k, v1)], k, i);
    case None =>
      FindIsFirst(m + [Entry(k, v1)], k, |m|);
  }

  /** Setting a key to the value it already has changes nothing. */
  lemma SetSame<K(!new), V>(m: seq<Entry<K, V>>, k: K)
    requires HasKey(m, k)
    ensures Set(m, k, Get(m, k)) == m
  {
    var i := Find(m, k).value;
    assert m[i := Entry(k, m[i].value)] == m;
  }

  /** Every value in `m` satisfies `p`. */
  predicate AllValues<K, V>(m: seq<Entry<K, V>>, p: V -> bool)
  {
    forall i | 0 <= i < |m| :: p(m[i].value)
  }

  lemma GetAllValues<K(!new), V>(m: seq<Entry<K, V>>, k: K, p: V -> bool)
    requires AllValues(m, p) && HasKey(m, k)
    ensures p(Get(m, k))
  {
    var i := Find(m, k).value;
    assert p(m[i].value);
  }

  /** `set` with a value satisfying `p` keeps every value satisfying `p`. */
  lemma SetAllValues<K(!new), V>(m: seq<Entry<K, V>>, k: K, v: V, p: V -> bool)
    requires AllValues(m, p) && p(v)
    ensures AllValues(Set(m, k, v), p)
  {
    match Find(m, k)
    case Some(i) =>
      assert Set(m, k, v) == m[i := Entry(k, v)];
    case None =>
      assert Set(m, k, v) == m + [Entry(k, v)];
  }

  /** `delete` keeps every value satisfying `p`. */
  lemma DeleteAllValues<K(!new), V>(m: seq<Entry<K, V>>, k: K, p: V -> bool)
    requires AllValues(m, p)
    ensures AllValues(Delete(m, k), p)
  {
    match Find(m, k)
    case None =>
    case Some(i) =>
      var r := m[..i] + m[i + 1..];
      assert Delete(m, k) == r;
      forall j | 0 <= j < |r| ensures p(r[j].value) {
        if j < i {
          assert r[j] == m[j];
        } else {
          assert r[j] == m[j + 1];
        }
      }
  }

  /** Deleting the key of entry `j` of a map with distinct keys removes exactly that entry: one
   *  entry fewer, that key gone, every other entry still there with its value. */
  lemma DeleteEntry<K(!new), V>(m: seq<Entry<K, V>>, j: nat)
    requires DistinctKeys(m) && j < |m|
    ensures |Delete(m, m[j].key)| == |m| - 1
    ensures DistinctKeys(Delete(m, m[j].key)) && !HasKey(Delete(m, m[j].key), m[j].key)
    ensures forall i | 0 <= i < |m| && i != j ::
              HasKey(Delete(m, m[j].key), m[i].key) && Get(Delete(m, m[j].key), m[i].key) == m[i].value
  {
    assert HasKey(m, m[j].key);
    forall i | 0 <= i < |m| && i != j
      ensures HasKey(Delete(m, m[j].key), m[i].key) && Get(Delete(m, m[j].key), m[i].key) == m[i].value
    {
      assert m[i].key != m[j].key;
      GetDistinct(m, i);
    }
  }
  /** A walk over `m.entries()` that rewrites each entry it visits by `f`: `None` deletes the entry,
   *  `Some(v)` overwrites its value with `v`. Entries keep their order. */
  function Refine<K(==, !new), V>(m: seq<Entry<K, V>>, f: V -> Option<V>): seq<Entry<K, V>>
  {
    if m == [] then []
    else
      var last := m[|m| - 1];
      Refine(m[..|m| - 1], f) + (match f(last.value) case None => [] case Some(v) => [Entry(last.key, v)])
  }

  /** The walk keeps only keys it was given, and at most as many entries. */
  lemma {:induction false} RefineKeys<K(!new), V>(m: seq<Entry<K, V>>, f: V -> Option<V>)
    ensures |Refine(m, f)| <= |m|
    ensures forall k | HasKey(Refine(m, f), k) :: HasKey(m, k)
  {
    if m != [] {
      var init := m[..|m| - 1];
      RefineKeys(init, f);
      forall k | HasKey(init, k) ensures HasKey(m, k) {
        var i := Find(init, k).value;
        assert m[i].key == k;
      }
    }
  }

  /** After the walk exactly the keys whose value `f` keeps are present, each with `f` of its old
   *  value, and no key is duplicated. */
  lemma {:induction false} RefineContents<K(!new), V>(m: seq<Entry<K, V>>, f: V -> Option<V>)
    requires DistinctKeys(m)
    ensures DistinctKeys(Refine(m, f))
    ensures forall k :: HasKey(Refine(m, f), k) <==> HasKey(m, k) && f(Get(m, k)).Some?
    ensures forall k | HasKey(Refine(m, f), k) :: Get(Refine(m, f), k) == f(Get(m, k)).value
  {
    if m != [] {
      var init := m[..|m| - 1];
      var last := m[|m| - 1];
      var pre := Refine(init, f);
      assert DistinctKeys(init);
      RefineContents(init, f);
      RefineKeys(init, f);
      assert !HasKey(init, last.key) by {
        assert forall j | 0 <= j < |init| :: init[j].key != last.key;
      }
      GetAt(m, last.key, |m| - 1);
      forall k | HasKey(init, k) ensures HasKey(m, k) && Get(m, k) == Get(init, k) {
        GetAt(m, k, Find(init, k).value);
      }
      forall k | HasKey(m, k) && k != last.key ensures HasKey(init, k) {
        var i := Find(m, k).value;
        assert init[i].key == k;
      }
      match f(last.value)
      case None =>
        assert Refine(m, f) == pre;
        forall k ensures HasKey(pre, k) <==> HasKey(m, k) && f(Get(m, k)).Some? {
          if k != last.key {
            assert HasKey(m, k) <==> HasKey(init, k);
          }
        }
      case Some(v) =>
        assert !HasKey(pre, last.key);
        AppendKeeps(pre, Entry(last.key, v));
        var r := pre + [Entry(last.key, v)];
        assert Refine(m, f) == r;
        forall i, j | 0 <= i < j < |r| ensures r[i].key != r[j].key {
          if j == |pre| { assert HasKey(pre, r[i].key); }
        }
        forall k ensures HasKey(r, k) <==> HasKey(m, k) && f(Get(m, k)).Some? {
          if k == last.key {
            assert HasKey(r, k);
          } else {
            assert HasKey(r, k) <==> HasKey(pre, k);
            assert HasKey(m, k) <==> HasKey(init, k);
          }
        }
    }
  }

  /** One step of the walk: with the first `i` entries already rewritten, deleting or overwriting
   *  entry `i` as `f` says (or leaving it alone when `f` keeps it as it is) yields the first
   *  `i + 1` entries rewritten, followed by the rest as they were. */
  lemma RefineStep<K(!new), V>(m: seq<Entry<K, V>>, i: nat, f: V -> Option<V>)
    requires DistinctKeys(m) && i < |m|
    ensures f(m[i].value).None? ==>
              Delete(Refine(m[..i], f) + m[i..], m[i].key) == Refine(m[..i + 1], f) + m[i + 1..]
    ensures f(m[i].value).Some? ==>
              Set(Refine(m[..i], f) + m[i..], m[i].key, f(m[i].value).value) == Refine(m[..i + 1], f) + m[i + 1..]
    ensures f(m[i].value) == Some(m[i].value) ==>
              Refine(m[..i], f) + m[i..] == Refine(m[..i + 1], f) + m[i + 1..]
  {
    var done := Refine(m[..i], f);
    var e := m[i];
    assert m[..i + 1][..i] == m[..i] && m[..i + 1][i] == e;
    assert m[i..][0] == e && m[i..][1..] == m[i + 1..];
    assert !HasKey(done, e.key) by {
      RefineKeys(m[..i], f);
      assert forall j | 0 <= j < i :: m[..i][j].key != e.key;
    }
    match f(e.value)
    case None =>
      assert Refine(m[..i + 1], f) == done;
      DeleteVisited(done, m[i..]);
    case Some(v) =>
      assert Refine(m[..i + 1], f) == done + [Entry(e.key, v)];
      SetVisited(done, m[i..], v);
      if v == e.value {
        assert Entry(e.key, v) == e;
        assert done + [e] + m[i + 1..] == done + m[i..];
      }
  }

  /** The walk keeps every value satisfying `p` when `f` maps such values to such values. */
  lemma RefineAllValues<K(!new), V>(m: seq<Entry<K, V>>, f: V -> Option<V>, p: V -> bool)
    requires DistinctKeys(m) && AllValues(m, p)
    requires forall v | p(v) && f(v).Some? :: p(f(v).value)
    ensures AllValues(Refine(m, f), p)
  {
    RefineContents(m, f);
    var r := Refine(m, f);
    forall i | 0 <= i < |r| ensures p(r[i].value) {
      GetDistinct(r, i);
      GetAllValues(m, r[i].key, p);
    }
  }
}
