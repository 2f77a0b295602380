/**
 * Python dictionaries as sequences of (key, value) pairs in insertion order.
 * Iteration order decides which match is "first" and which is "last", so the
 * order is part of the model, and so is Python's rule that assigning to a key
 * that is already present keeps that key's position and replaces its value.
 */
module OrderedMaps {
  import opened Options

  type OMap<K, V> = seq<(K, V)>

  /** The keys in iteration order (`list(d)`, `d.keys()`). */
  function Keys<K, V>(m: OMap<K, V>): (ks: seq<K>)
    ensures |ks| == |m|
    ensures forall i :: 0 <= i < |m| ==> ks[i] == m[i].0
  {
    seq(|m|, i requires 0 <= i < |m| => m[i].0)
  }

  /** What every Python dict satisfies: no key occurs twice. */
  ghost predicate KeysUnique<K, V>(m: OMap<K, V>) {
    forall i, j :: 0 <= i < j < |m| ==> m[i].0 != m[j].0
  }

  /** Position of the first entry with key `k`. */
  function IndexOf<K(==), V>(m: OMap<K, V>, k: K): (i: nat)
    requires k in Keys(m)
    ensures i < |m| && m[i].0 == k
    ensures forall j :: 0 <= j < i ==> m[j].0 != k
  {
    if m[0].0 == k then 0 else IndexOf(m[1..], k) + 1
  }

  /** `d.get(k)`. */
  function Get<K(==), V>(m: OMap<K, V>, k: K): (r: Option<V>)
    ensures r.Some? <==> k in Keys(m)
    ensures r.Some? ==> (k, r.value) in m
  {
    if k in Keys(m) then Some(m[IndexOf(m, k)].1) else None
  }

  /** `d[k] = v`: an existing key keeps its place, a new key goes last. */
  function Put<K(==), V>(m: OMap<K, V>, k: K, v: V): OMap<K, V> {
    if k in Keys(m) then m[IndexOf(m, k) := (k, v)] else m + [(k, v)]
  }

  /**
   * An existing key keeps its place and a new one goes last; the new entry is
   * present; every other entry keeps its place and value; keys stay unique.
   */
  lemma PutSpec<K, V>(m: OMap<K, V>, k: K, v: V)
    ensures k in Keys(m) ==> Keys(Put(m, k, v)) == Keys(m)
    ensures k !in Keys(m) ==> Keys(Put(m, k, v)) == Keys(m) + [k]
    ensures (k, v) in Put(m, k, v)
    ensures k in Keys(m) ==> Put(m, k, v)[IndexOf(m, k)] == (k, v)
    ensures k !in Keys(m) ==> Put(m, k, v)[|m|] == (k, v)
    ensures forall j :: 0 <= j < |m| && m[j].0 != k ==> Put(m, k, v)[j] == m[j]
    ensures forall p :: p in Put(m, k, v) && p.0 != k ==> p in m
    ensures KeysUnique(m) ==> KeysUnique(Put(m, k, v))
  {
    PutKeys(m, k, v);
    PutPlaces(m, k, v);
  }

  lemma PutKeys<K, V>(m: OMap<K, V>, k: K, v: V)
    ensures k in Keys(m) ==> Keys(Put(m, k, v)) == Keys(m)
    ensures k !in Keys(m) ==> Keys(Put(m, k, v)) == Keys(m) + [k]
    ensures (k, v) in Put(m, k, v)
    ensures KeysUnique(m) ==> KeysUnique(Put(m, k, v))
  {
  }

  lemma PutPlaces<K, V>(m: OMap<K, V>, k: K, v: V)
    ensures k in Keys(m) ==> Put(m, k, v)[IndexOf(m, k)] == (k, v)
    ensures k !in Keys(m) ==> Put(m, k, v)[|m|] == (k, v)
    ensures forall j :: 0 <= j < |m| && m[j].0 != k ==> Put(m, k, v)[j] == m[j]
    ensures forall p :: p in Put(m, k, v) && p.0 != k ==> p in m
  {
    var r := Put(m, k, v);
    if k in Keys(m) {
      var i := IndexOf(m, k);
      assert r == m[i := (k, v)];
      forall p | p in r && p.0 != k ensures p in m {
        var q :| 0 <= q < |r| && r[q] == p;
        assert q != i && m[q] == p;
      }
    } else {
      assert r == m + [(k, v)];
      forall p | p in r && p.0 != k ensures p in m {
        var q :| 0 <= q < |r| && r[q] == p;
        assert q < |m| && m[q] == p;
      }
    }
  }

  /** After `d[k] = v`, looking up `k` gives `v` and every other key gives what it gave before. */
  lemma PutGet<K, V>(m: OMap<K, V>, k: K, v: V, k': K)
    requires KeysUnique(m)
    ensures Get(Put(m, k, v), k) == Some(v)
    ensures k' != k ==> Get(Put(m, k, v), k') == Get(m, k')
  {
    PutSpec(m, k, v);
    var r := Put(m, k, v);
    GetUnique(r, k, v);
    if k' != k && k' in Keys(m) {
      var i := IndexOf(m, k');
      GetUnique(m, k', m[i].1);
      assert r[i] == m[i];
      GetUnique(r, k', m[i].1);
    }
  }

  /** Successive assignments `d[k] = v` for every (k, v) of `es`, in order (`d.update(es)`). */
  function PutAll<K(==), V>(m: OMap<K, V>, es: OMap<K, V>): (r: OMap<K, V>)
  {
    if es == [] then m
    else Put(PutAll(m, es[..|es| - 1]), es[|es| - 1].0, es[|es| - 1].1)
  }

  lemma PutAllSnoc<K, V>(m: OMap<K, V>, es: OMap<K, V>, k: K, v: V)
    ensures PutAll(m, es + [(k, v)]) == Put(PutAll(m, es), k, v)
  {
    assert (es + [(k, v)])[..|es|] == es;
  }

  /** The entries whose key is not in `s`, in their order (what `d.pop(k)` leaves, for each k of `s`). */
  function Without<K(==), V>(m: OMap<K, V>, s: set<K>): OMap<K, V> {
    if m == [] then []
    else
      var rest := Without(m[..|m| - 1], s);
      var last := m[|m| - 1];
      if last.0 in s then rest else rest + [last]
  }

  /** `Without` keeps exactly the entries whose key is outside `s`. */
  lemma {:induction false} WithoutPairs<K, V>(m: OMap<K, V>, s: set<K>)
    ensures forall p :: p in Without(m, s) ==> p in m && p.0 !in s
    ensures forall p :: p in m && p.0 !in s ==> p in Without(m, s)
  {
    if m != [] {
      var init := m[..|m| - 1];
      var last := m[|m| - 1];
      assert m == init + [last];
      WithoutPairs(init, s);
    }
  }

  /** Removing no key changes nothing. */
  lemma {:induction false} WithoutNothing<K, V>(m: OMap<K, V>)
    ensures Without(m, {}) == m
  {
    if m != [] {
      WithoutNothing(m[..|m| - 1]);
      assert m[..|m| - 1] + [m[|m| - 1]] == m;
    }
  }

  /** The keys `Without` leaves are the old keys outside `s`. */
  lemma WithoutKeys<K, V>(m: OMap<K, V>, s: set<K>)
    ensures forall k :: k in Keys(Without(m, s)) ==> k in Keys(m) && k !in s
    ensures forall k :: k in Keys(m) && k !in s ==> k in Keys(Without(m, s))
  {
    WithoutPairs(m, s);
    var r := Without(m, s);
    forall k | k in Keys(r) ensures k in Keys(m) && k !in s {
      var i :| 0 <= i < |r| && Keys(r)[i] == k;
      assert r[i] in r;
      var j :| 0 <= j < |m| && m[j] == r[i];
      assert Keys(m)[j] == k;
    }
    forall k | k in Keys(m) && k !in s ensures k in Keys(r) {
      var j :| 0 <= j < |m| && Keys(m)[j] == k;
      assert m[j] in m;
      var i :| 0 <= i < |r| && r[i] == m[j];
      assert Keys(r)[i] == k;
    }
  }

  /** Removing keys from a dict leaves a dict. */
  lemma {:induction false} WithoutUnique<K, V>(m: OMap<K, V>, s: set<K>)
    requires KeysUnique(m)
    ensures KeysUnique(Without(m, s))
  {
    if m != [] {
      var init := m[..|m| - 1];
      var last := m[|m| - 1];
      assert KeysUnique(init);
      WithoutUnique(init, s);
      WithoutPairs(init, s);
      var rest := Without(init, s);
      if last.0 !in s {
        forall i | 0 <= i < |rest| ensures rest[i].0 != last.0 {
          assert rest[i] in rest;
          var j :| 0 <= j < |init| && init[j] == rest[i];
          assert m[j] == init[j];
        }
      }
    }
  }

  lemma {:induction false} WithoutWithout<K, V>(m: OMap<K, V>, s: set<K>, t: set<K>)
    ensures Without(Without(m, s), t) == Without(m, s + t)
  {
    if m != [] {
      var init := m[..|m| - 1];
      var last := m[|m| - 1];
      WithoutWithout(init, s, t);
      var w := Without(init, s);
      if last.0 !in s {
        assert (w + [last])[..|w + [last]| - 1] == w;
      }
    }
  }

  /**
   * Assigning fresh keys one after another appends them: when no key of `es`
   * is in `m` and `es` has no duplicate key, `d.update(es)` is concatenation.
   */
  lemma {:induction false} PutAllFresh<K, V>(m: OMap<K, V>, es: OMap<K, V>)
    requires KeysUnique(es)
    requires forall i, j :: 0 <= i < |m| && 0 <= j < |es| ==> m[i].0 != es[j].0
    ensures PutAll(m, es) == m + es
  {
    if es != [] {
      var n := |es| - 1;
      var init, last := es[..n], es[n];
      PutAllFresh(m, init);
      assert last.0 !in Keys(m + init) by {
        forall i | 0 <= i < |m + init| ensures (m + init)[i].0 != last.0 {
          if i >= |m| {
            assert (m + init)[i] == es[i - |m|];
          }
        }
      }
      assert es == init + [last];
    }
  }

  /**
   * Assigning entries taken from one dict `d` to a sub-dict of `d` only adds
   * entries: re-assigning a key already present writes the value it already has.
   */
  lemma {:induction false} PutAllFromDict<K, V>(d: OMap<K, V>, m: OMap<K, V>, es: OMap<K, V>)
    requires KeysUnique(d) && KeysUnique(m)
    requires forall p :: p in m ==> p in d
    requires forall p :: p in es ==> p in d
    ensures KeysUnique(PutAll(m, es))
    ensures forall p :: p in PutAll(m, es) ==> p in m || p in es
    ensures forall p :: p in m || p in es ==> p in PutAll(m, es)
  {
    if es != [] {
      var init := es[..|es| - 1];
      var e := es[|es| - 1];
      assert forall p :: p in es ==> p in init || p == e by {
        assert es == init + [e];
      }
      PutAllFromDict(d, m, init);
      var acc := PutAll(m, init);
      PutIntoSubDict(d, acc, e);
      PutSpec(acc, e.0, e.1);
    }
  }

  lemma PutIntoSubDict<K, V>(d: OMap<K, V>, m: OMap<K, V>, e: (K, V))
    requires KeysUnique(d) && KeysUnique(m)
    requires forall p :: p in m ==> p in d
    requires e in d
    ensures forall p :: p in Put(m, e.0, e.1) ==> p in m || p == e
    ensures forall p :: p in m ==> p in Put(m, e.0, e.1)
  {
    if e.0 in Keys(m) {
      var i := IndexOf(m, e.0);
      assert m[i] in d;
      var a :| 0 <= a < |d| && d[a] == m[i];
      var b :| 0 <= b < |d| && d[b] == e;
      assert a == b;
      assert m[i] == e;
      assert m[i := e] == m;
    }
  }

  /** In a dict, the value stored under a key is what `get` returns. */
  lemma GetUnique<K, V>(m: OMap<K, V>, k: K, v: V)
    requires KeysUnique(m) && (k, v) in m
    ensures Get(m, k) == Some(v)
  {
    var j :| 0 <= j < |m| && m[j] == (k, v);
    assert Keys(m)[j] == k;
    var i := IndexOf(m, k);
    assert i == j;
  }

  /** Two dicts with no key in common concatenate into a dict. */
  lemma KeysUniqueConcat<K, V>(a: OMap<K, V>, b: OMap<K, V>)
    requires KeysUnique(a) && KeysUnique(b)
    requires forall i, j :: 0 <= i < |a| && 0 <= j < |b| ==> a[i].0 != b[j].0
    ensures KeysUnique(a + b)
  {
    forall i, j | 0 <= i < j < |a + b| ensures (a + b)[i].0 != (a + b)[j].0 {
      if j < |a| {
      } else if i >= |a| {
        assert (a + b)[i] == b[i - |a|] && (a + b)[j] == b[j - |a|];
      } else {
        assert (a + b)[j] == b[j - |a|];
      }
    }
  }

  lemma KeysConcat<K, V>(a: OMap<K, V>, b: OMap<K, V>)
    ensures Keys(a + b) == Keys(a) + Keys(b)
  {
  }

  /** In a dict that is a concatenation, a key of the right part is looked up there. */
  lemma GetConcat<K, V>(a: OMap<K, V>, b: OMap<K, V>, k: K)
    requires KeysUnique(a + b)
    ensures Get(a + b, k) == if k in Keys(b) then Get(b, k) else Get(a, k)
  {
    KeysConcat(a, b);
    if k in Keys(b) {
      var v := Get(b, k).value;
      assert (k, v) in a + b;
      GetUnique(a + b, k, v);
      assert KeysUnique(b) by {
        forall i, j | 0 <= i < j < |b| ensures b[i].0 != b[j].0 {
          assert (a + b)[|a| + i] == b[i] && (a + b)[|a| + j] == b[j];
        }
      }
      GetUnique(b, k, v);
    } else if k in Keys(a) {
      var v := Get(a, k).value;
      assert (k, v) in a + b;
      GetUnique(a + b, k, v);
      assert KeysUnique(a) by {
        forall i, j | 0 <= i < j < |a| ensures a[i].0 != a[j].0 {
          assert (a + b)[i] == a[i] && (a + b)[j] == a[j];
        }
      }
      GetUnique(a, k, v);
    }
  }

  /** Removing other keys does not change what a key is bound to. */
  lemma GetWithout<K, V>(m: OMap<K, V>, s: set<K>, k: K)
    requires KeysUnique(m) && k !in s
    ensures Get(Without(m, s), k) == Get(m, k)
  {
    WithoutPairs(m, s);
    WithoutKeys(m, s);
    WithoutUnique(m, s);
    if k in Keys(m) {
      var v := Get(m, k).value;
      assert (k, v) in Without(m, s);
      GetUnique(Without(m, s), k, v);
    }
  }

  /**
   * `for k in s: d.pop(k)` followed by `d.update(a)`, when `s` covers every
   * key the two share: the popped dict with `a` appended, again a dict.
   */
  lemma PopThenUpdate<K, V>(d: OMap<K, V>, a: OMap<K, V>, s: set<K>)
    requires KeysUnique(d) && KeysUnique(a)
    requires forall k :: k in Keys(a) && k in Keys(d) ==> k in s
    ensures PutAll(Without(d, s), a) == Without(d, s) + a
    ensures KeysUnique(Without(d, s) + a)
  {
    var w := Without(d, s);
    WithoutKeys(d, s);
    WithoutUnique(d, s);
    forall i, j | 0 <= i < |w| && 0 <= j < |a| ensures w[i].0 != a[j].0 {
      assert Keys(w)[i] == w[i].0;
      assert w[i].0 in Keys(d) && w[i].0 !in s;
      assert Keys(a)[j] == a[j].0;
      assert a[j].0 in Keys(d) ==> a[j].0 in s;
    }
    PutAllFresh(w, a);
    KeysUniqueConcat(w, a);
  }

  /** Assigning a fresh key twice in a row adds one entry. */
  lemma PutAgain<K, V>(m: OMap<K, V>, k: K, v: V)
    requires k !in Keys(m)
    ensures Put(m, k, v) == m + [(k, v)]
    ensures Put(m + [(k, v)], k, v) == m + [(k, v)]
  {
    var r := m + [(k, v)];
    assert Keys(r)[|m|] == k;
    var i := IndexOf(r, k);
    assert r[i := (k, v)] == r;
  }
}
