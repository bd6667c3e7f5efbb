/**
 * Order-preserving selections from a sequence: by a predicate, as a
 * stream `filter` does, and by excluding a set of identity keys, which is
 * what removing candidates one by one from a unique list amounts to.
 */
module Sequences {
  import opened Text
  import opened UniqueLists

  /** The elements of `s` satisfying `keep`, in their order in `s`. */
  function Filter<T>(s: seq<T>, keep: T -> bool): (r: seq<T>)
    ensures |r| <= |s|
    decreases |s|
  {
    if s == [] then []
    else Filter(s[..|s| - 1], keep) + (if keep(s[|s| - 1]) then [s[|s| - 1]] else [])
  }

  /** The filter keeps exactly the elements satisfying the predicate. */
  lemma {:induction false} FilterMembers<T(!new)>(s: seq<T>, keep: T -> bool)
    ensures forall x :: x in Filter(s, keep) <==> x in s && keep(x)
    decreases |s|
  {
    if s != [] {
      var p := s[..|s| - 1];
      FilterMembers(p, keep);
      assert s == p + [s[|s| - 1]];
    }
  }

  function Not<T>(f: T -> bool): T -> bool
  {
    x => !f(x)
  }

  function And<T>(f: T -> bool, g: T -> bool): T -> bool
  {
    x => f(x) && g(x)
  }

  /** Filtering twice by the same predicate is filtering once. */
  lemma {:induction false} FilterIdempotent<T(!new)>(s: seq<T>, f: T -> bool)
    ensures Filter(Filter(s, f), f) == Filter(s, f)
    decreases |s|
  {
    if s != [] {
      var p := s[..|s| - 1];
      var y := s[|s| - 1];
      FilterIdempotent(p, f);
      if f(y) {
        FilterSnoc(Filter(p, f), f, y);
      } else {
        assert Filter(s, f) == Filter(p, f);
      }
    }
  }

  /** Filtering by `f` and then by `g` is filtering by both at once. */
  lemma {:induction false} FilterFilter<T(!new)>(s: seq<T>, f: T -> bool, g: T -> bool)
    ensures Filter(Filter(s, f), g) == Filter(s, And(f, g))
    decreases |s|
  {
    if s != [] {
      var p := s[..|s| - 1];
      var y := s[|s| - 1];
      FilterFilter(p, f, g);
      if f(y) {
        FilterSnoc(Filter(p, f), g, y);
      } else {
        assert Filter(s, f) == Filter(p, f);
      }
    }
  }

  /** Filtering a sequence with one more element at its end. */
  lemma FilterSnoc<T(!new)>(p: seq<T>, f: T -> bool, y: T)
    ensures Filter(p + [y], f) == Filter(p, f) + (if f(y) then [y] else [])
  {
    assert (p + [y])[..|p|] == p;
  }

  /** A filter every element passes keeps the whole sequence. */
  lemma {:induction false} FilterAll<T(!new)>(s: seq<T>, f: T -> bool)
    requires forall x :: x in s ==> f(x)
    ensures Filter(s, f) == s
    decreases |s|
  {
    if s != [] {
      var p, y := s[..|s| - 1], s[|s| - 1];
      assert s == p + [y];
      forall x | x in p ensures f(x) {
        assert x in s;
      }
      FilterAll(p, f);
      assert f(y);
    }
  }

  /** Predicates that agree on the elements of `s` select the same elements. */
  lemma {:induction false} FilterAgree<T(!new)>(s: seq<T>, f: T -> bool, g: T -> bool)
    requires forall x :: x in s ==> f(x) == g(x)
    ensures Filter(s, f) == Filter(s, g)
    decreases |s|
  {
    if s != [] {
      var p := s[..|s| - 1];
      assert forall x :: x in p ==> x in s;
      FilterAgree(p, f, g);
    }
  }

  /** A filter of a unique list is unique. */
  lemma {:induction false} FilterUnique<T(!new), K>(s: seq<T>, f: T -> bool, key: T -> K)
    requires Unique(s, key)
    ensures Unique(Filter(s, f), key)
    decreases |s|
  {
    if s != [] {
      var p := s[..|s| - 1];
      var y := s[|s| - 1];
      FilterUnique(p, f, key);
      FilterMembers(p, f);
      var q := Filter(p, f);
      forall j | 0 <= j < |q| ensures key(q[j]) != key(y) {
        assert q[j] in q;
        assert q[j] in p;
        var k :| 0 <= k < |p| && p[k] == q[j];
        assert s[k] == p[k];
      }
    }
  }

  /** The identity keys of the elements of `s`. */
  function Keys<T, K>(s: seq<T>, key: T -> K): (r: set<K>)
    ensures forall x :: x in s ==> key(x) in r
  {
    set i | 0 <= i < |s| :: key(s[i])
  }

  /** The elements of `s` whose key is not in `ks`, in their order in `s`. */
  function Without<T, K(==)>(s: seq<T>, key: T -> K, ks: set<K>): (r: seq<T>)
    ensures |r| <= |s|
    decreases |s|
  {
    if s == [] then []
    else Without(s[..|s| - 1], key, ks) + (if key(s[|s| - 1]) in ks then [] else [s[|s| - 1]])
  }

  /** The exclusion keeps exactly the elements whose key is not excluded. */
  lemma {:induction false} WithoutMembers<T(!new), K>(s: seq<T>, key: T -> K, ks: set<K>)
    ensures forall x :: x in Without(s, key, ks) <==> x in s && key(x) !in ks
    decreases |s|
  {
    if s != [] {
      var p := s[..|s| - 1];
      WithoutMembers(p, key, ks);
      assert s == p + [s[|s| - 1]];
    }
  }

  /** Excluding no key keeps the whole sequence. */
  lemma {:induction false} WithoutNothing<T, K>(s: seq<T>, key: T -> K)
    ensures Without(s, key, {}) == s
    decreases |s|
  {
    if s != [] {
      WithoutNothing(s[..|s| - 1], key);
    }
  }

  /** A key no element has does not change what is excluded. */
  lemma {:induction false} WithoutIrrelevant<T(!new), K>(s: seq<T>, key: T -> K, ks: set<K>, k: K)
    requires forall x :: x in s ==> key(x) != k
    ensures Without(s, key, ks + {k}) == Without(s, key, ks)
    decreases |s|
  {
    if s != [] {
      var p := s[..|s| - 1];
      assert forall x :: x in p ==> x in s;
      WithoutIrrelevant(p, key, ks, k);
    }
  }

  /** In a unique list, no element before the last has the last one's key. */
  lemma LastKeyFresh<T(!new), K>(s: seq<T>, key: T -> K)
    requires Unique(s, key) && s != []
    ensures Unique(s[..|s| - 1], key)
    ensures forall z :: z in s[..|s| - 1] ==> key(z) != key(s[|s| - 1])
  {
    var p := s[..|s| - 1];
    assert forall i :: 0 <= i < |p| ==> p[i] == s[i];
  }

  /**
   * Removing, by identity, one element of a unique list that the exclusion
   * has kept is excluding its key as well.
   */
  lemma {:induction false} RemoveFromWithout<T(!new), K, E>(s: seq<T>, key: T -> K, ks: set<K>, x: T, missing: E)
    requires Unique(s, key) && x in s && key(x) !in ks
    ensures Remove(Without(s, key, ks), key, x, missing) == Ok(Without(s, key, ks + {key(x)}))
    decreases |s|
  {
    var p := s[..|s| - 1];
    var y := s[|s| - 1];
    assert s == p + [y];
    LastKeyFresh(s, key);
    if x == y {
      RemoveLast(p, key, ks, x, missing);
    } else {
      assert x in p;
      RemoveFromWithout(p, key, ks, x, missing);
      RemoveBeforeLast(p, key, ks, x, y, missing);
    }
  }

  lemma RemoveLast<T(!new), K, E>(p: seq<T>, key: T -> K, ks: set<K>, x: T, missing: E)
    requires forall z :: z in p ==> key(z) != key(x)
    requires key(x) !in ks
    ensures Remove(Without(p + [x], key, ks), key, x, missing) == Ok(Without(p + [x], key, ks + {key(x)}))
  {
    assert (p + [x])[..|p|] == p;
    var w := Without(p, key, ks);
    assert Without(p + [x], key, ks) == w + [x];
    WithoutMembers(p, key, ks);
    assert forall j :: 0 <= j < |w| ==> key(w[j]) != key(x) by {
      forall j | 0 <= j < |w| ensures key(w[j]) != key(x) {
        assert w[j] in w;
        assert w[j] in p;
      }
    }
    assert Find(w + [x], key, x) == |w| by {
      assert (w + [x])[|w|] == x;
    }
    assert (w + [x])[..|w|] + (w + [x])[|w| + 1..] == w;
    WithoutIrrelevant(p, key, ks, key(x));
  }

  lemma RemoveBeforeLast<T(!new), K, E>(p: seq<T>, key: T -> K, ks: set<K>, x: T, y: T, missing: E)
    requires x in p && key(x) != key(y)
    requires Remove(Without(p, key, ks), key, x, missing) == Ok(Without(p, key, ks + {key(x)}))
    ensures Remove(Without(p + [y], key, ks), key, x, missing) == Ok(Without(p + [y], key, ks + {key(x)}))
  {
    assert (p + [y])[..|p|] == p;
    var w := Without(p, key, ks);
    var tail: seq<T> := if key(y) in ks then [] else [y];
    assert Without(p + [y], key, ks) == w + tail;
    assert Without(p + [y], key, ks + {key(x)}) == Without(p, key, ks + {key(x)}) + tail;
    RemoveAppend(w, tail, key, x, missing);
  }

  /** Removing an element found in `w` from `w + tail` leaves `tail` alone. */
  lemma RemoveAppend<T(!new), K, E>(w: seq<T>, tail: seq<T>, key: T -> K, x: T, missing: E)
    requires Remove(w, key, x, missing).Ok?
    ensures Remove(w + tail, key, x, missing) == Ok(Remove(w, key, x, missing).value + tail)
  {
    var i := Find(w, key, x);
    var c := w + tail;
    assert c[..|w|] == w;
    FindPrefix(w, c, key, x);
    var rest := w[..i] + w[i + 1..];
    assert c[..i] + c[i + 1..] == rest + tail by {
      assert c[..i] == w[..i];
      assert c[i + 1..] == w[i + 1..] + tail;
    }
  }

  /**
   * Excluding the keys of the elements a filter selects from a unique list
   * keeps exactly the elements the filter rejects.
   */
  lemma {:induction false} WithoutFiltered<T(!new), K>(s: seq<T>, key: T -> K, f: T -> bool)
    requires Unique(s, key)
    ensures Without(s, key, Keys(Filter(s, f), key)) == Filter(s, Not(f))
    decreases |s|
  {
    if s != [] {
      var p := s[..|s| - 1];
      var y := s[|s| - 1];
      LastKeyFresh(s, key);
      WithoutFiltered(p, key, f);
      var q := Filter(p, f);
      var ks := Keys(q, key);
      FilterMembers(p, f);
      if f(y) {
        assert Filter(s, f) == q + [y];
        KeysSnoc(q, key, y);
        WithoutIrrelevant(p, key, ks, key(y));
      } else {
        assert Filter(s, f) == q;
        KeysFresh(q, key, y);
      }
    }
  }

  lemma KeysSnoc<T(!new), K>(q: seq<T>, key: T -> K, y: T)
    ensures Keys(q + [y], key) == Keys(q, key) + {key(y)}
  {
    assert forall i :: 0 <= i < |q| ==> (q + [y])[i] == q[i];
    assert (q + [y])[|q|] == y;
  }

  lemma KeysFresh<T(!new), K>(q: seq<T>, key: T -> K, y: T)
    requires forall z :: z in q ==> key(z) != key(y)
    ensures key(y) !in Keys(q, key)
  {
    forall i | 0 <= i < |q| ensures key(q[i]) != key(y) {
      assert q[i] in q;
    }
  }
}
