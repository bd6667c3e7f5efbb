/**
 * Resolution of a set of elements against a unique catalogue: each element
 * stands for the catalogue entry with its identity, and elements the
 * catalogue does not know are appended to it first. The registry resolves a
 * candidate's tags this way.
 */
module Catalogues {
  import opened Text
  import opened UniqueLists
  import opened KeyedSets

  /** The catalogue entries for the elements of `s` the catalogue knows. */
  function ResolveAll<T, K(==)>(ts: seq<T>, key: T -> K, s: set<T>): set<T>
  {
    set t | t in s && Find(ts, key, t) >= 0 :: ts[Find(ts, key, t)]
  }

  /**
   * What resolution means: every result is a catalogue entry with the
   * identity of some input, every input the catalogue knows is represented,
   * and there are no more results than inputs.
   */
  lemma ResolveAllMeaning<T, K>(ts: seq<T>, key: T -> K, s: set<T>)
    ensures forall u :: u in ResolveAll(ts, key, s) ==> u in ts && exists t :: t in s && key(u) == key(t)
    ensures forall t :: t in s && Find(ts, key, t) >= 0 ==> exists u :: u in ResolveAll(ts, key, s) && key(u) == key(t)
    ensures |ResolveAll(ts, key, s)| <= |s|
  {
    forall t | t in s && Find(ts, key, t) >= 0
      ensures exists u :: u in ResolveAll(ts, key, s) && key(u) == key(t)
    {
      assert ts[Find(ts, key, t)] in ResolveAll(ts, key, s);
    }
    ImageSize(ts, key, s);
  }

  /** No two resolved elements share an identity: each identity resolves to its first catalogue entry. */
  lemma ResolvedIdentitiesDistinct<T, K>(ts: seq<T>, key: T -> K, s: set<T>)
    ensures forall u, v :: u in ResolveAll(ts, key, s) && v in ResolveAll(ts, key, s) && key(u) == key(v) ==> u == v
  {
    forall u, v | u in ResolveAll(ts, key, s) && v in ResolveAll(ts, key, s) && key(u) == key(v) ensures u == v {
      var a :| a in s && Find(ts, key, a) >= 0 && u == ts[Find(ts, key, a)];
      var b :| b in s && Find(ts, key, b) >= 0 && v == ts[Find(ts, key, b)];
      FindByIdentity(ts, key, a, b);
    }
  }

  /** The lookup depends only on the identity it looks for. */
  lemma FindByIdentity<T, K>(ts: seq<T>, key: T -> K, a: T, b: T)
    requires key(a) == key(b)
    ensures Find(ts, key, a) == Find(ts, key, b)
  {
  }

  lemma {:induction false} ImageSize<T, K>(ts: seq<T>, key: T -> K, s: set<T>)
    ensures |ResolveAll(ts, key, s)| <= |s|
    decreases |s|
  {
    if s != {} {
      var x :| x in s;
      ImageSize(ts, key, s - {x});
      if Find(ts, key, x) >= 0 {
        assert ResolveAll(ts, key, s) == ResolveAll(ts, key, s - {x}) + {ts[Find(ts, key, x)]};
      } else {
        assert ResolveAll(ts, key, s) == ResolveAll(ts, key, s - {x});
      }
    }
  }

  /** Elements that already are entries of a unique catalogue resolve to themselves. */
  lemma ResolveAllOfEntries<T, K>(ts: seq<T>, key: T -> K, s: set<T>)
    requires Unique(ts, key)
    requires forall t :: t in s ==> t in ts
    ensures ResolveAll(ts, key, s) == s
  {
    forall t | t in s ensures Find(ts, key, t) >= 0 && ts[Find(ts, key, t)] == t {
      var k :| 0 <= k < |ts| && ts[k] == t;
      FindOfEntry(ts, key, k);
    }
    assert forall u :: u in ResolveAll(ts, key, s) ==> u in s;
    forall t | t in s ensures t in ResolveAll(ts, key, s) {
      assert ts[Find(ts, key, t)] == t;
    }
  }

  /** Growing the catalogue at its end does not change how known elements resolve. */
  lemma ResolveAllPrefix<T, K>(b: seq<T>, c: seq<T>, key: T -> K, s: set<T>)
    requires |b| <= |c| && c[..|b|] == b
    requires forall t :: t in s ==> Find(b, key, t) >= 0
    ensures ResolveAll(c, key, s) == ResolveAll(b, key, s)
  {
    forall t | t in s ensures Find(c, key, t) == Find(b, key, t) && c[Find(c, key, t)] == b[Find(b, key, t)] {
      FindPrefix(b, c, key, t);
    }
  }

  /**
   * The catalogue `after` grew from `before` at its end, only by elements of
   * `src`, and now knows every element of `src`.
   */
  predicate Extends<T, K(==)>(before: seq<T>, after: seq<T>, key: T -> K, src: set<T>)
  {
    |before| <= |after| && after[..|before|] == before &&
    (forall k :: |before| <= k < |after| ==> after[k] in src) &&
    (forall t :: t in src ==> Find(after, key, t) >= 0)
  }

  /** The first entry an extension added, if any, came from the source. */
  lemma ExtendsFirstAdded<T, K>(before: seq<T>, after: seq<T>, key: T -> K, src: set<T>)
    requires Extends(before, after, key, src)
    ensures |after| > |before| ==> after[|before|] in src
  {
  }

  lemma ExtendsTrans<T, K>(a: seq<T>, b: seq<T>, c: seq<T>, key: T -> K, s1: set<T>, s2: set<T>)
    requires Extends(a, b, key, s1) && Extends(b, c, key, s2)
    ensures Extends(a, c, key, s1 + s2)
  {
    assert c[..|a|] == b[..|a|];
    forall t | t in s1 ensures Find(c, key, t) >= 0 {
      FindPrefix(b, c, key, t);
    }
    forall k | |a| <= k < |c| ensures c[k] in s1 + s2 {
      if k < |b| { assert c[k] == b[k]; }
    }
  }

  /** One element resolved: it is appended if unknown, and its entry joins the result. */
  lemma ResolveOneStep<T, K>(before: seq<T>, was: seq<T>, now: seq<T>, key: T -> K, done: set<T>, t: T)
    requires Extends(before, was, key, done)
    requires now == if Find(was, key, t) < 0 then was + [t] else was
    ensures Extends(before, now, key, done + {t})
    ensures Find(now, key, t) >= 0
    ensures ResolveAll(now, key, done + {t}) == ResolveAll(was, key, done) + {now[Find(now, key, t)]}
  {
    assert now[..|was|] == was;
    assert Find(now, key, t) >= 0 by {
      if Find(was, key, t) < 0 {
        assert now[|was|] == t;
      }
    }
    assert Extends(was, now, key, {t});
    ExtendsTrans(before, was, now, key, done, {t});
    ResolveAllPrefix(was, now, key, done);
    assert ResolveAll(now, key, done + {t}) == ResolveAll(now, key, done) + {now[Find(now, key, t)]};
  }

  /**
   * The resolution loop, over the set in its unspecified iteration order:
   * each unknown element is appended to the catalogue, and the entry standing
   * for each element is collected.
   */
  method ResolveInto<T, K(==)>(ts: seq<T>, key: T -> K, s: set<T>) returns (grown: seq<T>, resolved: set<T>)
    requires Unique(ts, key)
    ensures Unique(grown, key)
    ensures Extends(ts, grown, key, s)
    ensures resolved == ResolveAll(grown, key, s)
    ensures (forall t :: t in s ==> Find(ts, key, t) >= 0) ==> grown == ts
  {
    var remaining := s;
    ghost var done: set<T> := {};
    grown := ts;
    resolved := {};
    assert ts[..|ts|] == ts;
    while remaining != {}
      invariant done + remaining == s && done !! remaining
      invariant Unique(grown, key)
      invariant Extends(ts, grown, key, done)
      invariant resolved == ResolveAll(grown, key, done)
      invariant (forall t :: t in s ==> Find(ts, key, t) >= 0) ==> grown == ts
      decreases |remaining|
    {
      var t :| t in remaining;
      ghost var was := grown;
      if Find(grown, key, t) < 0 {
        var added := Add(grown, key, t, ());
        grown := added.value;
      }
      ResolveOneStep(ts, was, grown, key, done, t);
      resolved := resolved + {grown[Find(grown, key, t)]};
      MoveOne(s, done, remaining, t);
      done := done + {t};
      remaining := remaining - {t};
    }
  }
}
