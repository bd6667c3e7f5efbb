/**
 * Sets whose elements carry an identity key, and the replacement of every
 * element with a given identity, as the tag cascade does to one candidate's
 * tags. The key is a parameter so that the identity stays opaque here.
 */
module KeyedSets {
  import opened Text

  /** Does the set hold an element with the identity of `target`? */
  predicate Holds<T, K(==)>(s: set<T>, key: T -> K, target: T)
  {
    exists t :: t in s && key(t) == key(target)
  }

  /**
   * The set after replacing the target: elements with the target's identity
   * are dropped and, if one was dropped and there is a replacement, the
   * replacement is added.
   */
  function Retag<T, K(==)>(s: set<T>, key: T -> K, target: T, repl: Option<T>): set<T>
  {
    (set t | t in s && key(t) != key(target)) + (if repl.Some? && Holds(s, key, target) then {repl.value} else {})
  }

  /** What the replacement promises about each element. */
  lemma RetagMeaning<T, K>(s: set<T>, key: T -> K, target: T, repl: Option<T>)
    ensures !Holds(s, key, target) ==> Retag(s, key, target, repl) == s
    ensures Holds(s, key, target) && repl.Some? ==> repl.value in Retag(s, key, target, repl)
    ensures forall t :: t in Retag(s, key, target, repl) && key(t) == key(target) ==> repl == Some(t)
    ensures forall t :: t in s && key(t) != key(target) ==> t in Retag(s, key, target, repl)
    ensures forall t :: t in Retag(s, key, target, repl) ==> t in s || repl == Some(t)
  {
  }

  /** Moving one element from the unseen part of a set to the seen part. */
  lemma MoveOne<T>(s: set<T>, done: set<T>, remaining: set<T>, t: T)
    requires done + remaining == s && done !! remaining && t in remaining
    ensures (done + {t}) + (remaining - {t}) == s && (done + {t}) !! (remaining - {t})
    ensures |remaining - {t}| < |remaining|
  {
  }

  lemma RetagStep<T, K>(done: set<T>, key: T -> K, t: T, target: T, repl: Option<T>)
    ensures Holds(done + {t}, key, target) <==> Holds(done, key, target) || key(t) == key(target)
    ensures Retag(done + {t}, key, target, repl) ==
      Retag(done, key, target, repl) + (if key(t) != key(target) then {t} else if repl.Some? then {repl.value} else {})
  {
    if key(t) == key(target) {
      assert (set u | u in done + {t} && key(u) != key(target)) == (set u | u in done && key(u) != key(target));
    } else {
      assert (set u | u in done + {t} && key(u) != key(target)) == (set u | u in done && key(u) != key(target)) + {t};
    }
  }

  /**
   * The loop over one set, in the set's unspecified iteration order:
   * elements with the target's identity are swapped for the replacement, and
   * `modified` records whether there was one.
   */
  method RetagOne<T, K(==)>(s: set<T>, key: T -> K, target: T, repl: Option<T>) returns (updated: set<T>, modified: bool)
    ensures modified <==> Holds(s, key, target)
    ensures updated == Retag(s, key, target, repl)
  {
    var remaining := s;
    ghost var done: set<T> := {};
    updated := {};
    modified := false;
    while remaining != {}
      invariant done + remaining == s && done !! remaining
      invariant modified <==> Holds(done, key, target)
      invariant updated == Retag(done, key, target, repl)
      decreases |remaining|
    {
      var t :| t in remaining;
      RetagStep(done, key, t, target, repl);
      MoveOne(s, done, remaining, t);
      if key(t) == key(target) {
        modified := true;
        if repl.Some? {
          updated := updated + {repl.value};
        }
      } else {
        updated := updated + {t};
      }
      done := done + {t};
      remaining := remaining - {t};
    }
  }
}
