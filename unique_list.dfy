/**
 * A sequence kept free of two elements with the same identity key: the shape
 * shared by the registry's tag catalogue and its candidate list. Each
 * operation either succeeds or reports the error value it is given.
 */
module UniqueLists {
  import opened Text

  /** The position of the element with the identity of `x`, or -1. */
  function Find<T, K(==)>(s: seq<T>, key: T -> K, x: T): (i: int)
    ensures -1 <= i < |s|
    ensures i >= 0 ==> key(s[i]) == key(x) && forall j :: 0 <= j < i ==> key(s[j]) != key(x)
    ensures i < 0 ==> forall j :: 0 <= j < |s| ==> key(s[j]) != key(x)
    decreases |s|
  {
    if s == [] then -1
    else
      var k := Find(s[..|s| - 1], key, x);
      if k >= 0 then k
      else if key(s[|s| - 1]) == key(x) then |s| - 1
      else -1
  }

  predicate Unique<T, K(==)>(s: seq<T>, key: T -> K)
  {
    forall i, j :: 0 <= i < j < |s| ==> key(s[i]) != key(s[j])
  }

  /** In a unique list, an element is found at its own position. */
  lemma FindOfEntry<T, K>(s: seq<T>, key: T -> K, k: nat)
    requires Unique(s, key) && k < |s|
    ensures Find(s, key, s[k]) == k
  {
    assert forall j :: 0 <= j < k ==> key(s[j]) != key(s[k]);
  }

  /** In a unique list, the entry with the identity of `x` is the one `Find` locates. */
  lemma FindByKey<T, K>(s: seq<T>, key: T -> K, x: T, u: T)
    requires Unique(s, key) && u in s && key(u) == key(x)
    ensures Find(s, key, x) >= 0 && s[Find(s, key, x)] == u
  {
    var k :| 0 <= k < |s| && s[k] == u;
    assert Find(s, key, x) >= 0;
  }

  /** Extending a list at its end does not move what it already finds. */
  lemma FindPrefix<T, K>(b: seq<T>, c: seq<T>, key: T -> K, x: T)
    requires |b| <= |c| && c[..|b|] == b
    requires Find(b, key, x) >= 0
    ensures Find(c, key, x) == Find(b, key, x)
  {
    assert forall j :: 0 <= j < |b| ==> c[j] == b[j];
  }

  /**
   * The elements appended to a unique list have identities the original
   * list did not hold.
   */
  lemma AppendedAreFresh<T, K>(b: seq<T>, c: seq<T>, key: T -> K)
    requires |b| <= |c| && c[..|b|] == b && Unique(c, key)
    ensures forall k :: |b| <= k < |c| ==> Find(b, key, c[k]) < 0
  {
    forall k | |b| <= k < |c| ensures Find(b, key, c[k]) < 0 {
      assert forall j :: 0 <= j < |b| ==> key(b[j]) == key(c[j]) != key(c[k]);
    }
  }

  /** `add`: an element whose identity is already present is refused. */
  function Add<T, K(==), E>(s: seq<T>, key: T -> K, x: T, duplicate: E): (r: Result<seq<T>, E>)
    ensures r.Err? <==> exists i :: 0 <= i < |s| && key(s[i]) == key(x)
    ensures r.Err? ==> r.error == duplicate
    ensures r.Ok? ==> r.value == s + [x] && Find(r.value, key, x) == |s|
    ensures r.Ok? && Unique(s, key) ==> Unique(r.value, key)
  {
    if Find(s, key, x) >= 0 then Err(duplicate)
    else
      assert (s + [x])[..|s|] == s;
      Ok(s + [x])
  }

  /**
   * `set`: the element with the target's identity is replaced in place; a
   * missing target, or an edit onto another element's identity, is refused.
   */
  function Update<T, K(==), E>(s: seq<T>, key: T -> K, target: T, edited: T, missing: E, duplicate: E): (r: Result<seq<T>, E>)
    ensures Find(s, key, target) < 0 ==> r == Err(missing)
    ensures r.Ok? ==> Find(s, key, target) >= 0 && r.value == s[Find(s, key, target) := edited]
    ensures r.Err? && Find(s, key, target) >= 0 ==>
      r.error == duplicate && key(target) != key(edited) && exists j :: 0 <= j < |s| && key(s[j]) == key(edited)
    ensures r.Ok? && Unique(s, key) ==> Unique(r.value, key)
  {
    var i := Find(s, key, target);
    if i < 0 then Err(missing)
    else if key(target) != key(edited) && Find(s, key, edited) >= 0 then Err(duplicate)
    else Ok(s[i := edited])
  }

  /** `remove`: the element with the identity of `x` goes; a missing one is refused. */
  function Remove<T, K(==), E>(s: seq<T>, key: T -> K, x: T, missing: E): (r: Result<seq<T>, E>)
    ensures r.Err? <==> forall j :: 0 <= j < |s| ==> key(s[j]) != key(x)
    ensures r.Err? ==> r.error == missing
    ensures r.Ok? ==> Find(s, key, x) >= 0 && r.value == s[..Find(s, key, x)] + s[Find(s, key, x) + 1..]
    ensures r.Ok? && Unique(s, key) ==> Unique(r.value, key) && Find(r.value, key, x) < 0
  {
    var i := Find(s, key, x);
    if i < 0 then Err(missing)
    else
      RemoveAt(s, key, i, s[..i] + s[i + 1..]);
      Ok(s[..i] + s[i + 1..])
  }

  lemma RemoveAt<T, K>(s: seq<T>, key: T -> K, i: nat, rest: seq<T>)
    requires i < |s| && rest == s[..i] + s[i + 1..]
    ensures Unique(s, key) ==> Unique(rest, key)
    ensures Unique(s, key) ==> forall j :: 0 <= j < |rest| ==> key(rest[j]) != key(s[i])
  {
    assert forall j :: 0 <= j < |rest| ==> rest[j] == s[if j < i then j else j + 1];
  }

  /** Removing the element at i of a unique list drops that element and keeps every other one. */
  lemma RemoveAtMembers<T, K>(s: seq<T>, key: T -> K, i: nat)
    requires Unique(s, key) && i < |s|
    ensures s[i] !in s[..i] + s[i + 1..]
    ensures forall q :: q in s && q != s[i] ==> q in s[..i] + s[i + 1..]
  {
    var rest := s[..i] + s[i + 1..];
    RemoveAt(s, key, i, rest);
    forall q | q in s && q != s[i] ensures q in rest {
      var j :| 0 <= j < |s| && s[j] == q;
      assert rest[if j < i then j else j - 1] == q;
    }
  }

  /** `setAll`: a list holding two elements of the same identity is refused. */
  function Replace<T, K(==), E>(s: seq<T>, key: T -> K, duplicate: E): (r: Result<seq<T>, E>)
    ensures r.Ok? <==> forall i, j :: 0 <= i < j < |s| ==> key(s[i]) != key(s[j])
    ensures r.Ok? ==> r.value == s
    ensures r.Err? ==> r.error == duplicate
  {
    if Unique(s, key) then Ok(s) else Err(duplicate)
  }
}
