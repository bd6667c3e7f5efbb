/**
 * The registry: an ordered candidate list and a tag catalogue, both unique by
 * identity, and the rules that tie them together: tags on inserted candidates
 * are resolved to catalogue entries (unknown ones are registered first), and
 * editing or deleting a catalogue tag cascades to every candidate holding it.
 */
module Registry {
  import opened Text
  import opened Tags
  import opened Names
  import opened Persons
  import opened UniqueLists
  import opened KeyedSets
  import opened Catalogues

  /** The unchecked exceptions of the two unique lists. */
  datatype RegistryError = DuplicatePerson | PersonNotFound | DuplicateTag | TagNotFound

  /** A `void` operation either completes or throws one of the errors above. */
  datatype Outcome = Done | Failed(error: RegistryError)

  function OutcomeOf<T>(r: Result<T, RegistryError>): (o: Outcome)
    ensures o.Done? <==> r.Ok?
    ensures r.Err? ==> o.error == r.error
  {
    if r.Ok? then Done else Failed(r.error)
  }

  // ---------------------------------------------------------------------------
  // Installing a whole candidate list.

  /** Every tag held by some candidate of the list. */
  function UsedTags(ps: seq<Person>): (r: set<Tag>)
    ensures forall i :: 0 <= i < |ps| ==> ps[i].tags <= r
    ensures forall t :: t in r ==> exists i :: 0 <= i < |ps| && t in ps[i].tags
    decreases |ps|
  {
    if ps == [] then {}
    else
      var r := UsedTags(ps[..|ps| - 1]) + ps[|ps| - 1].tags;
      assert forall i :: 0 <= i < |ps| - 1 ==> ps[..|ps| - 1][i] == ps[i];
      r
  }

  /** The list as `setPersons` installs it: each candidate with resolved tags. */
  function ResolveEach(ts: seq<Tag>, ps: seq<Person>): (r: seq<Person>)
    ensures |r| == |ps|
    ensures forall i :: 0 <= i < |ps| ==> r[i] == ps[i].(tags := r[i].tags)
    ensures Unique(r, PersonKey) <==> Unique(ps, PersonKey)
  {
    seq(|ps|, i requires 0 <= i < |ps| => ps[i].(tags := ResolveAll(ts, TagKey, ps[i].tags)))
  }

  /** One more candidate resolved by `setPersons`. */
  lemma ResolveEachStep(before: seq<Tag>, was: seq<Tag>, now: seq<Tag>, list: seq<Person>, i: nat)
    requires i < |list|
    requires Extends(before, was, TagKey, UsedTags(list[..i]))
    requires Extends(was, now, TagKey, list[i].tags)
    ensures Extends(before, now, TagKey, UsedTags(list[..i + 1]))
    ensures ResolveEach(now, list[..i + 1]) ==
      ResolveEach(was, list[..i]) + [list[i].(tags := ResolveAll(now, TagKey, list[i].tags))]
  {
    UsedTagsSnoc(list, i);
    ExtendsTrans(before, was, now, TagKey, UsedTags(list[..i]), list[i].tags);
    ResolveEachGrown(was, now, list[..i]);
    ResolveEachSnoc(now, list, i);
  }

  lemma UsedTagsSnoc(list: seq<Person>, i: nat)
    requires i < |list|
    ensures UsedTags(list[..i + 1]) == UsedTags(list[..i]) + list[i].tags
  {
    assert list[..i + 1][..i] == list[..i];
  }

  lemma ResolveEachSnoc(ts: seq<Tag>, list: seq<Person>, i: nat)
    requires i < |list|
    ensures ResolveEach(ts, list[..i + 1]) == ResolveEach(ts, list[..i]) + [list[i].(tags := ResolveAll(ts, TagKey, list[i].tags))]
  {
  }

  /** Resolving against a grown catalogue changes nothing for candidates whose tags the old one knew. */
  lemma ResolveEachGrown(was: seq<Tag>, now: seq<Tag>, ps: seq<Person>)
    requires |was| <= |now| && now[..|was|] == was
    requires forall t :: t in UsedTags(ps) ==> Find(was, TagKey, t) >= 0
    ensures ResolveEach(now, ps) == ResolveEach(was, ps)
  {
    forall j | 0 <= j < |ps|
      ensures ResolveAll(now, TagKey, ps[j].tags) == ResolveAll(was, TagKey, ps[j].tags)
    {
      ResolveAllPrefix(was, now, TagKey, ps[j].tags);
    }
  }

  /**
   * The stream in `setPersons`: each candidate in turn has its tags resolved
   * against the catalogue, which grows by the tags it did not know.
   */
  method ResolveList(ts: seq<Tag>, list: seq<Person>) returns (grown: seq<Tag>, resolved: seq<Person>)
    requires Unique(ts, TagKey)
    ensures Unique(grown, TagKey)
    ensures Extends(ts, grown, TagKey, UsedTags(list))
    ensures resolved == ResolveEach(grown, list)
  {
    grown := ts;
    resolved := [];
    var i := 0;
    assert ts[..|ts|] == ts;
    while i < |list|
      invariant 0 <= i <= |list|
      invariant Unique(grown, TagKey)
      invariant Extends(ts, grown, TagKey, UsedTags(list[..i]))
      invariant resolved == ResolveEach(grown, list[..i])
    {
      var was := grown;
      var next, r := ResolveInto(grown, TagKey, list[i].tags);
      grown := next;
      ResolveEachStep(ts, was, grown, list, i);
      resolved := resolved + [list[i].(tags := r)];
      i := i + 1;
    }
    assert list[..|list|] == list;
  }

  // ---------------------------------------------------------------------------
  // The cascade of a catalogue edit or deletion.

  /** The candidate list after the cascade. */
  function Cascade(ps: seq<Person>, target: Tag, repl: Option<Tag>): (r: seq<Person>)
    ensures |r| == |ps|
    ensures forall i :: 0 <= i < |ps| ==> r[i] == ps[i].(tags := r[i].tags)
    ensures Unique(ps, PersonKey) ==> Unique(r, PersonKey)
  {
    seq(|ps|, i requires 0 <= i < |ps| => ps[i].(tags := Retag(ps[i].tags, TagKey, target, repl)))
  }

  /**
   * What the cascade promises: candidates not holding the target are kept
   * as they are; the others lose every tag of the target's identity and gain
   * the replacement, if any; nothing else about any candidate changes.
   */
  lemma CascadeMeaning(ps: seq<Person>, target: Tag, repl: Option<Tag>, i: nat)
    requires i < |ps|
    ensures !Holds(ps[i].tags, TagKey, target) ==> Cascade(ps, target, repl)[i] == ps[i]
    ensures Holds(ps[i].tags, TagKey, target) && repl.Some? ==> repl.value in Cascade(ps, target, repl)[i].tags
    ensures forall t :: t in Cascade(ps, target, repl)[i].tags && TagKey(t) == TagKey(target) ==> repl == Some(t)
    ensures forall t :: t in ps[i].tags && TagKey(t) != TagKey(target) ==> t in Cascade(ps, target, repl)[i].tags
  {
    RetagMeaning(ps[i].tags, TagKey, target, repl);
  }

  /** If no candidate holds the target, the cascade changes nothing. */
  lemma CascadeUntouched(ps: seq<Person>, target: Tag, repl: Option<Tag>)
    requires forall i :: 0 <= i < |ps| ==> !Holds(ps[i].tags, TagKey, target)
    ensures Cascade(ps, target, repl) == ps
  {
    forall i | 0 <= i < |ps| ensures Cascade(ps, target, repl)[i] == ps[i] {
      CascadeMeaning(ps, target, repl, i);
    }
  }

  // ---------------------------------------------------------------------------
  // Equality and hashing of a registry.

  /** `equals`: the candidate lists are element-wise `equals`; the catalogues are not compared. */
  predicate PersonListEquals(a: seq<Person>, b: seq<Person>)
  {
    |a| == |b| && forall i :: 0 <= i < |a| ==> PersonEquals(a[i], b[i])
  }

  const HashModulus := 0x1_0000_0000

  /** `List.hashCode` over element hashes, in 32-bit arithmetic. */
  function ListHash(hs: seq<int>): (h: int)
    ensures 0 <= h < HashModulus
    decreases |hs|
  {
    if hs == [] then 1
    else (31 * ListHash(hs[..|hs| - 1]) + hs[|hs| - 1]) % HashModulus
  }

  /** `hashCode` as written: the candidate list's hash and the catalogue's hash both contribute. */
  function RegistryHashAsWritten(personsHash: int, tagHashes: seq<int>): int
  {
    (31 * personsHash + ListHash(tagHashes)) % HashModulus
  }

  /**
   * Two registries with the same candidates are `equals`, but the hash as
   * written tells an empty catalogue from one holding a single tag whose own
   * hash is anything other than -30 modulo 2^32.
   */
  lemma EqualRegistriesHashApart(personsHash: int, tagHash: int)
    requires tagHash % HashModulus != HashModulus - 30
    ensures RegistryHashAsWritten(personsHash, []) != RegistryHashAsWritten(personsHash, [tagHash])
  {
    var p := 31 * personsHash;
    assert ListHash([tagHash]) == (31 + tagHash) % HashModulus by {
      assert [tagHash][..0] == [];
    }
    OffsetNotMultiple(tagHash);
    ModularShift(p, 1, 31 + tagHash);
  }

  /** Only a hash of -30 modulo 2^32 makes the two list hashes agree. */
  lemma OffsetNotMultiple(t: int)
    requires t % HashModulus != HashModulus - 30
    ensures (31 + t - 1) % HashModulus != 0
  {
    var m := HashModulus;
    var r := t % m;
    var q := t / m;
    assert t == q * m + r;
    assert (t + 30) - q * m == r + 30;
    ModularDropMultiple(t + 30, q);
    assert 30 <= r + 30 < m + 30;
  }

  lemma ModularShift(p: int, x: int, y: int)
    requires (y - x) % HashModulus != 0
    ensures (p + x) % HashModulus != (p + y % HashModulus) % HashModulus
  {
    var m := HashModulus;
    var q := y / m;
    assert y % m == y - q * m;
    assert (p + y % m) % m == (p + y - q * m) % m;
    assert (p + y - q * m) % m == (p + y) % m by { ModularDropMultiple(p + y, q); }
    if (p + x) % m == (p + y) % m {
      ModularDifference(p + x, p + y);
      assert false;
    }
  }

  lemma ModularDropMultiple(a: int, q: int)
    ensures (a - q * HashModulus) % HashModulus == a % HashModulus
  {
  }

  lemma ModularDifference(a: int, b: int)
    requires a % HashModulus == b % HashModulus
    ensures (b - a) % HashModulus == 0
  {
  }

  /**
   * The corrected hash: `List.hashCode` of the candidate list alone, like
   * `equals`, each candidate hashed from the fields its own `hashCode` reads.
   */
  function RegistryHash(persons: seq<Person>, tags: seq<Tag>, personHash: PersonHashData -> int): (h: int)
    ensures 0 <= h < HashModulus
  {
    ListHash(seq(|persons|, i requires 0 <= i < |persons| => personHash(PersonHashKey(persons[i]))))
  }

  /** A resolved tag set never holds two `equals`-equal tags, as a `HashSet` would not. */
  lemma ResolvedTagsHaveNoDuplicates(ts: seq<Tag>, s: set<Tag>)
    ensures NoTagDuplicates(ResolveAll(ts, TagKey, s))
  {
    ResolvedIdentitiesDistinct(ts, TagKey, s);
  }

  // ---------------------------------------------------------------------------
  // The registry object.

  class Findr {
    var persons: seq<Person>
    var tags: seq<Tag>

    predicate Valid()
      reads this
    {
      Unique(tags, TagKey) && Unique(persons, PersonKey)
    }

    constructor ()
      ensures Valid() && persons == [] && tags == []
    {
      persons := [];
      tags := [];
    }

    /** `hasCandidate` */
    method HasCandidate(p: Person) returns (b: bool)
      ensures b <==> exists i :: 0 <= i < |persons| && IsSamePerson(persons[i], p)
    {
      b := Find(persons, PersonKey, p) >= 0;
    }

    /** `hasTag` */
    method HasTag(t: Tag) returns (b: bool)
      ensures b <==> exists i :: 0 <= i < |tags| && TagKey(tags[i]) == TagKey(t)
    {
      b := Find(tags, TagKey, t) >= 0;
    }

    /** `getTag`: the stored entry with the identity of `t`; a missing tag throws. */
    method GetTag(t: Tag) returns (r: Result<Tag, RegistryError>)
      ensures r.Ok? ==> r.value in tags && TagKey(r.value) == TagKey(t)
      ensures r.Err? <==> forall i :: 0 <= i < |tags| ==> TagKey(tags[i]) != TagKey(t)
      ensures r.Err? ==> r.error == TagNotFound
    {
      var i := Find(tags, TagKey, t);
      if i < 0 {
        return Err(TagNotFound);
      }
      return Ok(tags[i]);
    }

    /**
     * `resolveTagsForPerson`: every tag of `p` unknown to the catalogue is
     * registered, in the hash set's unspecified order, and `p` is rebuilt
     * holding the catalogue entries.
     */
    method ResolveTagsForPerson(p: Person) returns (r: Person)
      requires Valid()
      modifies this
      ensures Valid() && persons == old(persons)
      ensures Extends(old(tags), tags, TagKey, p.tags)
      ensures (forall t :: t in p.tags ==> Find(old(tags), TagKey, t) >= 0) ==> tags == old(tags)
      ensures r == p.(tags := ResolveAll(tags, TagKey, p.tags))
    {
      var grown, resolved := ResolveInto(tags, TagKey, p.tags);
      tags := grown;
      r := p.(tags := resolved);
    }

    /**
     * `addCandidate`: the candidate's tags are resolved first, so a candidate
     * refused as a duplicate may still have registered new tags.
     */
    method AddCandidate(p: Person) returns (o: Outcome)
      requires Valid()
      modifies this
      ensures Valid()
      ensures Extends(old(tags), tags, TagKey, p.tags)
      ensures o == OutcomeOf(Add(old(persons), PersonKey, p.(tags := ResolveAll(tags, TagKey, p.tags)), DuplicatePerson))
      ensures o.Done? ==> persons == old(persons) + [p.(tags := ResolveAll(tags, TagKey, p.tags))]
      ensures o.Failed? ==> persons == old(persons)
    {
      var resolved := ResolveTagsForPerson(p);
      var r := Add(persons, PersonKey, resolved, DuplicatePerson);
      if r.Err? {
        return Failed(r.error);
      }
      persons := r.value;
      return Done;
    }

    /** `setPerson`; the catalogue is not touched. */
    method SetPerson(target: Person, edited: Person) returns (o: Outcome)
      requires Valid()
      modifies this
      ensures Valid() && tags == old(tags)
      ensures o == OutcomeOf(Update(old(persons), PersonKey, target, edited, PersonNotFound, DuplicatePerson))
      ensures persons == (if o.Done? then Update(old(persons), PersonKey, target, edited, PersonNotFound, DuplicatePerson).value else old(persons))
    {
      var r := Update(persons, PersonKey, target, edited, PersonNotFound, DuplicatePerson);
      if r.Err? {
        return Failed(r.error);
      }
      persons := r.value;
      return Done;
    }

    /** `removePerson`; the catalogue is not touched. */
    method RemovePerson(key: Person) returns (o: Outcome)
      requires Valid()
      modifies this
      ensures Valid() && tags == old(tags)
      ensures o == OutcomeOf(Remove(old(persons), PersonKey, key, PersonNotFound))
      ensures persons == (if o.Done? then Remove(old(persons), PersonKey, key, PersonNotFound).value else old(persons))
    {
      var r := Remove(persons, PersonKey, key, PersonNotFound);
      if r.Err? {
        return Failed(r.error);
      }
      persons := r.value;
      return Done;
    }

    /**
     * `setPersons`: each candidate is resolved in order, registering unknown
     * tags, and the resolved list replaces the candidates unless two share an
     * identity; the tags registered on the way stay in either case.
     */
    method SetPersons(list: seq<Person>) returns (o: Outcome)
      requires Valid()
      modifies this
      ensures Valid()
      ensures Extends(old(tags), tags, TagKey, UsedTags(list))
      ensures o == (if Unique(list, PersonKey) then Done else Failed(DuplicatePerson))
      ensures persons == (if o.Done? then ResolveEach(tags, list) else old(persons))
    {
      var grown, resolved := ResolveList(tags, list);
      tags := grown;
      if !Unique(resolved, PersonKey) {
        return Failed(DuplicatePerson);
      }
      persons := resolved;
      return Done;
    }

    /** `setTags`: a list with two tags of the same identity is refused. */
    method SetTags(ts: seq<Tag>) returns (o: Outcome)
      requires Valid()
      modifies this
      ensures Valid() && persons == old(persons)
      ensures o == OutcomeOf(Replace(ts, TagKey, DuplicateTag))
      ensures tags == (if o.Done? then ts else old(tags))
    {
      var r := Replace(ts, TagKey, DuplicateTag);
      if r.Err? {
        return Failed(r.error);
      }
      tags := r.value;
      return Done;
    }

    /**
     * `resetData`: the new catalogue is installed first, then the new
     * candidates with tag resolution, so every tag they hold ends up in the
     * catalogue.
     */
    method ResetData(newTags: seq<Tag>, newPersons: seq<Person>) returns (o: Outcome)
      requires Valid()
      modifies this
      ensures Valid()
      ensures !Unique(newTags, TagKey) ==> o == Failed(DuplicateTag) && tags == old(tags) && persons == old(persons)
      ensures Unique(newTags, TagKey) ==> Extends(newTags, tags, TagKey, UsedTags(newPersons))
      ensures Unique(newTags, TagKey) ==> o == (if Unique(newPersons, PersonKey) then Done else Failed(DuplicatePerson))
      ensures o.Done? ==> persons == ResolveEach(tags, newPersons)
    {
      o := SetTags(newTags);
      if o.Failed? {
        return;
      }
      o := SetPersons(newPersons);
    }

    /** `addTag` */
    method AddTag(t: Tag) returns (o: Outcome)
      requires Valid()
      modifies this
      ensures Valid() && persons == old(persons)
      ensures o == OutcomeOf(Add(old(tags), TagKey, t, DuplicateTag))
      ensures tags == (if o.Done? then old(tags) + [t] else old(tags))
    {
      var r := Add(tags, TagKey, t, DuplicateTag);
      if r.Err? {
        return Failed(r.error);
      }
      tags := r.value;
      return Done;
    }

    /**
     * `setTag`: the catalogue entry is replaced, then the edit cascades to
     * every candidate; if the catalogue refuses, the cascade does not run.
     */
    method SetTag(target: Tag, edited: Tag) returns (o: Outcome)
      requires Valid()
      modifies this
      ensures Valid()
      ensures o == OutcomeOf(Update(old(tags), TagKey, target, edited, TagNotFound, DuplicateTag))
      ensures o.Done? ==> tags == Update(old(tags), TagKey, target, edited, TagNotFound, DuplicateTag).value &&
                          persons == Cascade(old(persons), target, Some(edited))
      ensures o.Failed? ==> tags == old(tags) && persons == old(persons)
    {
      var r := Update(tags, TagKey, target, edited, TagNotFound, DuplicateTag);
      if r.Err? {
        return Failed(r.error);
      }
      tags := r.value;
      ReplaceTagAcrossPersons(target, Some(edited));
      return Done;
    }

    /**
     * `removeTag`: the catalogue entry goes, then every candidate loses the
     * tag; if the catalogue refuses, the cascade does not run.
     */
    method RemoveTag(t: Tag) returns (o: Outcome)
      requires Valid()
      modifies this
      ensures Valid()
      ensures o == OutcomeOf(Remove(old(tags), TagKey, t, TagNotFound))
      ensures o.Done? ==> tags == Remove(old(tags), TagKey, t, TagNotFound).value &&
                          persons == Cascade(old(persons), t, None)
      ensures o.Failed? ==> tags == old(tags) && persons == old(persons)
    {
      var r := Remove(tags, TagKey, t, TagNotFound);
      if r.Err? {
        return Failed(r.error);
      }
      tags := r.value;
      ReplaceTagAcrossPersons(t, None);
      return Done;
    }

    /**
     * `replaceTagAcrossPersons`: candidates holding the target are rebuilt,
     * the others kept; the list is replaced only if some candidate changed.
     */
    method ReplaceTagAcrossPersons(target: Tag, repl: Option<Tag>)
      requires Valid()
      modifies this
      ensures Valid() && tags == old(tags)
      ensures persons == Cascade(old(persons), target, repl)
    {
      var ps := persons;
      var updated: seq<Person> := [];
      var anyChanges := false;
      var i := 0;
      while i < |ps|
        invariant 0 <= i <= |ps|
        invariant persons == ps && tags == old(tags)
        invariant |updated| == i
        invariant forall j :: 0 <= j < i ==> updated[j] == Cascade(ps, target, repl)[j]
        invariant anyChanges <==> exists j :: 0 <= j < i && Holds(ps[j].tags, TagKey, target)
      {
        var p := ps[i];
        var newTags, modified := RetagOne(p.tags, TagKey, target, repl);
        CascadeMeaning(ps, target, repl, i);
        if modified {
          anyChanges := true;
          updated := updated + [p.(tags := newTags)];
        } else {
          updated := updated + [p];
        }
        i := i + 1;
      }
      if anyChanges {
        assert updated == Cascade(ps, target, repl);
        persons := updated;
      } else {
        CascadeUntouched(ps, target, repl);
      }
    }

    /** `equals`: the candidate lists are equal; the catalogues are not compared. */
    predicate Equals(other: Findr)
      reads this, other
    {
      PersonListEquals(persons, other.persons)
    }
  }

  /**
   * Under the corrected hash, `equals` registries hash alike, whatever their
   * catalogues hold: equal candidate lists give equal hashes.
   */
  lemma RegistryHashFollowsEquals(a: Findr, b: Findr, personHash: PersonHashData -> int)
    requires a.Equals(b)
    requires forall i :: 0 <= i < |a.persons| ==> NoTagDuplicates(a.persons[i].tags)
    requires forall i :: 0 <= i < |b.persons| ==> NoTagDuplicates(b.persons[i].tags)
    ensures RegistryHash(a.persons, a.tags, personHash) == RegistryHash(b.persons, b.tags, personHash)
  {
    var pa, pb := a.persons, b.persons;
    var ha := seq(|pa|, i requires 0 <= i < |pa| => personHash(PersonHashKey(pa[i])));
    var hb := seq(|pb|, i requires 0 <= i < |pb| => personHash(PersonHashKey(pb[i])));
    forall i | 0 <= i < |pa| ensures ha[i] == hb[i] {
      PersonEqualsIffSameHashKey(pa[i], pb[i]);
    }
    assert ha == hb;
  }
}
