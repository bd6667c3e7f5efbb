/** A candidate: an immutable record of contact details, tags, rating and stage. */
module Persons {
  import opened Text
  import opened Tags
  import opened Names
  import opened Stages
  import opened Ratings

  /** The moment a candidate was added, kept as an opaque, comparable token. */
  datatype DateAdded = DateAdded(instant: int)

  /**
   * Phone, email and address are carried as the strings they wrap. The tag
   * set is a value, so the record never shares it with the caller.
   */
  datatype Person = Person(
    name: Name, phone: string, email: string, address: string,
    tags: set<Tag>, date: DateAdded, rating: Rating, stage: Stage)

  /** The five-argument constructor: added `now`, unrated, in the first stage. */
  function NewPerson(name: Name, phone: string, email: string, address: string, tags: set<Tag>, now: DateAdded): Person
  {
    Person(name, phone, email, address, tags, now, Unrated, Candidates)
  }

  /** The identity of a candidate: the canonical form of the name. */
  function PersonKey(p: Person): string
  {
    p.name.canonicalName
  }

  /** `isSamePerson`: the names are equal. */
  predicate IsSamePerson(a: Person, b: Person)
    ensures IsSamePerson(a, b) <==> PersonKey(a) == PersonKey(b)
  {
    NameEquals(a.name, b.name)
  }

  /** `Set.equals` on tag sets: the same size, and every tag of `b` is `equals` to one of `a`. */
  predicate TagSetEquals(a: set<Tag>, b: set<Tag>)
  {
    |a| == |b| && forall t :: t in b ==> exists u :: u in a && TagEquals(u, t)
  }

  /**
   * `equals`: name, phone, email, address, tags and stage; the rating and the
   * date are ignored. Equal candidates are the same candidate.
   */
  predicate PersonEquals(a: Person, b: Person)
    ensures PersonEquals(a, b) ==> IsSamePerson(a, b)
  {
    NameEquals(a.name, b.name) && a.phone == b.phone && a.email == b.email &&
    a.address == b.address && TagSetEquals(a.tags, b.tags) && a.stage == b.stage
  }

  /** A hash set of tags never holds two `equals`-equal tags. */
  predicate NoTagDuplicates(s: set<Tag>)
  {
    forall a, b :: a in s && b in s && TagEquals(a, b) ==> a == b
  }

  function TagSetHashKey(s: set<Tag>): set<(string, string, string, string)>
  {
    set t | t in s :: TagHashKey(t)
  }

  /** The fields `hashCode` is computed from, with each tag as its own hash data. */
  type PersonHashData = (string, string, string, string, set<(string, string, string, string)>, Stage)

  /** The data `hashCode` is computed from. */
  function PersonHashKey(p: Person): PersonHashData
  {
    (p.name.canonicalName, p.phone, p.email, p.address, TagSetHashKey(p.tags), p.stage)
  }

  /** The hash data of a duplicate-free tag set has one entry per tag. */
  lemma {:induction false} HashKeyCount(s: set<Tag>)
    requires NoTagDuplicates(s)
    ensures |TagSetHashKey(s)| == |s|
    decreases |s|
  {
    if s != {} {
      var x :| x in s;
      var rest := s - {x};
      HashKeyCount(rest);
      assert TagSetHashKey(s) == TagSetHashKey(rest) + {TagHashKey(x)};
      if TagHashKey(x) in TagSetHashKey(rest) {
        var y :| y in rest && TagHashKey(y) == TagHashKey(x);
        TagEqualsIffSameHashKey(x, y);
        assert false;
      }
    }
  }

  lemma SubsetOfSameSize<T>(a: set<T>, b: set<T>)
    requires a <= b && |a| == |b|
    ensures a == b
  {
    assert b == a + (b - a);
    assert a * (b - a) == {};
    assert |b - a| == 0;
    forall y | y in b ensures y in a {
      assert y !in b - a;
    }
  }

  /** On duplicate-free tag sets, `Set.equals` holds exactly when the hash data agree. */
  lemma TagSetEqualsIffSameHashKey(a: set<Tag>, b: set<Tag>)
    requires NoTagDuplicates(a) && NoTagDuplicates(b)
    ensures TagSetEquals(a, b) <==> TagSetHashKey(a) == TagSetHashKey(b)
  {
    HashKeyCount(a);
    HashKeyCount(b);
    if TagSetEquals(a, b) {
      forall k | k in TagSetHashKey(b) ensures k in TagSetHashKey(a) {
        var t :| t in b && TagHashKey(t) == k;
        var u :| u in a && TagEquals(u, t);
        TagEqualsIffSameHashKey(u, t);
      }
      SubsetOfSameSize(TagSetHashKey(b), TagSetHashKey(a));
    }
    if TagSetHashKey(a) == TagSetHashKey(b) {
      forall t | t in b ensures exists u :: u in a && TagEquals(u, t) {
        assert TagHashKey(t) in TagSetHashKey(a);
        var u :| u in a && TagHashKey(u) == TagHashKey(t);
        TagEqualsIffSameHashKey(u, t);
      }
    }
  }

  /** `equals` and `hashCode` use the same fields: equal candidates hash equally, and conversely. */
  lemma PersonEqualsIffSameHashKey(a: Person, b: Person)
    requires NoTagDuplicates(a.tags) && NoTagDuplicates(b.tags)
    ensures PersonEquals(a, b) <==> PersonHashKey(a) == PersonHashKey(b)
  {
    TagSetEqualsIffSameHashKey(a.tags, b.tags);
  }

  /** Rating and date are not part of equality; changing them keeps a candidate equal. */
  lemma EqualityIgnoresRatingAndDate(p: Person, r: Rating, d: DateAdded)
    ensures PersonEquals(p, p.(rating := r, date := d))
    ensures IsSamePerson(p, p.(rating := r, date := d))
  {
    assert forall t :: t in p.tags ==> TagEquals(t, t);
  }
}
