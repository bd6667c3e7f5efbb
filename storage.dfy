/**
 * Loading the registry from its stored form: the tag adapter with its
 * defaults and checks, and the whole-registry loader that installs the tag
 * catalogue first and then adds the candidates one by one. The stored form
 * is kept as records of optional strings; no JSON text is involved.
 */
module Storage {
  import opened Text
  import opened Tags
  import opened Persons
  import opened UniqueLists
  import opened Catalogues
  import opened Registry
  import opened Sequences

  const MissingNameMessage := "Tag's name field is missing!"
  const DuplicatePersonMessage := "Persons list contains duplicate person(s)."
  const DuplicateTagMessage := "Tag list contains duplicate tag(s)."

  // ---------------------------------------------------------------------------
  // One stored tag.

  /** A stored tag: each field may be absent. */
  datatype StoredTag = StoredTag(tagName: Option<string>, category: Option<string>, colour: Option<string>, description: Option<string>)

  /** The adapter built from a tag: its four fields, as they are. */
  function AdaptTag(t: Tag): StoredTag
  {
    StoredTag(Some(t.tagName), Some(t.category), Some(t.colour), Some(t.description))
  }

  function OrDefault(v: Option<string>, default: string): string
  {
    if v.Some? then v.value else default
  }

  /**
   * `toModelType` of a stored tag: a missing name is reported first; a
   * missing category, colour or description takes the default; then the
   * fields are checked in order and the first failure is reported.
   */
  function TagToModel(j: StoredTag): (r: Result<Tag, string>)
    ensures j.tagName.None? ==> r == Err(MissingNameMessage)
    ensures r.Ok? <==> j.tagName.Some? && MakeTag(j.tagName.value, OrDefault(j.category, DefaultCategory),
      OrDefault(j.colour, DefaultColour), OrDefault(j.description, DefaultDescription)).Ok?
    ensures j.tagName.Some? && r.Err? ==> r.error == ErrorMessage(FirstFailure(j.tagName.value,
      OrDefault(j.category, DefaultCategory), OrDefault(j.colour, DefaultColour), OrDefault(j.description, DefaultDescription)))
    ensures r.Ok? ==> NormalTag(r.value) && r.value.tagName == j.tagName.value
  {
    if j.tagName.None? then Err(MissingNameMessage)
    else
      var name := j.tagName.value;
      var category := OrDefault(j.category, DefaultCategory);
      var colour := OrDefault(j.colour, DefaultColour);
      var description := OrDefault(j.description, DefaultDescription);
      if !IsValidTagName(name) then Err(NameConstraintsMessage)
      else if !IsValidCategory(category) then Err(CategoryConstraintsMessage)
      else if !IsValidColour(colour) then Err(ColourConstraintsMessage)
      else if !IsValidDescription(description) then Err(DescriptionConstraintsMessage)
      else Ok(MakeTag(name, category, colour, description).value)
  }

  /** Storing a constructed tag and loading it back gives the same tag. */
  lemma TagStorageRoundTrip(t: Tag)
    requires NormalTag(t)
    ensures TagToModel(AdaptTag(t)) == Ok(t)
  {
    RebuildNormalTag(t);
  }

  /** A stored tag holding only a name loads as the one-argument tag of that name. */
  lemma MissingFieldsTakeDefaults(name: string)
    ensures TagToModel(StoredTag(Some(name), None, None, None)) ==
      if IsValidTagName(name) then Ok(DefaultTag(name).value) else Err(NameConstraintsMessage)
  {
    if IsValidTagName(name) {
      DefaultsAreNormal(name);
      RebuildNormalTag(DefaultTag(name).value);
    }
  }

  // ---------------------------------------------------------------------------
  // Loading a list in order, refusing repeated identities.

  /**
   * The loop shape the loader uses for both lists: the entries are decoded
   * in order, the first decoding failure is reported, and an entry whose key
   * was already seen is reported as `duplicate`.
   */
  function LoadAll<J, T, K(==)>(js: seq<J>, decode: J -> Result<T, string>, key: T -> K, duplicate: string): (r: Result<seq<T>, string>)
    ensures r.Ok? ==> |r.value| == |js| && Unique(r.value, key)
    ensures r.Ok? ==> forall i :: 0 <= i < |js| ==> decode(js[i]) == Ok(r.value[i])
    ensures r.Err? ==> r.error == duplicate || exists i :: 0 <= i < |js| && decode(js[i]) == Err(r.error)
    decreases |js|
  {
    if js == [] then Ok([])
    else
      var init := js[..|js| - 1];
      assert forall i :: 0 <= i < |init| ==> init[i] == js[i];
      match LoadAll(init, decode, key, duplicate)
      case Err(e) => Err(e)
      case Ok(ts) =>
        match decode(js[|js| - 1])
        case Err(e) => Err(e)
        case Ok(t) => if Find(ts, key, t) >= 0 then Err(duplicate) else Ok(ts + [t])
  }

  /** Every entry decodes and no two decoded entries share a key. */
  predicate Loadable<J, T, K(==)>(js: seq<J>, decode: J -> Result<T, string>, key: T -> K)
  {
    (forall i :: 0 <= i < |js| ==> decode(js[i]).Ok?) &&
    forall i, j :: 0 <= i < j < |js| ==> key(decode(js[i]).value) != key(decode(js[j]).value)
  }

  /** The loop succeeds exactly on the loadable lists. */
  lemma LoadAllOk<J, T, K>(js: seq<J>, decode: J -> Result<T, string>, key: T -> K, duplicate: string)
    ensures LoadAll(js, decode, key, duplicate).Ok? <==> Loadable(js, decode, key)
  {
    var r := LoadAll(js, decode, key, duplicate);
    if r.Ok? {
      forall i, j | 0 <= i < j < |js| ensures key(decode(js[i]).value) != key(decode(js[j]).value) {
        assert decode(js[i]) == Ok(r.value[i]) && decode(js[j]) == Ok(r.value[j]);
      }
    }
    if Loadable(js, decode, key) {
      LoadableLoads(js, decode, key, duplicate);
    }
  }

  /** A loadable list passes every step of the loop. */
  lemma {:induction false} LoadableLoads<J, T, K>(js: seq<J>, decode: J -> Result<T, string>, key: T -> K, duplicate: string)
    requires Loadable(js, decode, key)
    ensures LoadAll(js, decode, key, duplicate).Ok?
    decreases |js|
  {
    if js != [] {
      var init := js[..|js| - 1];
      assert Loadable(init, decode, key) by {
        assert forall i :: 0 <= i < |init| ==> init[i] == js[i];
      }
      LoadableLoads(init, decode, key, duplicate);
      var ts := LoadAll(init, decode, key, duplicate).value;
      var t := decode(js[|js| - 1]).value;
      forall i | 0 <= i < |ts| ensures key(ts[i]) != key(t) {
        assert init[i] == js[i];
        assert decode(js[i]) == Ok(ts[i]);
      }
      assert Find(ts, key, t) < 0;
    }
  }

  /** A step that decodes and finds a new key extends the loaded prefix by the decoded entry. */
  lemma LoadAllStep<J, T, K>(js: seq<J>, n: nat, decode: J -> Result<T, string>, key: T -> K, duplicate: string, loaded: seq<T>)
    requires n < |js| && LoadAll(js[..n], decode, key, duplicate) == Ok(loaded)
    requires decode(js[n]).Ok? && Find(loaded, key, decode(js[n]).value) < 0
    ensures LoadAll(js[..n + 1], decode, key, duplicate) == Ok(loaded + [decode(js[n]).value])
  {
    assert js[..n + 1][..n] == js[..n];
  }


  /** A step that fails to decode or meets a seen key ends the whole loop with that failure. */
  lemma LoadAllStop<J, T, K>(js: seq<J>, n: nat, decode: J -> Result<T, string>, key: T -> K, duplicate: string, loaded: seq<T>)
    requires n < |js| && LoadAll(js[..n], decode, key, duplicate) == Ok(loaded)
    requires decode(js[n]).Err? || Find(loaded, key, decode(js[n]).value) >= 0
    ensures LoadAll(js, decode, key, duplicate) ==
      if decode(js[n]).Err? then Err(decode(js[n]).error) else Err(duplicate)
  {
    assert js[..n + 1][..n] == js[..n];
    LoadAllPrefixFailure(js, decode, key, duplicate, n + 1);
  }

  /** Once a prefix fails, the whole list fails the same way. */
  lemma {:induction false} LoadAllPrefixFailure<J, T, K>(js: seq<J>, decode: J -> Result<T, string>, key: T -> K, duplicate: string, n: nat)
    requires n <= |js| && LoadAll(js[..n], decode, key, duplicate).Err?
    ensures LoadAll(js, decode, key, duplicate) == LoadAll(js[..n], decode, key, duplicate)
    decreases |js| - n
  {
    if n < |js| {
      assert js[..n + 1][..n] == js[..n];
      LoadAllPrefixFailure(js, decode, key, duplicate, n + 1);
    } else {
      assert js[..n] == js;
    }
  }

  /** The stored name of a tag, compared as is. */
  function StoredName(t: Tag): string
  {
    t.tagName
  }

  /**
   * Decoding a stored candidate. Each stored candidate is given as the result
   * of its own conversion (the person adapter is not part of this model), so
   * the candidate phase reads that result as it is.
   */
  function Decoded(p: Result<Person, string>): Result<Person, string>
  {
    p
  }

  /** The tag phase: stored names are compared exactly, so case variants pass. */
  function LoadTags(js: seq<StoredTag>): Result<seq<Tag>, string>
  {
    LoadAll(js, TagToModel, StoredName, DuplicateTagMessage)
  }

  /** The candidate phase: identities are compared. */
  function LoadPersons(ps: seq<Result<Person, string>>): Result<seq<Person>, string>
  {
    LoadAll(ps, Decoded, PersonKey, DuplicatePersonMessage)
  }

  /** A key is among the keys of a list exactly when an entry with that key is found. */
  lemma KeysFind<T, K>(s: seq<T>, key: T -> K, x: T)
    ensures key(x) in Keys(s, key) <==> Find(s, key, x) >= 0
  {
    var i := Find(s, key, x);
    if i >= 0 {
      assert key(s[i]) in Keys(s, key);
    }
  }

  /**
   * The tag loop: each entry is decoded and its key checked against the set
   * of keys seen so far.
   */
  method LoadList<J, T(!new), K(==)>(js: seq<J>, decode: J -> Result<T, string>, key: T -> K, duplicate: string) returns (r: Result<seq<T>, string>)
    ensures r == LoadAll(js, decode, key, duplicate)
  {
    var loaded: seq<T> := [];
    var seen: set<K> := {};
    var i := 0;
    while i < |js|
      invariant 0 <= i <= |js|
      invariant LoadAll(js[..i], decode, key, duplicate) == Ok(loaded)
      invariant seen == Keys(loaded, key)
    {
      var item := decode(js[i]);
      if item.Err? {
        LoadAllStop(js, i, decode, key, duplicate, loaded);
        return Err(item.error);
      }
      KeysFind(loaded, key, item.value);
      if key(item.value) in seen {
        LoadAllStop(js, i, decode, key, duplicate, loaded);
        return Err(duplicate);
      }
      LoadAllStep(js, i, decode, key, duplicate, loaded);
      KeysSnoc(loaded, key, item.value);
      seen := seen + {key(item.value)};
      loaded := loaded + [item.value];
      i := i + 1;
    }
    assert js[..i] == js;
    r := Ok(loaded);
  }

  /** A list whose entries decode to a list with distinct keys loads as that list. */
  lemma LoadAllOfDecoded<J, T, K>(js: seq<J>, ts: seq<T>, decode: J -> Result<T, string>, key: T -> K, duplicate: string)
    requires |js| == |ts| && Unique(ts, key)
    requires forall i :: 0 <= i < |js| ==> decode(js[i]) == Ok(ts[i])
    ensures LoadAll(js, decode, key, duplicate) == Ok(ts)
  {
    LoadAllOk(js, decode, key, duplicate);
    assert Loadable(js, decode, key) by {
      forall i, j | 0 <= i < j < |js| ensures key(decode(js[i]).value) != key(decode(js[j]).value) {
        assert decode(js[i]).value == ts[i] && decode(js[j]).value == ts[j];
      }
    }
    var r := LoadAll(js, decode, key, duplicate).value;
    assert forall i :: 0 <= i < |ts| ==> r[i] == ts[i] by {
      forall i | 0 <= i < |ts| ensures r[i] == ts[i] {
        assert decode(js[i]) == Ok(r[i]);
      }
    }
    assert r == ts;
  }

  /**
   * Two keys that tell apart what a coarser key tells apart: the coarser key
   * accepts exactly the lists the finer key accepts with coarse-distinct
   * results, and then both give the same list.
   */
  lemma LoadAllCoarser<J, T, K, L>(js: seq<J>, decode: J -> Result<T, string>, fine: T -> K, coarse: T -> L, duplicate: string)
    requires forall a, b :: coarse(a) != coarse(b) ==> fine(a) != fine(b)
    ensures LoadAll(js, decode, coarse, duplicate).Ok? <==>
      LoadAll(js, decode, fine, duplicate).Ok? && Unique(LoadAll(js, decode, fine, duplicate).value, coarse)
    ensures LoadAll(js, decode, coarse, duplicate).Ok? ==> LoadAll(js, decode, coarse, duplicate) == LoadAll(js, decode, fine, duplicate)
  {
    var c := LoadAll(js, decode, coarse, duplicate);
    var f := LoadAll(js, decode, fine, duplicate);
    if f.Ok? && Unique(f.value, coarse) {
      LoadAllOfDecoded(js, f.value, decode, coarse, duplicate);
    }
    if c.Ok? {
      assert Unique(c.value, fine);
      LoadAllOfDecoded(js, c.value, decode, fine, duplicate);
    }
  }

  // ---------------------------------------------------------------------------
  // The whole registry.

  /** The stored registry; an absent tag list is read as an empty one. */
  datatype StoredFindr = StoredFindr(persons: seq<Result<Person, string>>, tags: seq<StoredTag>)

  /** The constructor the reader calls: a missing tag list becomes the empty list. */
  function FromProperties(persons: seq<Result<Person, string>>, tags: Option<seq<StoredTag>>): (s: StoredFindr)
    ensures s.persons == persons
    ensures tags.None? ==> s.tags == []
    ensures tags.Some? ==> s.tags == tags.value
  {
    StoredFindr(persons, if tags.Some? then tags.value else [])
  }

  function SaveTags(ts: seq<Tag>): (r: seq<StoredTag>)
    ensures |r| == |ts| && forall i :: 0 <= i < |ts| ==> r[i] == AdaptTag(ts[i])
  {
    seq(|ts|, i requires 0 <= i < |ts| => AdaptTag(ts[i]))
  }

  function SavePersons(ps: seq<Person>): (r: seq<Result<Person, string>>)
    ensures |r| == |ps| && forall i :: 0 <= i < |ps| ==> r[i] == Ok(ps[i])
  {
    seq(|ps|, i requires 0 <= i < |ps| => Ok(ps[i]))
  }

  /** The constructor from a registry: both lists, in order. */
  function Save(f: Findr): StoredFindr
    reads f
  {
    StoredFindr(SavePersons(f.persons), SaveTags(f.tags))
  }

  /** Why a load fails: the checked error with its message, or the unique list's unchecked error. */
  datatype LoadError = IllegalValue(message: string) | Unchecked(error: RegistryError)

  /**
   * `toModelType` of the stored registry: the tags are loaded and, if there
   * are any, installed; then the candidates are added.
   */
  method ToModelType(s: StoredFindr) returns (r: Result<Findr, LoadError>)
    ensures LoadTags(s.tags).Err? ==> r == Err(IllegalValue(LoadTags(s.tags).error))
    ensures LoadTags(s.tags).Ok? && !Unique(LoadTags(s.tags).value, TagKey) ==> r == Err(Unchecked(DuplicateTag))
    ensures LoadTags(s.tags).Ok? && Unique(LoadTags(s.tags).value, TagKey) && LoadPersons(s.persons).Err? ==>
      r == Err(IllegalValue(LoadPersons(s.persons).error))
    ensures LoadTags(s.tags).Ok? && Unique(LoadTags(s.tags).value, TagKey) && LoadPersons(s.persons).Ok? ==>
      && r.Ok? && fresh(r.value) && r.value.Valid()
      && Extends(LoadTags(s.tags).value, r.value.tags, TagKey, UsedTags(LoadPersons(s.persons).value))
      && r.value.persons == ResolveEach(r.value.tags, LoadPersons(s.persons).value)
  {
    var findr := new Findr();
    var modelTags := LoadList(s.tags, TagToModel, StoredName, DuplicateTagMessage);
    if modelTags.Err? {
      return Err(IllegalValue(modelTags.error));
    }
    if modelTags.value != [] {
      var o := findr.SetTags(modelTags.value);
      if o.Failed? {
        return Err(Unchecked(o.error));
      }
    }
    var failure := AddPersons(findr, s.persons);
    if failure.Some? {
      return Err(IllegalValue(failure.value));
    }
    return Ok(findr);
  }

  /**
   * The candidate loop of `toModelType`: each stored candidate is decoded,
   * refused if a candidate of the same identity is already present, and
   * added with its tags resolved against the catalogue.
   */
  method AddPersons(findr: Findr, ps: seq<Result<Person, string>>) returns (failure: Option<string>)
    requires findr.Valid() && findr.persons == []
    modifies findr
    ensures findr.Valid()
    ensures failure.None? <==> LoadPersons(ps).Ok?
    ensures failure.Some? ==> failure.value == LoadPersons(ps).error
    ensures failure.None? ==>
      && Extends(old(findr.tags), findr.tags, TagKey, UsedTags(LoadPersons(ps).value))
      && findr.persons == ResolveEach(findr.tags, LoadPersons(ps).value)
  {
    var installed := findr.tags;
    var loaded: seq<Person> := [];
    var i := 0;
    assert Extends(installed, findr.tags, TagKey, UsedTags(loaded));
    while i < |ps|
      invariant 0 <= i <= |ps|
      invariant findr.Valid()
      invariant LoadPersons(ps[..i]) == Ok(loaded) && |loaded| == i
      invariant Extends(installed, findr.tags, TagKey, UsedTags(loaded))
      invariant findr.persons == ResolveEach(findr.tags, loaded)
    {
      var person := ps[i];
      if person.Err? {
        PersonStep(ps, i, loaded);
        return Some(person.error);
      }
      var p := person.value;
      var was := findr.tags;
      PresentIffLoaded(findr.persons, loaded, findr.tags, p);
      PersonStep(ps, i, loaded);
      var present := AddNewCandidate(findr, p);
      if present {
        return Some(DuplicatePersonMessage);
      }
      PersonAdded(loaded, p, installed, was, findr.tags);
      loaded := loaded + [p];
      i := i + 1;
    }
    assert ps[..i] == ps;
    return None;
  }

  /**
   * One turn of the candidate loop: a candidate already present is reported,
   * any other is added with its tags resolved.
   */
  method AddNewCandidate(findr: Findr, p: Person) returns (present: bool)
    requires findr.Valid()
    modifies findr
    ensures findr.Valid()
    ensures present <==> exists k :: 0 <= k < |old(findr.persons)| && IsSamePerson(old(findr.persons)[k], p)
    ensures present ==> findr.persons == old(findr.persons) && findr.tags == old(findr.tags)
    ensures !present ==> Extends(old(findr.tags), findr.tags, TagKey, p.tags)
    ensures !present ==> findr.persons == old(findr.persons) + [p.(tags := ResolveAll(findr.tags, TagKey, p.tags))]
  {
    present := findr.HasCandidate(p);
    if present {
      return;
    }
    var before := findr.persons;
    NewIdentityAdds(before, p, ResolveAll(findr.tags, TagKey, p.tags));
    var o := findr.AddCandidate(p);
    NewIdentityAdds(before, p, ResolveAll(findr.tags, TagKey, p.tags));
  }

  /** A candidate whose identity is absent is added, whatever its tags. */
  lemma NewIdentityAdds(persons: seq<Person>, p: Person, tags: set<Tag>)
    requires !exists k :: 0 <= k < |persons| && IsSamePerson(persons[k], p)
    ensures Add(persons, PersonKey, p.(tags := tags), DuplicatePerson).Ok?
  {
    assert PersonKey(p.(tags := tags)) == PersonKey(p);
  }

  /** After a stored candidate is added, the loop's invariant holds for the longer prefix. */
  lemma PersonAdded(loaded: seq<Person>, p: Person, installed: seq<Tag>, was: seq<Tag>, now: seq<Tag>)
    requires Extends(installed, was, TagKey, UsedTags(loaded))
    requires Extends(was, now, TagKey, p.tags)
    ensures Extends(installed, now, TagKey, UsedTags(loaded + [p]))
    ensures ResolveEach(was, loaded) + [p.(tags := ResolveAll(now, TagKey, p.tags))] == ResolveEach(now, loaded + [p])
  {
    ExtendsSnoc(installed, was, now, loaded, p);
    ResolveSnoc(was, now, loaded, p);
  }

  lemma ExtendsSnoc(installed: seq<Tag>, was: seq<Tag>, now: seq<Tag>, loaded: seq<Person>, p: Person)
    requires Extends(installed, was, TagKey, UsedTags(loaded))
    requires Extends(was, now, TagKey, p.tags)
    ensures Extends(installed, now, TagKey, UsedTags(loaded + [p]))
  {
    var list := loaded + [p];
    assert list[..|loaded|] == loaded;
    UsedTagsSnoc(list, |loaded|);
    assert list[..|loaded| + 1] == list;
    ExtendsTrans(installed, was, now, TagKey, UsedTags(loaded), p.tags);
  }

  lemma ResolveSnoc(was: seq<Tag>, now: seq<Tag>, loaded: seq<Person>, p: Person)
    requires |was| <= |now| && now[..|was|] == was
    requires forall t :: t in UsedTags(loaded) ==> Find(was, TagKey, t) >= 0
    ensures ResolveEach(was, loaded) + [p.(tags := ResolveAll(now, TagKey, p.tags))] == ResolveEach(now, loaded + [p])
  {
    ResolveEachGrown(was, now, loaded);
  }

  /** One more stored candidate: it fails the load, or extends what was loaded. */
  lemma PersonStep(ps: seq<Result<Person, string>>, i: nat, loaded: seq<Person>)
    requires i < |ps| && LoadPersons(ps[..i]) == Ok(loaded)
    ensures ps[i].Err? ==> LoadPersons(ps) == Err(ps[i].error)
    ensures ps[i].Ok? && Find(loaded, PersonKey, ps[i].value) >= 0 ==> LoadPersons(ps) == Err(DuplicatePersonMessage)
    ensures ps[i].Ok? && Find(loaded, PersonKey, ps[i].value) < 0 ==> LoadPersons(ps[..i + 1]) == Ok(loaded + [ps[i].value])
  {
    assert ps[..i + 1][..i] == ps[..i];
    if ps[i].Err? || Find(loaded, PersonKey, ps[i].value) >= 0 {
      LoadAllPrefixFailure(ps, Decoded, PersonKey, DuplicatePersonMessage, i + 1);
    }
  }

  /** Resolution keeps identities, so the registry holds a candidate exactly when the loaded list does. */
  lemma PresentIffLoaded(persons: seq<Person>, loaded: seq<Person>, tags: seq<Tag>, p: Person)
    requires persons == ResolveEach(tags, loaded)
    ensures (exists k :: 0 <= k < |persons| && IsSamePerson(persons[k], p)) <==> Find(loaded, PersonKey, p) >= 0
  {
    assert forall k :: 0 <= k < |loaded| ==> PersonKey(persons[k]) == PersonKey(loaded[k]);
  }

  // ---------------------------------------------------------------------------
  // Saving, then loading.

  /** The saved tags of a registry load back as they were. */
  lemma SavedTagsLoad(ts: seq<Tag>)
    requires Unique(ts, StoredName)
    requires forall i :: 0 <= i < |ts| ==> NormalTag(ts[i])
    ensures LoadTags(SaveTags(ts)) == Ok(ts)
  {
    var js := SaveTags(ts);
    forall i | 0 <= i < |ts| ensures TagToModel(js[i]) == Ok(ts[i]) {
      TagStorageRoundTrip(ts[i]);
    }
    LoadAllOfDecoded(js, ts, TagToModel, StoredName, DuplicateTagMessage);
  }

  /** Distinct identities are distinct stored names, so a registry's catalogue passes the check. */
  lemma IdentityRefinesName(ts: seq<Tag>)
    requires Unique(ts, TagKey)
    ensures Unique(ts, StoredName)
  {
  }

  /** The saved candidates of a registry load back as they were. */
  lemma SavedPersonsLoad(ps: seq<Person>)
    requires Unique(ps, PersonKey)
    ensures LoadPersons(SavePersons(ps)) == Ok(ps)
  {
    LoadAllOfDecoded(SavePersons(ps), ps, Decoded, PersonKey, DuplicatePersonMessage);
  }

  /**
   * Reloading a registry whose candidates hold only catalogue entries
   * changes nothing: no tag is registered anew and every candidate resolves
   * to itself. With `SavedTagsLoad`, `SavedPersonsLoad` and the loader's
   * contract, saving then loading gives the registry back.
   */
  lemma ReloadChangesNothing(tags: seq<Tag>, persons: seq<Person>, loadedTags: seq<Tag>, loadedPersons: seq<Person>)
    requires Unique(tags, TagKey) && Unique(loadedTags, TagKey)
    requires forall i :: 0 <= i < |persons| ==> persons[i].tags <= set t | t in tags
    requires Extends(tags, loadedTags, TagKey, UsedTags(persons))
    requires loadedPersons == ResolveEach(loadedTags, persons)
    ensures loadedTags == tags && loadedPersons == persons
  {
    if |loadedTags| > |tags| {
      assert false;
    }
    assert loadedTags == loadedTags[..|tags|];
    forall i | 0 <= i < |persons| ensures loadedPersons[i] == persons[i] {
      ResolveAllOfEntries(tags, TagKey, persons[i].tags);
    }
  }

  // ---------------------------------------------------------------------------
  // The tag duplicate check compares names exactly.

  const Friends := Tag("Friends", DefaultCategory, DefaultColour, DefaultDescription)
  const LowerFriends := Tag("friends", DefaultCategory, DefaultColour, DefaultDescription)

  /**
   * Two stored tags differing only in case pass the loader's duplicate check,
   * so installing them hits the catalogue's unchecked duplicate error rather
   * than the checked "duplicate tag(s)" message.
   */
  lemma CaseVariantsPassTagCheck()
    ensures LoadTags([AdaptTag(Friends), AdaptTag(LowerFriends)]) == Ok([Friends, LowerFriends])
    ensures !Unique([Friends, LowerFriends], TagKey)
  {
    var ts := [Friends, LowerFriends];
    assert forall i :: 0 <= i < |ts| ==> NormalTag(ts[i]) by {
      DefaultsAreNormal("Friends");
      DefaultsAreNormal("friends");
    }
    assert Unique(ts, StoredName) by {
      assert StoredName(ts[0])[0] != StoredName(ts[1])[0];
    }
    SavedTagsLoad(ts);
    SaveTwoTags(Friends, LowerFriends);
    FriendsSameIdentity();
    assert TagKey(ts[0]) == TagKey(ts[1]);
  }

  lemma SaveTwoTags(a: Tag, b: Tag)
    ensures SaveTags([a, b]) == [AdaptTag(a), AdaptTag(b)]
  {
  }

  /** The intended tag phase: names are compared ignoring case, as the catalogue does. */
  function LoadTagsByIdentity(js: seq<StoredTag>): (r: Result<seq<Tag>, string>)
    ensures r.Ok? ==> Replace(r.value, TagKey, DuplicateTag).Ok?
  {
    LoadAll(js, TagToModel, TagKey, DuplicateTagMessage)
  }

  /**
   * The identity check accepts exactly the stored lists the exact-name check
   * accepts and the catalogue then installs, with the same result; every
   * other list it refuses with the checked message or a decoding failure.
   */
  lemma IdentityCheckMeaning(js: seq<StoredTag>)
    ensures LoadTagsByIdentity(js).Ok? <==> LoadTags(js).Ok? && Unique(LoadTags(js).value, TagKey)
    ensures LoadTagsByIdentity(js).Ok? ==> LoadTagsByIdentity(js) == LoadTags(js)
  {
    forall a: Tag, b: Tag | TagKey(a) != TagKey(b) ensures StoredName(a) != StoredName(b) {
    }
    LoadAllCoarser(js, TagToModel, StoredName, TagKey, DuplicateTagMessage);
  }

  /** The case variants that slip through the exact-name check are refused with the checked message. */
  lemma IdentityCheckRefusesCaseVariants()
    ensures LoadTagsByIdentity([AdaptTag(Friends), AdaptTag(LowerFriends)]) == Err(DuplicateTagMessage)
  {
    CaseVariantsPassTagCheck();
    var js := [AdaptTag(Friends), AdaptTag(LowerFriends)];
    IdentityCheckMeaning(js);
    assert LoadTagsByIdentity(js).Err?;
  }
}
