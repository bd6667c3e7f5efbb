/**
 * The commands on the tag catalogue: add, edit and delete a tag definition,
 * and the helpers that tie candidates' tags to the catalogue. Edits and
 * deletions cascade to the candidates holding the tag, through the
 * registry's own operations.
 */
module TagCommands {
  import opened Text
  import opened Tags
  import opened Names
  import opened Persons
  import opened UniqueLists
  import opened KeyedSets
  import opened Catalogues
  import opened Registry
  import opened Models

  const TagNotFoundMessage := "Would you like to create this tag first?"
  const DuplicateTagMessage := "This tag already exists in the tag list."
  const NotEditedMessage := "At least one field to edit must be provided."
  const EditTargetMissingMessage := "This tag does not exist in the tag list."

  // ---------------------------------------------------------------------------
  // shared helpers

  /**
   * `resolveTags`: each tag stands for the catalogue entry with its
   * identity; the first tag the catalogue does not know fails the lot.
   * Nothing is changed either way.
   */
  method ResolveTags(m: Model, tags: set<Tag>) returns (r: Result<set<Tag>, CommandError>)
    requires m.Valid()
    ensures r.Ok? <==> forall t :: t in tags ==> Find(m.registry.tags, TagKey, t) >= 0
    ensures r.Ok? ==> r.value == ResolveAll(m.registry.tags, TagKey, tags)
    ensures r.Err? ==> r.error == Refused(TagNotFoundMessage)
  {
    var remaining := tags;
    ghost var ts := m.registry.tags;
    ghost var done: set<Tag> := {};
    var resolved: set<Tag> := {};
    while remaining != {}
      invariant done + remaining == tags && done !! remaining
      invariant forall t :: t in done ==> Find(ts, TagKey, t) >= 0
      invariant resolved == ResolveAll(ts, TagKey, done)
      decreases |remaining|
    {
      var t :| t in remaining;
      var found := m.registry.GetTag(t);
      if found.Err? {
        assert Find(ts, TagKey, t) < 0;
        return Err(Refused(TagNotFoundMessage));
      }
      ResolveOne(ts, done, t, found.value);
      resolved := resolved + {found.value};
      MoveOne(tags, done, remaining, t);
      done := done + {t};
      remaining := remaining - {t};
    }
    return Ok(resolved);
  }

  /** Resolving one more tag adds the catalogue entry found for it. */
  lemma ResolveOne(ts: seq<Tag>, done: set<Tag>, t: Tag, u: Tag)
    requires Unique(ts, TagKey) && u in ts && TagKey(u) == TagKey(t)
    requires forall x :: x in done ==> Find(ts, TagKey, x) >= 0
    ensures forall x :: x in done + {t} ==> Find(ts, TagKey, x) >= 0
    ensures ResolveAll(ts, TagKey, done + {t}) == ResolveAll(ts, TagKey, done) + {u}
  {
    FindByKey(ts, TagKey, t, u);
  }

  /**
   * `rebuildPersonWithTags`: the five-argument constructor on the source's
   * contact details, so the rebuilt candidate is added `now`, unrated and
   * back in the first stage. It stays `equals` to the source exactly when
   * the tags are equal and the source was in the first stage.
   */
  function RebuildPersonWithTags(source: Person, tags: set<Tag>, now: DateAdded): (p: Person)
    ensures IsSamePerson(p, source) && p.tags == tags && p.date == now
    ensures p.phone == source.phone && p.email == source.email && p.address == source.address
    ensures p.rating == Ratings.Unrated && p.stage == Stages.Candidates
    ensures PersonEquals(source, p) <==> TagSetEquals(source.tags, tags) && source.stage == Stages.Candidates
  {
    NewPerson(source.name, source.phone, source.email, source.address, tags, now)
  }

  // ---------------------------------------------------------------------------
  // tagadd

  function AddSuccess(t: Tag): string
  {
    "New tag added: " + t.tagName
  }

  datatype TagAddCommand = TagAddCommand(tag: Tag)
  {
    /** What `execute` does to the catalogue: refuse a known identity, else append. */
    function Outcome(ts: seq<Tag>): Result<(seq<Tag>, Feedback), CommandError>
    {
      if exists i :: 0 <= i < |ts| && TagKey(ts[i]) == TagKey(tag) then Err(Refused(DuplicateTagMessage))
      else Ok((ts + [tag], Says(AddSuccess(tag))))
    }

    /** `equals` compares the tags with tag equality. */
    predicate Equals(other: TagAddCommand)
    {
      TagEquals(tag, other.tag)
    }

    /**
     * A success appends the tag and keeps the catalogue unique, and the tag
     * is then known; adding the same identity again, in any case, is refused.
     */
    lemma AddMeaning(ts: seq<Tag>, again: Tag)
      requires Unique(ts, TagKey) && Outcome(ts).Ok?
      requires IsSameTag(again, tag)
      ensures Unique(Outcome(ts).value.0, TagKey)
      ensures Find(Outcome(ts).value.0, TagKey, tag) == |ts|
      ensures TagAddCommand(again).Outcome(Outcome(ts).value.0) == Err(Refused(DuplicateTagMessage))
    {
      var grown := ts + [tag];
      assert Add(ts, TagKey, tag, DuplicateTag).Ok?;
      assert TagKey(grown[|ts|]) == TagKey(again);
    }

    /** `execute`: the catalogue check comes first, so a refusal changes nothing. */
    method Execute(m: Model) returns (r: Result<Feedback, CommandError>)
      requires m.Valid()
      modifies m.registry
      ensures m.Valid() && m.registry.persons == old(m.registry.persons)
      ensures r == (match Outcome(old(m.registry.tags))
                    case Ok(v) => Ok(v.1)
                    case Err(e) => Err(e))
      ensures m.registry.tags ==
        if r.Ok? then Outcome(old(m.registry.tags)).value.0 else old(m.registry.tags)
    {
      var known := m.registry.HasTag(tag);
      if known {
        return Err(Refused(DuplicateTagMessage));
      }
      var o := m.registry.AddTag(tag);
      r := Ok(Says(AddSuccess(tag)));
    }
  }

  // ---------------------------------------------------------------------------
  // tagdelete

  function DeleteSuccess(t: Tag): string
  {
    "Deleted tag: " + t.tagName
  }

  /** The registry after a deletion: the catalogue and the candidate list. */
  datatype RegistryState = RegistryState(tags: seq<Tag>, persons: seq<Person>)

  datatype TagDeleteCommand = TagDeleteCommand(targetTagName: string)
  {
    /**
     * What `execute` does: the name is made into a tag (which can reject
     * it), looked up by identity, and the stored entry is removed from the
     * catalogue and from every candidate.
     */
    function Outcome(ts: seq<Tag>, ps: seq<Person>): Result<(RegistryState, Feedback), CommandError>
    {
      match DefaultTag(targetTagName)
      case Err(e) => Err(IllegalArgument(e))
      case Ok(probe) =>
        var k := Find(ts, TagKey, probe);
        if k < 0 then Err(Refused(TagNotFoundMessage))
        else
          var found := ts[k];
          FindOfKeyOf(ts, probe);
          Ok((RegistryState(Remove(ts, TagKey, found, TagNotFound).value, Cascade(ps, found, None)),
              Says(DeleteSuccess(found))))
    }

    /** `equals` compares the names exactly. */
    predicate Equals(other: TagDeleteCommand)
    {
      targetTagName == other.targetTagName
    }

    /**
     * A deletion succeeds exactly when the name is valid and some entry has
     * its identity; afterwards neither the catalogue nor any candidate holds
     * a tag of that identity, and every other entry and candidate tag stays.
     */
    lemma DeleteMeaning(ts: seq<Tag>, ps: seq<Person>)
      requires Unique(ts, TagKey)
      ensures Outcome(ts, ps).Ok? <==>
        IsValidTagName(targetTagName) && exists i :: 0 <= i < |ts| && TagKey(ts[i]) == ToLower(targetTagName)
      ensures Outcome(ts, ps).Ok? ==>
        var after := Outcome(ts, ps).value.0;
        Unique(after.tags, TagKey) &&
        (forall i :: 0 <= i < |after.tags| ==> TagKey(after.tags[i]) != ToLower(targetTagName)) &&
        (forall t :: t in ts && TagKey(t) != ToLower(targetTagName) ==> t in after.tags) &&
        |after.persons| == |ps| &&
        forall i :: 0 <= i < |ps| ==>
          (forall t :: t in after.persons[i].tags ==> TagKey(t) != ToLower(targetTagName)) &&
          (forall t :: t in ps[i].tags && TagKey(t) != ToLower(targetTagName) ==> t in after.persons[i].tags)
    {
      if DefaultTag(targetTagName).Ok? {
        var probe := DefaultTag(targetTagName).value;
        var k := Find(ts, TagKey, probe);
        if k >= 0 {
          var found := ts[k];
          FindOfKeyOf(ts, probe);
          RemoveAt(ts, TagKey, k, ts[..k] + ts[k + 1..]);
          RemoveAtMembers(ts, TagKey, k);
          CascadeRemoves(ps, found);
        }
      }
    }

    /** Removing a tag from every candidate drops that identity and keeps the other tags. */
    static lemma CascadeRemoves(ps: seq<Person>, target: Tag)
      ensures |Cascade(ps, target, None)| == |ps|
      ensures forall i :: 0 <= i < |ps| ==>
        (forall t :: t in Cascade(ps, target, None)[i].tags ==> TagKey(t) != TagKey(target)) &&
        (forall t :: t in ps[i].tags && TagKey(t) != TagKey(target) ==> t in Cascade(ps, target, None)[i].tags)
    {
      forall i | 0 <= i < |ps| {
        CascadeMeaning(ps, target, None, i);
      }
    }

    /** `execute`: a failed lookup changes nothing; otherwise the entry found is removed. */
    method Execute(m: Model) returns (r: Result<Feedback, CommandError>)
      requires m.Valid()
      modifies m.registry
      ensures m.Valid()
      ensures r == (match Outcome(old(m.registry.tags), old(m.registry.persons))
                    case Ok(v) => Ok(v.1)
                    case Err(e) => Err(e))
      ensures r.Ok? ==>
        RegistryState(m.registry.tags, m.registry.persons) == Outcome(old(m.registry.tags), old(m.registry.persons)).value.0
      ensures r.Err? ==> m.registry.tags == old(m.registry.tags) && m.registry.persons == old(m.registry.persons)
    {
      var probe := DefaultTag(targetTagName);
      if probe.Err? {
        return Err(IllegalArgument(probe.error));
      }
      var found := m.registry.GetTag(probe.value);
      if found.Err? {
        return Err(Refused(TagNotFoundMessage));
      }
      FindByKey(m.registry.tags, TagKey, probe.value, found.value);
      var o := m.registry.RemoveTag(found.value);
      r := Ok(Says(DeleteSuccess(found.value)));
    }
  }

  /** The entry `Find` locates has the probe's identity, and is found at its own position. */
  lemma FindOfKeyOf(ts: seq<Tag>, probe: Tag)
    requires Find(ts, TagKey, probe) >= 0
    ensures Find(ts, TagKey, ts[Find(ts, TagKey, probe)]) == Find(ts, TagKey, probe)
  {
  }

  // ---------------------------------------------------------------------------
  // tagedit

  /** The fields a tag edit sets; an absent field keeps the tag's value. */
  datatype EditTagDescriptor = EditTagDescriptor(
    name: Option<string>, category: Option<string>, colour: Option<string>, description: Option<string>)
  {
    predicate IsAnyFieldEdited()
    {
      name.Some? || category.Some? || colour.Some? || description.Some?
    }
  }

  function OrElse(o: Option<string>, fallback: string): (s: string)
    ensures o.Some? ==> s == o.value
    ensures o.None? ==> s == fallback
  {
    if o.Some? then o.value else fallback
  }

  /**
   * `createEditedTag`: the full constructor on the descriptor's values,
   * falling back to the tag's own values. A field the descriptor leaves
   * unset keeps the tag's value, so an edit that sets nothing rebuilds the
   * tag itself.
   */
  function CreateEditedTag(t: Tag, d: EditTagDescriptor): (r: Result<Tag, TagError>)
    ensures r.Ok? <==>
      IsValidTagName(OrElse(d.name, t.tagName)) && IsValidCategory(OrElse(d.category, t.category)) &&
      IsValidColour(OrElse(d.colour, t.colour)) && IsValidDescription(OrElse(d.description, t.description))
    ensures r.Err? ==>
      r.error == FirstFailure(OrElse(d.name, t.tagName), OrElse(d.category, t.category), OrElse(d.colour, t.colour), OrElse(d.description, t.description))
    ensures r.Ok? ==>
      && r.value.tagName == OrElse(d.name, t.tagName)
      && r.value.category == Trim(OrElse(d.category, t.category))
      && r.value.colour == ToUpper(OrElse(d.colour, t.colour))
      && r.value.description == Trim(OrElse(d.description, t.description))
    ensures r.Ok? && NormalTag(t) ==>
      && (d.name.None? ==> r.value.tagName == t.tagName)
      && (d.category.None? ==> r.value.category == t.category)
      && (d.colour.None? ==> r.value.colour == t.colour)
      && (d.description.None? ==> r.value.description == t.description)
    ensures NormalTag(t) && !d.IsAnyFieldEdited() ==> r == Ok(t)
  {
    if NormalTag(t) then NormalFieldsFixed(t); RebuildNormalTag(t);
      MakeTag(OrElse(d.name, t.tagName), OrElse(d.category, t.category), OrElse(d.colour, t.colour), OrElse(d.description, t.description))
    else MakeTag(OrElse(d.name, t.tagName), OrElse(d.category, t.category), OrElse(d.colour, t.colour), OrElse(d.description, t.description))
  }

  function EditSuccess(t: Tag): string
  {
    "Edited tag: " + t.tagName
  }

  datatype TagEditCommand = TagEditCommand(targetTagName: string, descriptor: EditTagDescriptor)
  {
    /** The position of the entry to edit: the target name made into a tag and looked up by identity. */
    function Located(ts: seq<Tag>): (r: Result<nat, CommandError>)
      ensures r.Ok? <==> IsValidTagName(targetTagName) && exists i :: 0 <= i < |ts| && TagKey(ts[i]) == ToLower(targetTagName)
      ensures r.Ok? ==> r.value < |ts| && TagKey(ts[r.value]) == ToLower(targetTagName)
      ensures r.Ok? && Unique(ts, TagKey) ==> Find(ts, TagKey, ts[r.value]) == r.value
      ensures r.Err? ==> r.error == if IsValidTagName(targetTagName) then Refused(EditTargetMissingMessage) else IllegalArgument(InvalidName)
    {
      match DefaultTag(targetTagName)
      case Err(e) => Err(IllegalArgument(e))
      case Ok(probe) =>
        assert TagKey(probe) == ToLower(targetTagName);
        var k := Find(ts, TagKey, probe);
        if k < 0 then Err(Refused(EditTargetMissingMessage))
        else
          FindOfKeyOf(ts, probe);
          Ok(k)
    }

    /** The edited tag, refused when it cannot be built or equals the original. */
    function Revised(original: Tag): (r: Result<Tag, CommandError>)
      ensures r.Ok? ==> !TagEquals(original, r.value) && NormalTag(r.value)
      ensures r.Ok? ==> r.value.tagName == OrElse(descriptor.name, original.tagName)
    {
      match CreateEditedTag(original, descriptor)
      case Err(e) => Err(IllegalArgument(e))
      case Ok(edited) => if TagEquals(original, edited) then Err(Refused(NotEditedMessage)) else Ok(edited)
    }

    /**
     * What `execute` does, check by check: the target must be in the
     * catalogue, some field must be set, the edited tag must be
     * constructible and differ from the original, and no other entry may
     * have the new identity. A success replaces the entry in place and in
     * every candidate holding it.
     */
    function Outcome(ts: seq<Tag>, ps: seq<Person>): Result<(RegistryState, Feedback), CommandError>
    {
      match Located(ts)
      case Err(e) => Err(e)
      case Ok(k) =>
        if !descriptor.IsAnyFieldEdited() then Err(Refused(NotEditedMessage))
        else
          match Revised(ts[k])
          case Err(e) => Err(e)
          case Ok(edited) =>
            match Update(ts, TagKey, ts[k], edited, TagNotFound, DuplicateTag)
            case Err(e) => Err(if e == DuplicateTag then Refused(DuplicateTagMessage) else Unchecked(e))
            case Ok(updated) =>
              Ok((RegistryState(updated, Cascade(ps, ts[k], Some(edited))), Says(EditSuccess(edited))))
    }

    /** `equals`: the same target name and the same descriptor. */
    predicate Equals(other: TagEditCommand)
    {
      targetTagName == other.targetTagName && descriptor == other.descriptor
    }

    /**
     * A success puts the edited tag where the original was, leaves every
     * other entry in place, keeps the catalogue unique, and cascades the
     * replacement to the candidates. The target is looked up before
     * anything else is checked: an invalid or missing target is reported
     * whatever the descriptor says, and only a found target with no field
     * set, or an edit that changes nothing, gets the not-edited message.
     */
    lemma EditMeaning(ts: seq<Tag>, ps: seq<Person>)
      requires Unique(ts, TagKey)
      ensures !IsValidTagName(targetTagName) ==> Outcome(ts, ps) == Err(IllegalArgument(InvalidName))
      ensures IsValidTagName(targetTagName) && (forall i :: 0 <= i < |ts| ==> TagKey(ts[i]) != ToLower(targetTagName)) ==>
        Outcome(ts, ps) == Err(Refused(EditTargetMissingMessage))
      ensures Located(ts).Ok? && !descriptor.IsAnyFieldEdited() ==> Outcome(ts, ps) == Err(Refused(NotEditedMessage))
      ensures Located(ts).Ok? && descriptor.IsAnyFieldEdited() && CreateEditedTag(ts[Located(ts).value], descriptor) == Ok(ts[Located(ts).value]) ==>
        Outcome(ts, ps) == Err(Refused(NotEditedMessage))
      ensures Outcome(ts, ps).Ok? ==>
        && Located(ts).Ok? && Revised(ts[Located(ts).value]).Ok?
        && var k := Located(ts).value;
           var edited := Revised(ts[k]).value;
           var after := Outcome(ts, ps).value.0;
           && after.tags == ts[k := edited]
           && Unique(after.tags, TagKey)
           && after.persons == Cascade(ps, ts[k], Some(edited))
    {
      if Located(ts).Ok? {
        var k := Located(ts).value;
        if descriptor.IsAnyFieldEdited() && CreateEditedTag(ts[k], descriptor) == Ok(ts[k]) {
          EqualsIgnoreCaseIsLowerEquality(ts[k].tagName, ts[k].tagName);
          assert Revised(ts[k]) == Err(Refused(NotEditedMessage));
        }
      }
    }

    /**
     * An edit that passes every other check but gives the tag the identity
     * of another entry is refused as a duplicate.
     */
    lemma RenameOntoOtherRefused(ts: seq<Tag>, ps: seq<Person>, other: nat)
      requires Unique(ts, TagKey) && descriptor.IsAnyFieldEdited()
      requires Located(ts).Ok? && Revised(ts[Located(ts).value]).Ok?
      requires other < |ts| && other != Located(ts).value
      requires TagKey(ts[other]) == TagKey(Revised(ts[Located(ts).value]).value)
      ensures Outcome(ts, ps) == Err(Refused(DuplicateTagMessage))
    {
      var k := Located(ts).value;
      var edited := Revised(ts[k]).value;
      assert TagKey(ts[other]) != TagKey(ts[k]);
    }

    /**
     * `execute`: every refusal precedes the update and changes nothing;
     * a success replaces the entry in the catalogue and in the candidates.
     */
    method Execute(m: Model) returns (r: Result<Feedback, CommandError>)
      requires m.Valid()
      modifies m.registry
      ensures m.Valid()
      ensures r == (match Outcome(old(m.registry.tags), old(m.registry.persons))
                    case Ok(v) => Ok(v.1)
                    case Err(e) => Err(e))
      ensures r.Ok? ==>
        RegistryState(m.registry.tags, m.registry.persons) == Outcome(old(m.registry.tags), old(m.registry.persons)).value.0
      ensures r.Err? ==> m.registry.tags == old(m.registry.tags) && m.registry.persons == old(m.registry.persons)
    {
      var probe := DefaultTag(targetTagName);
      if probe.Err? {
        return Err(IllegalArgument(probe.error));
      }
      var found := m.registry.GetTag(probe.value);
      if found.Err? {
        return Err(Refused(EditTargetMissingMessage));
      }
      FindByKey(m.registry.tags, TagKey, probe.value, found.value);
      if !descriptor.IsAnyFieldEdited() {
        return Err(Refused(NotEditedMessage));
      }
      var original := found.value;
      var created := CreateEditedTag(original, descriptor);
      if created.Err? {
        return Err(IllegalArgument(created.error));
      }
      var edited := created.value;
      if TagEquals(original, edited) {
        return Err(Refused(NotEditedMessage));
      }
      var o := m.registry.SetTag(original, edited);
      match o
      case Failed(e) =>
        return Err(if e == DuplicateTag then Refused(DuplicateTagMessage) else Unchecked(e));
      case Done =>
        r := Ok(Says(EditSuccess(edited)));
    }
  }
}
