/**
 * The command parsers for the candidate and tag commands. Each works on the
 * prefixed arguments of one command line, checks them in a fixed order and
 * either builds the command or says what was wrong.
 */
module Parsers {
  import opened Text
  import opened Tags
  import opened Stages
  import opened Ratings
  import opened Models
  import opened ParserUtil
  import opened Sequences
  import opened CandidateCommands
  import opened TagCommands

  /** The argument prefixes these commands recognise. */
  datatype Prefix = From | To | Rate | TagName | NewTagName | TagCategory | TagColour | TagDescription

  /**
   * A tokenised command line: the text before the first prefix, and for
   * each prefix the values given with it, in order.
   */
  datatype ArgMultimap = ArgMultimap(preamble: string, values: Prefix -> seq<string>)
  {
    /** `getValue`: the last value given with the prefix, if any. */
    function GetValue(p: Prefix): (r: Option<string>)
      ensures r.Some? <==> values(p) != []
      ensures r.Some? ==> r.value == values(p)[|values(p)| - 1]
    {
      if values(p) != [] then Some(values(p)[|values(p)| - 1]) else None
    }

    predicate IsDuplicated(p: Prefix)
    {
      |values(p)| > 1
    }

    /** `verifyNoDuplicatePrefixesFor`: the prefixes among `ps` given more than once. */
    function Duplicated(ps: seq<Prefix>): (r: seq<Prefix>)
      ensures forall p :: p in r <==> p in ps && IsDuplicated(p)
    {
      FilterMembers(ps, (p: Prefix) => IsDuplicated(p));
      Filter(ps, (p: Prefix) => IsDuplicated(p))
    }
  }

  /** The command whose usage text a format error shows. */
  datatype Usage = RateUsage | MoveUsage | DeleteUsage | TagAddUsage | TagEditUsage | TagDeleteUsage

  datatype ParseError =
    | InvalidFormat(usage: Usage)
    | DuplicatePrefixes(prefixes: seq<Prefix>)
    | Rejected(message: string)

  /** The duplicate check on `ps`: nothing when no prefix among them is repeated. */
  function CheckDuplicates(m: ArgMultimap, ps: seq<Prefix>): (r: Option<ParseError>)
    ensures r.None? <==> forall p :: p in ps ==> !m.IsDuplicated(p)
    ensures r.Some? ==> r.value == DuplicatePrefixes(m.Duplicated(ps))
  {
    var d := m.Duplicated(ps);
    if d == [] then None
    else
      assert d[0] in d;
      Some(DuplicatePrefixes(d))
  }

  /** A present value that is not empty. */
  predicate Given(v: Option<string>)
  {
    v.Some? && v.value != []
  }

  // ---------------------------------------------------------------------------
  // rate

  /**
   * `RateCommandParser.parse`: the index, then the rating (present, not
   * empty and known), then the stage (present, not empty and valid); every
   * failure is a format error.
   */
  function ParseRate(m: ArgMultimap): (r: Result<RateCommand, ParseError>)
    ensures r.Err? ==> r.error == InvalidFormat(RateUsage)
    ensures r.Ok? <==>
      && ParseIndex(m.preamble).Ok?
      && Given(m.GetValue(Rate)) && ParseRating(m.GetValue(Rate).value).Ok?
      && Given(m.GetValue(From)) && ParseStage(m.GetValue(From).value).Ok?
    ensures r.Ok? ==>
      && r.value.index == ParseIndex(m.preamble).value
      && r.value.rating == ParseRating(m.GetValue(Rate).value).value
      && r.value.fromStage == Some(ParseStage(m.GetValue(From).value).value)
  {
    var rating := m.GetValue(Rate);
    var stage := m.GetValue(From);
    if ParseIndex(m.preamble).Err? then Err(InvalidFormat(RateUsage))
    else if !Given(rating) || ParseRating(rating.value).Err? then Err(InvalidFormat(RateUsage))
    else if !Given(stage) || ParseStage(stage.value).Err? then Err(InvalidFormat(RateUsage))
    else Ok(RateCommand(ParseIndex(m.preamble).value, ParseRating(rating.value).value, Some(ParseStage(stage.value).value)))
  }

  /** The arguments `INDEX r/RATING from/STAGE` of a stage-scoped rate command. */
  function RateArgs(index: string, rating: string, stage: string): ArgMultimap
  {
    ArgMultimap(index, (q: Prefix) => if q == Rate then [rating] else if q == From then [stage] else [])
  }

  /** Parsing the printed arguments of a stage-scoped rate command, in any accepted spelling, gives the command back. */
  lemma RateRoundTrip(indexText: string, ratingText: string, stageText: string, index: Index, rating: Rating, stage: Stage)
    requires ParseIndex(indexText) == Ok(index)
    requires ParseRating(ratingText) == Ok(rating) && ParseStage(stageText) == Ok(stage)
    ensures ParseRate(RateArgs(indexText, ratingText, stageText)) == Ok(RateCommand(index, rating, Some(stage)))
  {
    RateArgsValues(indexText, ratingText, stageText);
    ParseRatingNonEmpty(ratingText);
    ParseStageNonEmpty(stageText);
  }

  lemma RateArgsValues(indexText: string, ratingText: string, stageText: string)
    ensures var m := RateArgs(indexText, ratingText, stageText);
      m.preamble == indexText && m.GetValue(Rate) == Some(ratingText) && m.GetValue(From) == Some(stageText)
  {
  }

  /** Only a non-empty word can name a rating. */
  lemma ParseRatingNonEmpty(rating: string)
    ensures ParseRating(rating).Ok? ==> rating != []
  {
  }

  /** In particular the display names of the rating and the stage. */
  lemma RateDisplayRoundTrip(index: Index, rating: Rating, stage: Stage)
    requires OneBased(index) <= MaxInt
    ensures ParseRate(RateArgs(NatToDecimal(OneBased(index)), Ratings.DisplayName(rating), Stages.DisplayName(stage))) ==
      Ok(RateCommand(index, rating, Some(stage)))
  {
    ParseIndexRoundTrip(index);
    RatingRoundTrip(rating);
    DisplayNameParses(stage);
    RateRoundTrip(NatToDecimal(OneBased(index)), Ratings.DisplayName(rating), Stages.DisplayName(stage), index, rating, stage);
  }

  // ---------------------------------------------------------------------------
  // move

  /**
   * `MoveCommandParser.parse`: the index first, then both stages must be
   * present, then neither may be repeated, then both must be valid.
   */
  function ParseMove(m: ArgMultimap): (r: Result<MoveCommand, ParseError>)
    ensures ParseIndex(m.preamble).Err? ==> r == Err(InvalidFormat(MoveUsage))
    ensures ParseIndex(m.preamble).Ok? && (m.GetValue(From).None? || m.GetValue(To).None?) ==>
      r == Err(InvalidFormat(MoveUsage))
    ensures ParseIndex(m.preamble).Ok? && m.GetValue(From).Some? && m.GetValue(To).Some? ==>
      match CheckDuplicates(m, [From, To])
      case Some(e) => r == Err(e)
      case None =>
        match (ParseStage(m.GetValue(From).value), ParseStage(m.GetValue(To).value))
        case (Ok(a), Ok(b)) => r == Ok(MoveCommand(ParseIndex(m.preamble).value, a, b))
        case _ => r == Err(InvalidFormat(MoveUsage))
  {
    var index := ParseIndex(m.preamble);
    var from := m.GetValue(From);
    var to := m.GetValue(To);
    if index.Err? then Err(InvalidFormat(MoveUsage))
    else if from.None? || to.None? then Err(InvalidFormat(MoveUsage))
    else match CheckDuplicates(m, [From, To])
      case Some(e) => Err(e)
      case None =>
        match (ParseStage(from.value), ParseStage(to.value))
        case (Ok(a), Ok(b)) => Ok(MoveCommand(index.value, a, b))
        case _ => Err(InvalidFormat(MoveUsage))
  }

  /** The arguments `INDEX from/STAGE to/STAGE` of a move command. */
  function MoveArgs(index: string, from: string, to: string): ArgMultimap
  {
    ArgMultimap(index, (q: Prefix) => if q == From then [from] else if q == To then [to] else [])
  }

  /** Parsing the printed arguments of a move command, in any accepted spelling, gives the command back. */
  lemma MoveRoundTrip(indexText: string, fromText: string, toText: string, index: Index, from: Stage, to: Stage)
    requires ParseIndex(indexText) == Ok(index)
    requires ParseStage(fromText) == Ok(from) && ParseStage(toText) == Ok(to)
    ensures ParseMove(MoveArgs(indexText, fromText, toText)) == Ok(MoveCommand(index, from, to))
  {
    MoveArgsValues(indexText, fromText, toText);
  }

  lemma MoveArgsValues(indexText: string, fromText: string, toText: string)
    ensures var m := MoveArgs(indexText, fromText, toText);
      m.preamble == indexText && m.GetValue(From) == Some(fromText) && m.GetValue(To) == Some(toText) &&
      CheckDuplicates(m, [From, To]).None?
  {
    var m := MoveArgs(indexText, fromText, toText);
    assert m.GetValue(From) == Some(fromText) && m.GetValue(To) == Some(toText);
    assert !m.IsDuplicated(From) && !m.IsDuplicated(To);
  }

  /** A repeated stage prefix is reported even when the stage values are not stages at all. */
  lemma MoveDuplicatesBeforeStages(indexText: string)
    requires ParseIndex(indexText).Ok?
    ensures
      ParseMove(MoveArgs(indexText, "x", "z").(values := (q: Prefix) => if q == From then ["x", "y"] else if q == To then ["z"] else [])) ==
      Err(DuplicatePrefixes([From]))
  {
    var m := MoveArgs(indexText, "x", "z").(values := (q: Prefix) => if q == From then ["x", "y"] else if q == To then ["z"] else []);
    assert m.GetValue(From).Some? && m.GetValue(To).Some?;
    assert m.IsDuplicated(From) && !m.IsDuplicated(To);
    var d := m.Duplicated([From, To]);
    assert [From, To][..1] == [From];
    assert [From][..0] == [];
    assert d == [From];
  }

  // ---------------------------------------------------------------------------
  // delete

  /**
   * `DeleteCommandParser.parse`: the index, then, only when a stage is
   * given, the duplicate check and the stage; without one the command is
   * not scoped to a stage.
   */
  function ParseDelete(m: ArgMultimap): (r: Result<DeleteCommand, ParseError>)
    ensures ParseIndex(m.preamble).Err? ==> r == Err(InvalidFormat(DeleteUsage))
    ensures ParseIndex(m.preamble).Ok? && m.GetValue(From).None? ==>
      r == Ok(DeleteCommand(ParseIndex(m.preamble).value, None))
    ensures ParseIndex(m.preamble).Ok? && m.GetValue(From).Some? ==>
      match CheckDuplicates(m, [From])
      case Some(e) => r == Err(e)
      case None =>
        match ParseStage(m.GetValue(From).value)
        case Ok(st) => r == Ok(DeleteCommand(ParseIndex(m.preamble).value, Some(st)))
        case Err(_) => r == Err(InvalidFormat(DeleteUsage))
  {
    var index := ParseIndex(m.preamble);
    var from := m.GetValue(From);
    if index.Err? then Err(InvalidFormat(DeleteUsage))
    else if from.None? then Ok(DeleteCommand(index.value, None))
    else match CheckDuplicates(m, [From])
      case Some(e) => Err(e)
      case None =>
        match ParseStage(from.value)
        case Ok(st) => Ok(DeleteCommand(index.value, Some(st)))
        case Err(_) => Err(InvalidFormat(DeleteUsage))
  }

  /** The arguments of a delete command: the index, and the stage when it is scoped to one. */
  function DeleteArgs(index: string, from: Option<string>): ArgMultimap
  {
    ArgMultimap(index, (q: Prefix) => if q == From && from.Some? then [from.value] else [])
  }

  /** Parsing the printed arguments of a delete command, in either form, gives the command back. */
  lemma DeleteRoundTrip(indexText: string, fromText: Option<string>, index: Index, from: Option<Stage>)
    requires ParseIndex(indexText) == Ok(index)
    requires fromText.None? <==> from.None?
    requires fromText.Some? ==> ParseStage(fromText.value) == Ok(from.value)
    ensures ParseDelete(DeleteArgs(indexText, fromText)) == Ok(DeleteCommand(index, from))
  {
    DeleteArgsValues(indexText, fromText);
  }

  lemma DeleteArgsValues(indexText: string, fromText: Option<string>)
    ensures var m := DeleteArgs(indexText, fromText);
      m.preamble == indexText && m.GetValue(From) == fromText && CheckDuplicates(m, [From]).None?
  {
    var m := DeleteArgs(indexText, fromText);
    assert !m.IsDuplicated(From);
  }

  // ---------------------------------------------------------------------------
  // tag add

  /** An optional field: parsed when present, the default otherwise. */
  function ParseOptional(v: Option<string>, parse: string -> Result<string, string>, default: string): (r: Result<string, string>)
    ensures v.None? ==> r == Ok(default)
    ensures v.Some? ==> r == parse(v.value)
  {
    if v.Some? then parse(v.value) else Ok(default)
  }

  const TagAddPrefixes := [TagName, TagCategory, TagColour, TagDescription]

  /** The tag the parsed fields make: the parsing has already checked each of them. */
  function TagOfFields(name: string, category: string, colour: string, description: string): (t: Tag)
    requires IsValidTagName(name) && IsValidCategory(category) && IsValidColour(colour) && IsValidDescription(description)
    ensures NormalTag(t) && t.tagName == name && EqualsIgnoreCase(t.colour, colour)
    ensures MakeTag(name, category, colour, description) == Ok(t)
  {
    MakeTag(name, category, colour, description).value
  }

  /**
   * `TagAddCommandParser.parse`: the name must be present, no field may be
   * repeated, then the name, category, colour and description are parsed in
   * that order, absent ones taking their defaults, and the tag is built.
   */
  function ParseTagAdd(m: ArgMultimap): (r: Result<TagAddCommand, ParseError>)
    ensures m.GetValue(TagName).None? ==> r == Err(InvalidFormat(TagAddUsage))
    ensures m.GetValue(TagName).Some? && CheckDuplicates(m, TagAddPrefixes).Some? ==>
      r == Err(CheckDuplicates(m, TagAddPrefixes).value)
    ensures m.GetValue(TagName).Some? && CheckDuplicates(m, TagAddPrefixes).None? ==>
      var name := ParseTagName(m.GetValue(TagName).value);
      var category := ParseOptional(m.GetValue(TagCategory), ParseTagCategory, DefaultCategory);
      var colour := ParseOptional(m.GetValue(TagColour), ParseTagColour, DefaultColour);
      var description := ParseOptional(m.GetValue(TagDescription), ParseTagDescription, DefaultDescription);
      && (r.Ok? <==> name.Ok? && category.Ok? && colour.Ok? && description.Ok?)
      && (r.Ok? ==> MakeTag(name.value, category.value, colour.value, description.value) == Ok(r.value.tag) && NormalTag(r.value.tag))
      && (r.Err? ==> r.error == Rejected(
            if name.Err? then NameConstraintsMessage
            else if category.Err? then CategoryConstraintsMessage
            else if colour.Err? then ColourConstraintsMessage
            else DescriptionConstraintsMessage))
  {
    var nameArg := m.GetValue(TagName);
    if nameArg.None? then Err(InvalidFormat(TagAddUsage))
    else match CheckDuplicates(m, TagAddPrefixes)
      case Some(e) => Err(e)
      case None =>
        match ParseTagName(nameArg.value)
        case Err(e) => Err(Rejected(e))
        case Ok(name) =>
          match ParseOptional(m.GetValue(TagCategory), ParseTagCategory, DefaultCategory)
          case Err(e) => Err(Rejected(e))
          case Ok(category) =>
            match ParseOptional(m.GetValue(TagColour), ParseTagColour, DefaultColour)
            case Err(e) => Err(Rejected(e))
            case Ok(colour) =>
              match ParseOptional(m.GetValue(TagDescription), ParseTagDescription, DefaultDescription)
              case Err(e) => Err(Rejected(e))
              case Ok(description) =>
                DefaultsValid();
                Ok(TagAddCommand(TagOfFields(name, category, colour, description)))
  }

  lemma DefaultsValid()
    ensures IsValidCategory(DefaultCategory) && IsValidColour(DefaultColour) && IsValidDescription(DefaultDescription)
  {
    DefaultsAreNormal("a");
  }

  /** The arguments `tn/NAME tc/CATEGORY tcol/COLOUR td/DESCRIPTION` that print a tag. */
  function TagAddArgs(t: Tag): ArgMultimap
  {
    ArgMultimap("", (q: Prefix) =>
      if q == TagName then [t.tagName]
      else if q == TagCategory then [t.category]
      else if q == TagColour then [t.colour]
      else if q == TagDescription then [t.description]
      else [])
  }

  /** Parsing the printed fields of a tag gives back a command adding that very tag. */
  lemma TagAddRoundTrip(t: Tag)
    requires NormalTag(t)
    ensures ParseTagAdd(TagAddArgs(t)) == Ok(TagAddCommand(t))
  {
    var m := TagAddArgs(t);
    TagAddArgsValues(t);
    TagNameParses(t.tagName);
    CategoryParses(t);
    ColourParses(t);
    DescriptionParses(t);
    assert ParseOptional(m.GetValue(TagCategory), ParseTagCategory, DefaultCategory) == Ok(t.category);
    assert ParseOptional(m.GetValue(TagColour), ParseTagColour, DefaultColour) == Ok(t.colour);
    assert ParseOptional(m.GetValue(TagDescription), ParseTagDescription, DefaultDescription) == Ok(t.description);
    RebuildNormalTag(t);
    DefaultsValid();
    assert TagOfFields(t.tagName, t.category, t.colour, t.description) == t;
  }

  lemma TagAddArgsValues(t: Tag)
    ensures var m := TagAddArgs(t);
      && m.GetValue(TagName) == Some(t.tagName) && m.GetValue(TagCategory) == Some(t.category)
      && m.GetValue(TagColour) == Some(t.colour) && m.GetValue(TagDescription) == Some(t.description)
      && CheckDuplicates(m, TagAddPrefixes).None?
  {
    var m := TagAddArgs(t);
    assert forall p :: p in TagAddPrefixes ==> !m.IsDuplicated(p);
  }

  /** The fields of a normal tag parse to themselves. */
  lemma CategoryParses(t: Tag)
    requires NormalTag(t)
    ensures ParseTagCategory(t.category) == Ok(t.category)
  {
    assert IsAlnum(t.category[|t.category| - 1]);
    TrimOfTrimmed(t.category);
  }

  lemma ColourParses(t: Tag)
    requires NormalTag(t)
    ensures ParseTagColour(t.colour) == Ok(t.colour)
  {
    assert forall i :: 0 <= i < |t.colour| ==> !IsTrimmable(t.colour[i]);
    TrimOfSolid(t.colour);
  }

  lemma DescriptionParses(t: Tag)
    requires NormalTag(t)
    ensures ParseTagDescription(t.description) == Ok(t.description)
  {
  }

  /** The arguments `tn/NAME` and nothing else. */
  function NameOnlyArgs(name: string): ArgMultimap
  {
    ArgMultimap("", (q: Prefix) => if q == TagName then [name] else [])
  }

  lemma NameOnlyArgsValues(name: string)
    ensures var m := NameOnlyArgs(name);
      && m.GetValue(TagName) == Some(name) && m.GetValue(NewTagName).None?
      && m.GetValue(TagCategory).None? && m.GetValue(TagColour).None? && m.GetValue(TagDescription).None?
      && CheckDuplicates(m, TagAddPrefixes).None? && CheckDuplicates(m, TagEditPrefixes).None?
      && CheckDuplicates(m, [TagName]).None?
  {
    var m := NameOnlyArgs(name);
    assert forall p :: !m.IsDuplicated(p);
  }

  /** Only the name is required: `tn/NAME` alone adds the tag with the default fields. */
  lemma TagAddNameOnly(name: string)
    requires IsValidTagName(name)
    ensures ParseTagAdd(NameOnlyArgs(name)) == Ok(TagAddCommand(DefaultTag(name).value))
  {
    NameOnlyArgsValues(name);
    TagNameParses(name);
    DefaultTagDelegates(name);
  }

  // ---------------------------------------------------------------------------
  // tag edit

  const TagEditPrefixes := [TagName, NewTagName, TagCategory, TagColour, TagDescription]

  /** A field of the descriptor: parsed when present, left unset otherwise. */
  function ParseField(v: Option<string>, parse: string -> Result<string, string>): (r: Result<Option<string>, string>)
    ensures v.None? ==> r == Ok(None)
    ensures v.Some? && parse(v.value).Ok? ==> r == Ok(Some(parse(v.value).value))
    ensures v.Some? && parse(v.value).Err? ==> r == Err(parse(v.value).error)
  {
    if v.None? then Ok(None)
    else match parse(v.value)
      case Ok(x) => Ok(Some(x))
      case Err(e) => Err(e)
  }

  /** The descriptor the new name, category, colour and description fields make, parsed in that order. */
  function ParseDescriptor(m: ArgMultimap): (r: Result<EditTagDescriptor, string>)
    ensures r.Ok? ==>
      && ParseField(m.GetValue(NewTagName), ParseTagName) == Ok(r.value.name)
      && ParseField(m.GetValue(TagCategory), ParseTagCategory) == Ok(r.value.category)
      && ParseField(m.GetValue(TagColour), ParseTagColour) == Ok(r.value.colour)
      && ParseField(m.GetValue(TagDescription), ParseTagDescription) == Ok(r.value.description)
    ensures r.Ok? ==> (r.value.IsAnyFieldEdited() <==>
      m.GetValue(NewTagName).Some? || m.GetValue(TagCategory).Some? || m.GetValue(TagColour).Some? || m.GetValue(TagDescription).Some?)
    ensures
      var name := ParseField(m.GetValue(NewTagName), ParseTagName);
      var category := ParseField(m.GetValue(TagCategory), ParseTagCategory);
      var colour := ParseField(m.GetValue(TagColour), ParseTagColour);
      var description := ParseField(m.GetValue(TagDescription), ParseTagDescription);
      && (r.Err? <==> (name.Err? || category.Err? || colour.Err? || description.Err?))
      && (r.Err? ==>
                  r.error ==
                    (if name.Err? then name.error
                     else if category.Err? then category.error
                     else if colour.Err? then colour.error
                     else description.error))
  {
    match ParseField(m.GetValue(NewTagName), ParseTagName)
    case Err(e) => Err(e)
    case Ok(name) =>
      match ParseField(m.GetValue(TagCategory), ParseTagCategory)
      case Err(e) => Err(e)
      case Ok(category) =>
        match ParseField(m.GetValue(TagColour), ParseTagColour)
        case Err(e) => Err(e)
        case Ok(colour) =>
          match ParseField(m.GetValue(TagDescription), ParseTagDescription)
          case Err(e) => Err(e)
          case Ok(description) => Ok(EditTagDescriptor(name, category, colour, description))
  }

  /**
   * `TagEditCommandParser.parse`: the target name must be present, no
   * field may be repeated, the target is parsed, then the fields; an edit
   * that sets no field is refused.
   */
  function ParseTagEdit(m: ArgMultimap): (r: Result<TagEditCommand, ParseError>)
    ensures m.GetValue(TagName).None? ==> r == Err(InvalidFormat(TagEditUsage))
    ensures m.GetValue(TagName).Some? && CheckDuplicates(m, TagEditPrefixes).Some? ==>
      r == Err(CheckDuplicates(m, TagEditPrefixes).value)
    ensures r.Ok? ==>
      && ParseTagName(m.GetValue(TagName).value) == Ok(r.value.targetTagName)
      && ParseDescriptor(m) == Ok(r.value.descriptor)
      && r.value.descriptor.IsAnyFieldEdited()
    ensures m.GetValue(TagName).Some? && CheckDuplicates(m, TagEditPrefixes).None? ==>
      var target := ParseTagName(m.GetValue(TagName).value);
      var d := ParseDescriptor(m);
      && (target.Err? ==> r == Err(Rejected(target.error)))
      && (target.Ok? && d.Err? ==> r == Err(Rejected(d.error)))
      && (target.Ok? && d.Ok? && !d.value.IsAnyFieldEdited() ==> r == Err(Rejected(NotEditedMessage)))
      && (target.Ok? && d.Ok? && d.value.IsAnyFieldEdited() ==> r == Ok(TagEditCommand(target.value, d.value)))
  {
    var target := m.GetValue(TagName);
    if target.None? then Err(InvalidFormat(TagEditUsage))
    else match CheckDuplicates(m, TagEditPrefixes)
      case Some(e) => Err(e)
      case None =>
        match ParseTagName(target.value)
        case Err(e) => Err(Rejected(e))
        case Ok(name) =>
          match ParseDescriptor(m)
          case Err(e) => Err(Rejected(e))
          case Ok(d) =>
            if !d.IsAnyFieldEdited() then Err(Rejected(NotEditedMessage))
            else Ok(TagEditCommand(name, d))
  }

  /** Naming only the target is refused: there is nothing to edit. */
  lemma TagEditNeedsAField(name: string)
    requires IsValidTagName(name)
    ensures ParseTagEdit(NameOnlyArgs(name)) == Err(Rejected(NotEditedMessage))
  {
    NameOnlyArgsValues(name);
    TagNameParses(name);
    DefaultTagDelegates(name);
  }

  /** Renaming alone parses to an edit that sets only the name, both names trimmed. */
  lemma TagEditRename(target: string, newName: string)
    requires IsValidTagName(Trim(target)) && IsValidTagName(Trim(newName))
    ensures ParseTagEdit(RenameArgs(target, newName)) ==
      Ok(TagEditCommand(Trim(target), EditTagDescriptor(Some(Trim(newName)), None, None, None)))
  {
    RenameArgsValues(target, newName);
  }

  /** The arguments `tn/TARGET nn/NEW_NAME`. */
  function RenameArgs(target: string, newName: string): ArgMultimap
  {
    ArgMultimap("", (q: Prefix) => if q == TagName then [target] else if q == NewTagName then [newName] else [])
  }

  lemma RenameArgsValues(target: string, newName: string)
    ensures var m := RenameArgs(target, newName);
      && m.GetValue(TagName) == Some(target) && m.GetValue(NewTagName) == Some(newName)
      && m.GetValue(TagCategory).None? && m.GetValue(TagColour).None? && m.GetValue(TagDescription).None?
      && CheckDuplicates(m, TagEditPrefixes).None?
  {
    var m := RenameArgs(target, newName);
    assert forall p :: !m.IsDuplicated(p);
  }

  // ---------------------------------------------------------------------------
  // tag delete

  /**
   * `TagDeleteCommandParser.parse`: the name must be present and not
   * repeated, and is parsed as a tag name.
   */
  function ParseTagDelete(m: ArgMultimap): (r: Result<TagDeleteCommand, ParseError>)
    ensures m.GetValue(TagName).None? ==> r == Err(InvalidFormat(TagDeleteUsage))
    ensures r.Ok? <==> m.GetValue(TagName).Some? && !m.IsDuplicated(TagName) && ParseTagName(m.GetValue(TagName).value).Ok?
    ensures r.Ok? ==> r.value.targetTagName == Trim(m.GetValue(TagName).value) && IsValidTagName(r.value.targetTagName)
    ensures r.Err? && r.error.Rejected? ==> r.error.message == NameConstraintsMessage
  {
    var target := m.GetValue(TagName);
    if target.None? then Err(InvalidFormat(TagDeleteUsage))
    else match CheckDuplicates(m, [TagName])
      case Some(e) => Err(e)
      case None =>
        match ParseTagName(target.value)
        case Err(e) => Err(Rejected(e))
        case Ok(name) => Ok(TagDeleteCommand(name))
  }

  /** Blanks around the name are trimmed, and the case is kept. */
  lemma TagDeleteRoundTrip(name: string, before: string, after: string)
    requires IsValidTagName(name)
    requires forall k :: 0 <= k < |before| ==> IsTrimmable(before[k])
    requires forall k :: 0 <= k < |after| ==> IsTrimmable(after[k])
    ensures ParseTagDelete(NameOnlyArgs(before + name + after)) == Ok(TagDeleteCommand(name))
  {
    NameOnlyArgsValues(before + name + after);
    assert !IsTrimmable(name[0]) && !IsTrimmable(name[|name| - 1]) by {
      assert IsAlnum(name[0]) && IsAlnum(name[|name| - 1]);
    }
    TrimAround(before, name, after);
  }
}
